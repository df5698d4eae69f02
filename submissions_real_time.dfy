/**
 * The per-form live submissions table: the submission list, starting from
 * the server's list and growing at the front with each notification, the
 * highlighted ids, and the text each table cell shows.
 */
module SubmissionsRealTime {
  import opened Wrappers
  import opened Types
  import Strings
  import LiveConnection

  // ---------------------------------------------------------------------
  // Cell text

  /** `String(value)` for a JSON value; an array joins its items with ",". */
  function JsString(v: Json): (r: string)
    ensures v.JStr? ==> r == v.s
    ensures v.JNull? ==> r == "null"
    ensures v.JBool? ==> r == if v.b then "true" else "false"
    ensures v.JNum? ==> r == Strings.IntToString(v.n)
    ensures v.JArr? ==> r == Strings.Join(",", ItemTexts(v, 0))
    ensures v.JObj? ==> r == "[object Object]"
    decreases v, 1, 0
  {
    match v
    case JNull => "null"
    case JBool(b) => if b then "true" else "false"
    case JNum(n) => Strings.IntToString(n)
    case JStr(s) => s
    case JArr(_) => Strings.Join(",", ItemTexts(v, 0))
    case JObj(_) => "[object Object]"
  }

  /** The text `join` uses for one item: null gives "", anything else `String(item)`. */
  function ItemText(x: Json): string
    decreases x, 2, 0
  {
    if x.JNull? then "" else JsString(x)
  }

  /** The texts `join` uses for the items from `from` on, in order. */
  function ItemTexts(parent: Json, from: nat): (r: seq<string>)
    requires parent.JArr? && from <= |parent.items|
    ensures |r| == |parent.items| - from
    ensures forall i | 0 <= i < |r| :: r[i] == ItemText(parent.items[from + i])
    decreases parent, 0, |parent.items| - from
  {
    if from == |parent.items| then []
    else [ItemText(parent.items[from])] + ItemTexts(parent, from + 1)
  }

  /** The cell for a value: "-" when missing or null, items joined with ", " for an array, else `String(value)`. */
  function CellDisplay(value: Option<Json>): (r: string)
    ensures value.None? || value == Some(JNull) ==> r == "-"
    ensures value.Some? && value.value.JArr? ==> r == Strings.Join(", ", ItemTexts(value.value, 0))
    ensures value.Some? && !value.value.JNull? && !value.value.JArr? ==> r == JsString(value.value)
  {
    match value
    case None => "-"
    case Some(JNull) => "-"
    case Some(JArr(_)) => Strings.Join(", ", ItemTexts(value.value, 0))
    case Some(v) => JsString(v)
  }

  lemma ItemTextsOfStrings(xs: seq<string>, from: nat)
    requires from <= |xs|
    ensures ItemTexts(JArr(StringsToJson(xs)), from) == xs[from..]
  {
    var v := JArr(StringsToJson(xs));
    var r := ItemTexts(v, from);
    forall i | 0 <= i < |r| ensures r[i] == xs[from..][i] {
      assert v.items[from + i] == JStr(xs[from + i]);
    }
  }

  /** `String(array)` of a string array is its items joined by ",", nested or not. */
  lemma JsStringOfStrings(xs: seq<string>)
    ensures JsString(JArr(StringsToJson(xs))) == Strings.Join(",", xs)
  {
    ItemTextsOfStrings(xs, 0);
  }

  /**
   * A multi-select answer shows its choices separated by ", ", and a text
   * or radio answer shows as typed.
   */
  lemma AnswersDisplay(xs: seq<string>, s: string)
    ensures CellDisplay(Some(JArr(StringsToJson(xs)))) == Strings.Join(", ", xs)
    ensures CellDisplay(Some(JStr(s))) == s
  {
    ItemTextsOfStrings(xs, 0);
  }

  /** The table rows: None when there are no submissions, else one cell per field for each submission. */
  function Table(fields: seq<Field>, submissions: seq<SubmissionWithId>): (r: Option<seq<seq<string>>>)
    ensures r.None? <==> submissions == []
    ensures r.Some? ==> |r.value| == |submissions|
    ensures r.Some? ==> forall i | 0 <= i < |submissions| ::
              |r.value[i]| == |fields| &&
              forall j | 0 <= j < |fields| :: r.value[i][j] == CellDisplay(Lookup(submissions[i].data, fields[j].id))
  {
    if submissions == [] then None
    else Some(seq(|submissions|, i requires 0 <= i < |submissions| =>
                    seq(|fields|, j requires 0 <= j < |fields| => CellDisplay(Lookup(submissions[i].data, fields[j].id)))))
  }

  // ---------------------------------------------------------------------
  // Component state

  /** The row a notification becomes. */
  function Row(n: SubmissionNotification): (s: SubmissionWithId)
    ensures s.id == n.submissionId && s.formId == n.formId
    ensures s.submittedAt == n.submittedAt && s.data == n.data
  {
    SubmissionWithId(n.submissionId, n.formId, n.submittedAt, n.data)
  }

  class View {
    /** The form this table belongs to; no handler changes it. */
    var formId: string
    var submissions: seq<SubmissionWithId>
    var newSubmissionIds: set<string>
    /** The ids of the highlight-expiry timers still to fire, one per message, in the order they fire. */
    var pendingExpiries: seq<string>
    var link: LiveConnection.Link
    var mounted: bool

    /** Every highlighted id has an expiry timer still to fire; the connection is sound. */
    ghost predicate Valid()
      reads this
    {
      && (forall id | id in newSubmissionIds :: id in pendingExpiries)
      && (mounted ==> LiveConnection.Inv(link))
    }

    /** Mount: the server's list, nothing highlighted, the form's stream opened. */
    constructor (formId: string, initialSubmissions: seq<SubmissionWithId>)
      ensures Valid()
      ensures this.formId == formId && submissions == initialSubmissions
      ensures newSubmissionIds == {} && pendingExpiries == []
      ensures link == LiveConnection.Mount() && mounted
    {
      this.formId := formId;
      submissions := initialSubmissions;
      newSubmissionIds := {};
      pendingExpiries := [];
      link := LiveConnection.Mount();
      mounted := true;
    }

    /**
     * The message event; `data` is None when the payload is not JSON, which
     * changes nothing. Otherwise the row goes in front of the whole list
     * (there is no cap) and its id is highlighted, with one expiry timer.
     */
    method Message(data: Option<SubmissionNotification>)
      requires Valid() && mounted && LiveConnection.IsOpen(link)
      modifies this
      ensures Valid()
      ensures data.None? ==>
                submissions == old(submissions) && newSubmissionIds == old(newSubmissionIds)
                && pendingExpiries == old(pendingExpiries)
      ensures data.Some? ==>
                && submissions == [Row(data.value)] + old(submissions)
                && newSubmissionIds == old(newSubmissionIds) + {data.value.submissionId}
                && pendingExpiries == old(pendingExpiries) + [data.value.submissionId]
      ensures link == old(link) && mounted && formId == old(formId)
    {
      if data.Some? {
        var n := data.value;
        submissions := [Row(n)] + submissions;
        newSubmissionIds := newSubmissionIds + {n.submissionId};
        pendingExpiries := pendingExpiries + [n.submissionId];
      }
    }

    /** The earliest highlight timer fires (all wait the same three seconds): its id loses the highlight. */
    method Expire()
      requires Valid() && pendingExpiries != []
      modifies this
      ensures Valid()
      ensures newSubmissionIds == old(newSubmissionIds) - {old(pendingExpiries)[0]}
      ensures pendingExpiries == old(pendingExpiries)[1..]
      ensures submissions == old(submissions) && link == old(link) && mounted == old(mounted)
      ensures formId == old(formId)
    {
      var id := pendingExpiries[0];
      newSubmissionIds := newSubmissionIds - {id};
      pendingExpiries := pendingExpiries[1..];
    }

    /** The error event: the current source closed, one reconnect scheduled. */
    method Error()
      requires Valid() && mounted && LiveConnection.IsOpen(link)
      modifies this
      ensures Valid()
      ensures link == LiveConnection.Error(old(link))
      ensures submissions == old(submissions) && newSubmissionIds == old(newSubmissionIds)
      ensures pendingExpiries == old(pendingExpiries) && mounted && formId == old(formId)
    {
      LiveConnection.ErrorKeepsInv(link);
      link := LiveConnection.Error(link);
    }

    /**
     * The reconnect timer fires: a new source is opened for the same form.
     * The timer is never cleared, so it can fire after an
     * unmount, and the source it opens then is not closed by anything.
     */
    method Reconnect()
      requires Valid() && link.pending > 0
      modifies this
      ensures Valid()
      ensures link == LiveConnection.Reconnect(old(link)) && mounted == old(mounted)
      ensures mounted ==> LiveConnection.IsOpen(link)
      ensures submissions == old(submissions) && newSubmissionIds == old(newSubmissionIds)
      ensures pendingExpiries == old(pendingExpiries) && formId == old(formId)
    {
      if mounted {
        LiveConnection.ReconnectKeepsInv(link);
      }
      link := LiveConnection.Reconnect(link);
    }

    /**
     * Unmount, as written: the cleanup closes the source the effect opened
     * first. At most the latest source stays open, and none does when no
     * reconnect has happened; a scheduled reconnect stays scheduled.
     */
    method Unmount()
      requires Valid() && mounted
      modifies this
      ensures Valid()
      ensures link == LiveConnection.UnmountAsWritten(old(link)) && !mounted
      ensures LiveConnection.OpenSources(link) <= {link.current} && link.pending == old(link).pending
      ensures old(link).current == 0 ==> LiveConnection.OpenSources(link) == {}
      ensures submissions == old(submissions) && newSubmissionIds == old(newSubmissionIds)
      ensures pendingExpiries == old(pendingExpiries) && formId == old(formId)
    {
      LiveConnection.UnmountAsWrittenLeavesLatest(link);
      link := LiveConnection.UnmountAsWritten(link);
      mounted := false;
    }

    /** Unmount with the corrected cleanup: the latest source is closed and no reconnect is left pending. */
    method UnmountCorrected()
      requires Valid() && mounted
      modifies this
      ensures Valid()
      ensures link == LiveConnection.Unmount(old(link)) && !mounted
      ensures LiveConnection.OpenSources(link) == {} && link.pending == 0
      ensures submissions == old(submissions) && newSubmissionIds == old(newSubmissionIds)
      ensures pendingExpiries == old(pendingExpiries) && formId == old(formId)
    {
      LiveConnection.UnmountClosesEverything(link);
      link := LiveConnection.Unmount(link);
      mounted := false;
    }
  }
}
