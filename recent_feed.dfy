/**
 * The global recent-submissions feed: the ten latest notifications, the
 * connection flag, and the set of ids currently highlighted as new. Each
 * handler is a method; timer callbacks (highlight expiry, reconnect) are
 * methods the environment calls when the timer fires.
 */
module RecentFeed {
  import opened Wrappers
  import opened Types
  import LiveConnection

  /** One line of the feed. */
  datatype RecentSubmission = RecentSubmission(id: string, formId: string, formTitle: string, submittedAt: int)

  const MaxEntries: nat := 10

  /** The entry a notification becomes. */
  function Entry(n: SubmissionNotification): (e: RecentSubmission)
    ensures e.id == n.submissionId && e.formId == n.formId
    ensures e.formTitle == n.formTitle && e.submittedAt == n.submittedAt
  {
    RecentSubmission(n.submissionId, n.formId, n.formTitle, n.submittedAt)
  }

  /** `[entry, ...prev].slice(0, 10)`: the entry first, then the earlier ones in order, at most ten in all. */
  function Prepend(e: RecentSubmission, prev: seq<RecentSubmission>): (r: seq<RecentSubmission>)
    ensures |r| == if |prev| + 1 <= MaxEntries then |prev| + 1 else MaxEntries
    ensures r[0] == e
    ensures forall i | 1 <= i < |r| :: r[i] == prev[i - 1]
  {
    var all := [e] + prev;
    if |all| <= MaxEntries then all else all[..MaxEntries]
  }

  /** The same notification twice gives two entries: the feed does not deduplicate. */
  lemma NoDeduplication(e: RecentSubmission, prev: seq<RecentSubmission>)
    ensures var r := Prepend(e, Prepend(e, prev));
            |r| >= 2 && r[0] == e && r[1] == e
  {
  }

  /** After eleven or more notifications only the ten latest are shown, newest first. */
  lemma OldestDropped(e: RecentSubmission, prev: seq<RecentSubmission>)
    requires |prev| == MaxEntries
    ensures Prepend(e, prev) == [e] + prev[..MaxEntries - 1]
  {
  }

  class Feed {
    var submissions: seq<RecentSubmission>
    var isConnected: bool
    var newSubmissionIds: set<string>
    /** The ids of the highlight-expiry timers still to fire, one per message, in the order they fire. */
    var pendingExpiries: seq<string>
    var link: LiveConnection.Link
    var mounted: bool

    /** At most ten entries; every highlighted id has an expiry timer still to fire; the connection is sound. */
    ghost predicate Valid()
      reads this
    {
      && |submissions| <= MaxEntries
      && (forall id | id in newSubmissionIds :: id in pendingExpiries)
      && (mounted ==> LiveConnection.Inv(link))
    }

    /** Mount: empty list, not connected, nothing highlighted, the first source opened. */
    constructor ()
      ensures Valid()
      ensures submissions == [] && !isConnected && newSubmissionIds == {} && pendingExpiries == []
      ensures link == LiveConnection.Mount() && mounted
    {
      submissions := [];
      isConnected := false;
      newSubmissionIds := {};
      pendingExpiries := [];
      link := LiveConnection.Mount();
      mounted := true;
    }

    /** The open event. */
    method Open()
      requires Valid() && mounted && LiveConnection.IsOpen(link)
      modifies this
      ensures Valid()
      ensures isConnected
      ensures submissions == old(submissions) && newSubmissionIds == old(newSubmissionIds)
      ensures pendingExpiries == old(pendingExpiries) && link == old(link) && mounted
    {
      isConnected := true;
    }

    /**
     * The message event; `data` is None when the payload is not JSON, which
     * is logged and changes nothing. Otherwise the entry goes first and its
     * id is highlighted, with one expiry timer scheduled.
     */
    method Message(data: Option<SubmissionNotification>)
      requires Valid() && mounted && LiveConnection.IsOpen(link)
      modifies this
      ensures Valid()
      ensures data.None? ==>
                submissions == old(submissions) && newSubmissionIds == old(newSubmissionIds)
                && pendingExpiries == old(pendingExpiries)
      ensures data.Some? ==>
                && submissions == Prepend(Entry(data.value), old(submissions))
                && newSubmissionIds == old(newSubmissionIds) + {data.value.submissionId}
                && pendingExpiries == old(pendingExpiries) + [data.value.submissionId]
      ensures isConnected == old(isConnected) && link == old(link) && mounted
    {
      if data.Some? {
        var n := data.value;
        submissions := Prepend(Entry(n), submissions);
        newSubmissionIds := newSubmissionIds + {n.submissionId};
        pendingExpiries := pendingExpiries + [n.submissionId];
      }
    }

    /**
     * The earliest highlight timer fires (they all wait the same three
     * seconds, so they fire in the order they were set): its id loses the
     * highlight, even when a later message with the same id is still waiting
     * on its own timer.
     */
    method Expire()
      requires Valid() && pendingExpiries != []
      modifies this
      ensures Valid()
      ensures newSubmissionIds == old(newSubmissionIds) - {old(pendingExpiries)[0]}
      ensures pendingExpiries == old(pendingExpiries)[1..]
      ensures submissions == old(submissions) && isConnected == old(isConnected)
      ensures link == old(link) && mounted == old(mounted)
    {
      var id := pendingExpiries[0];
      newSubmissionIds := newSubmissionIds - {id};
      pendingExpiries := pendingExpiries[1..];
    }

    /** The error event: not connected, the current source closed, one reconnect scheduled. */
    method Error()
      requires Valid() && mounted && LiveConnection.IsOpen(link)
      modifies this
      ensures Valid()
      ensures !isConnected
      ensures link == LiveConnection.Error(old(link))
      ensures submissions == old(submissions) && newSubmissionIds == old(newSubmissionIds)
      ensures pendingExpiries == old(pendingExpiries) && mounted
    {
      LiveConnection.ErrorKeepsInv(link);
      isConnected := false;
      link := LiveConnection.Error(link);
    }

    /**
     * The reconnect timer fires: a new source is opened; the flag waits for
     * its open event. The timer is never cleared, so it can fire after an
     * unmount, and the source it opens then is not closed by anything.
     */
    method Reconnect()
      requires Valid() && link.pending > 0
      modifies this
      ensures Valid()
      ensures link == LiveConnection.Reconnect(old(link)) && mounted == old(mounted)
      ensures mounted ==> LiveConnection.IsOpen(link)
      ensures submissions == old(submissions) && newSubmissionIds == old(newSubmissionIds)
      ensures pendingExpiries == old(pendingExpiries) && isConnected == old(isConnected)
    {
      if mounted {
        LiveConnection.ReconnectKeepsInv(link);
      }
      link := LiveConnection.Reconnect(link);
    }

    /**
     * Unmount, as written: the cleanup closes the source the effect opened
     * first. At most the latest source stays open, and none does when no
     * reconnect has happened; a scheduled reconnect stays scheduled.
     */
    method Unmount()
      requires Valid() && mounted
      modifies this
      ensures Valid()
      ensures link == LiveConnection.UnmountAsWritten(old(link)) && !mounted
      ensures LiveConnection.OpenSources(link) <= {link.current} && link.pending == old(link).pending
      ensures old(link).current == 0 ==> LiveConnection.OpenSources(link) == {}
      ensures submissions == old(submissions) && newSubmissionIds == old(newSubmissionIds)
      ensures pendingExpiries == old(pendingExpiries) && isConnected == old(isConnected)
    {
      LiveConnection.UnmountAsWrittenLeavesLatest(link);
      link := LiveConnection.UnmountAsWritten(link);
      mounted := false;
    }

    /** Unmount with the corrected cleanup: the latest source is closed and no reconnect is left pending. */
    method UnmountCorrected()
      requires Valid() && mounted
      modifies this
      ensures Valid()
      ensures link == LiveConnection.Unmount(old(link)) && !mounted
      ensures LiveConnection.OpenSources(link) == {} && link.pending == 0
      ensures submissions == old(submissions) && newSubmissionIds == old(newSubmissionIds)
      ensures pendingExpiries == old(pendingExpiries) && isConnected == old(isConnected)
    {
      LiveConnection.UnmountClosesEverything(link);
      link := LiveConnection.Unmount(link);
      mounted := false;
    }
  }
}
