/**
 * The form builder: the draft's title, description and field list, the
 * drag-to-reorder state, and the checks a draft must pass before it is
 * handed to `onSave`.
 */
module FormBuilder {
  import opened Wrappers
  import opened Types
  import Strings
  import Lists
  import FormRenderer

  /** The field addField appends: no label, not required, an empty option list for choice types. */
  function NewField(t: FieldType, id: string): (f: Field)
    ensures f.id == id && f.fieldType == t
    ensures f.labelText == [] && !f.required && f.placeholder.None?
    ensures f.options.Some? <==> t == Radio || t == Multi
    ensures f.options.Some? ==> f.options.value == []
  {
    Field(id, "", t, false, if t == Radio || t == Multi then Some([]) else None, None)
  }

  /** What `onSave` receives: the title and description as typed, and the fields in order. */
  datatype Draft = Draft(title: string, description: string, fields: seq<Field>)

  /** The result of handleSave: the first check that failed, or the draft that was saved. */
  datatype SaveOutcome =
    | TitleRequired
    | FieldsRequired
    | LabelsRequired
    | OptionsRequired
    | Saved(draft: Draft)

  /** The toast shown for a failed check. */
  function ToastMessage(o: SaveOutcome): (r: string)
    requires !o.Saved?
    ensures r != []
  {
    match o
    case TitleRequired => "Title is required"
    case FieldsRequired => "At least one field is required"
    case LabelsRequired => "All fields must have labels"
    case OptionsRequired => "Radio and multi-select fields must have at least one option"
  }

  /** Each failed check has a toast of its own: the message tells which check failed. */
  lemma ToastMessagesDistinct(a: SaveOutcome, b: SaveOutcome)
    requires !a.Saved? && !b.Saved?
    ensures ToastMessage(a) == ToastMessage(b) <==> a == b
  {
    var ta, tb := ToastMessage(a), ToastMessage(b);
    if a != b {
      assert ta[0] != tb[0] || |ta| != |tb|;
    }
  }

  /** `f.label.trim()` is non-empty: some character of the label is not whitespace. */
  predicate HasLabel(f: Field) {
    !Strings.IsBlank(f.labelText)
  }

  /** The label check is the trim test of the source. */
  lemma HasLabelIsTrimTest(f: Field)
    ensures HasLabel(f) <==> Strings.Trim(f.labelText) != []
  {
    Strings.TrimEmptyIffBlank(f.labelText);
  }

  /** A radio or multi field with a missing or empty option list. */
  predicate LacksOptions(f: Field) {
    (f.fieldType == Radio || f.fieldType == Multi) && (f.options.None? || |f.options.value| == 0)
  }

  /** `fields.filter(p).length > 0`, for the label check. */
  function FirstUnlabelled(fields: seq<Field>): (r: Option<nat>)
    ensures r.None? <==> forall i | 0 <= i < |fields| :: HasLabel(fields[i])
    ensures r.Some? ==> r.value < |fields| && !HasLabel(fields[r.value])
  {
    if fields == [] then None
    else if !HasLabel(fields[0]) then Some(0)
    else
      var rest := FirstUnlabelled(fields[1..]);
      if rest.None? then None else Some(rest.value + 1)
  }

  /** `fields.filter(p).length > 0`, for the option check. */
  function FirstWithoutOptions(fields: seq<Field>): (r: Option<nat>)
    ensures r.None? <==> forall i | 0 <= i < |fields| :: !LacksOptions(fields[i])
    ensures r.Some? ==> r.value < |fields| && LacksOptions(fields[r.value])
  {
    if fields == [] then None
    else if LacksOptions(fields[0]) then Some(0)
    else
      var rest := FirstWithoutOptions(fields[1..]);
      if rest.None? then None else Some(rest.value + 1)
  }

  /**
   * The checks of handleSave, in their order; the first failure stops the
   * save. The fields are projected to the keys a field has, which keeps
   * each of them as it is.
   */
  function SaveCheck(title: string, description: string, fields: seq<Field>): (r: SaveOutcome)
    ensures r.Saved? ==> r.draft == Draft(title, description, fields)
  {
    if Strings.IsBlank(title) then TitleRequired
    else if |fields| == 0 then FieldsRequired
    else if FirstUnlabelled(fields).Some? then LabelsRequired
    else if FirstWithoutOptions(fields).Some? then OptionsRequired
    else Saved(Draft(title, description, fields))
  }

  /** Each check fails exactly when the earlier ones pass and its own condition does not hold. */
  lemma SaveCheckOrder(title: string, description: string, fields: seq<Field>)
    ensures var r := SaveCheck(title, description, fields);
            && (r == TitleRequired <==> Strings.IsBlank(title))
            && (r == FieldsRequired <==> !Strings.IsBlank(title) && fields == [])
            && (r == LabelsRequired <==>
                  !Strings.IsBlank(title) && fields != [] && exists i | 0 <= i < |fields| :: !HasLabel(fields[i]))
            && (r == OptionsRequired <==>
                  && !Strings.IsBlank(title) && fields != []
                  && (forall i | 0 <= i < |fields| :: HasLabel(fields[i]))
                  && exists i | 0 <= i < |fields| :: LacksOptions(fields[i]))
  {
    var u := FirstUnlabelled(fields);
    var o := FirstWithoutOptions(fields);
    if u.Some? {
      assert !HasLabel(fields[u.value]);
    }
    if o.Some? {
      assert LacksOptions(fields[o.value]);
    }
  }

  /** A draft is saved exactly when all four checks pass. */
  lemma SavedIffChecksPass(title: string, description: string, fields: seq<Field>)
    ensures SaveCheck(title, description, fields).Saved? <==>
              && Strings.Trim(title) != []
              && |fields| >= 1
              && (forall i | 0 <= i < |fields| :: HasLabel(fields[i]))
              && (forall i | 0 <= i < |fields| :: !LacksOptions(fields[i]))
  {
    var r := SaveCheck(title, description, fields);
    SaveCheckOrder(title, description, fields);
    Strings.TrimEmptyIffBlank(title);
    if !r.Saved? {
      if r == OptionsRequired {
        var i :| 0 <= i < |fields| && LacksOptions(fields[i]);
      }
    }
  }

  lemma NonBlankIsNonEmpty(s: string)
    requires Strings.Trim(s) != []
    ensures |s| >= 1
  {
    Strings.TrimEmptyIffBlank(s);
  }

  /**
   * A saved draft, given an id and a creation time, passes the stored-form
   * schema as long as its field ids are non-empty (generated ids always are).
   */
  lemma SavedDraftIsValidForm(title: string, description: string, fields: seq<Field>, id: string, createdAt: int)
    requires SaveCheck(title, description, fields).Saved?
    requires |id| >= 1
    requires forall i | 0 <= i < |fields| :: |fields[i].id| >= 1
    ensures ValidForm(Form(id, title, Some(description), fields, createdAt))
  {
    SavedIffChecksPass(title, description, fields);
    NonBlankIsNonEmpty(title);
    forall i | 0 <= i < |fields| ensures ValidField(fields[i]) {
      assert HasLabel(fields[i]);
    }
  }

  /**
   * The builder is stricter than the stored-form schema: a radio field
   * without options passes the schema but is refused at save time.
   */
  lemma StricterThanSchema(title: string, f: Field)
    requires Strings.Trim(title) != []
    requires f == Field("q", "Question", Radio, true, None, None)
    ensures ValidForm(Form("id", title, None, [f], 0))
    ensures SaveCheck(title, "", [f]) == OptionsRequired
  {
    NonBlankIsNonEmpty(title);
    Strings.TrimEmptyIffBlank(title);
    assert !Strings.IsBlank(title);
    assert HasLabel(f) by {
      assert !Strings.IsSpace(f.labelText[0]);
    }
    assert FirstUnlabelled([f]) == None;
    assert LacksOptions(f);
  }

  /** Every radio field of a saved draft gets the enum rule of its options when the form is rendered. */
  lemma SavedRadioFieldsGetEnumRules(title: string, description: string, fields: seq<Field>)
    requires SaveCheck(title, description, fields).Saved?
    ensures forall i | 0 <= i < |fields| && fields[i].fieldType == Radio ::
              FormRenderer.BuildRule(fields[i]).rule == FormRenderer.RadioOneOf(fields[i].options.value)
  {
    SavedIffChecksPass(title, description, fields);
    forall i | 0 <= i < |fields| && fields[i].fieldType == Radio
      ensures FormRenderer.BuildRule(fields[i]).rule == FormRenderer.RadioOneOf(fields[i].options.value)
    {
      assert !LacksOptions(fields[i]);
    }
  }

  class Builder {
    var title: string
    var description: string
    var fields: seq<Field>
    var saving: bool
    var draggedIndex: Option<nat>
    var expandedFields: seq<string>

    /** Starts from the initial form's title, description and fields, or from an empty draft. */
    constructor (initial: Option<Form>)
      ensures initial.Some? ==> title == initial.value.title && fields == initial.value.fields
      ensures initial.Some? ==> description == initial.value.description.GetOr("")
      ensures initial.None? ==> title == "" && description == "" && fields == []
      ensures !saving && draggedIndex.None? && expandedFields == []
    {
      if initial.Some? {
        title := initial.value.title;
        description := initial.value.description.GetOr("");
        fields := initial.value.fields;
      } else {
        title := "";
        description := "";
        fields := [];
      }
      saving := false;
      draggedIndex := None;
      expandedFields := [];
    }

    /** addField: appends one new field and expands it; `newId` is the generated UUID. */
    method AddField(t: FieldType, newId: string)
      modifies this
      ensures fields == old(fields) + [NewField(t, newId)]
      ensures expandedFields == old(expandedFields) + [newId]
      ensures title == old(title) && description == old(description)
      ensures saving == old(saving) && draggedIndex == old(draggedIndex)
    {
      fields := fields + [NewField(t, newId)];
      expandedFields := expandedFields + [newId];
    }

    /** updateField: replaces the field at `index`; the length and every other position are kept. */
    method UpdateField(index: nat, f: Field)
      requires index < |fields|
      modifies this
      ensures fields == old(fields)[index := f]
      ensures |fields| == old(|fields|)
      ensures forall j | 0 <= j < |fields| && j != index :: fields[j] == old(fields[j])
      ensures title == old(title) && description == old(description)
      ensures saving == old(saving) && draggedIndex == old(draggedIndex) && expandedFields == old(expandedFields)
    {
      fields := fields[index := f];
    }

    /** deleteField: drops position `index` and keeps the order of the rest. */
    method DeleteField(index: int)
      modifies this
      ensures fields == Lists.RemoveAt(old(fields), index)
      ensures title == old(title) && description == old(description)
      ensures saving == old(saving) && draggedIndex == old(draggedIndex) && expandedFields == old(expandedFields)
    {
      fields := Lists.RemoveAt(fields, index);
    }

    /** handleDragStart: remembers the dragged position. */
    method HandleDragStart(index: nat)
      modifies this
      ensures draggedIndex == Some(index)
      ensures fields == old(fields) && title == old(title) && description == old(description)
      ensures saving == old(saving) && expandedFields == old(expandedFields)
    {
      draggedIndex := Some(index);
    }

    /**
     * handleDragOver: with no drag in progress, or over the dragged field
     * itself, nothing changes; otherwise the dragged field moves to `index`
     * and the drag continues from there.
     */
    method HandleDragOver(index: nat)
      requires index < |fields|
      requires draggedIndex.Some? ==> draggedIndex.value < |fields|
      modifies this
      ensures old(draggedIndex).None? || old(draggedIndex) == Some(index) ==>
                fields == old(fields) && draggedIndex == old(draggedIndex)
      ensures old(draggedIndex).Some? && old(draggedIndex) != Some(index) ==>
                && fields == Lists.Move(old(fields), old(draggedIndex).value, index)
                && draggedIndex == Some(index)
      ensures |fields| == old(|fields|) && multiset(fields) == multiset(old(fields))
      ensures fields[index] == if old(draggedIndex).Some? then old(fields[draggedIndex.value]) else old(fields[index])
      ensures title == old(title) && description == old(description)
      ensures saving == old(saving) && expandedFields == old(expandedFields)
    {
      if draggedIndex.None? || draggedIndex == Some(index) {
        return;
      }
      Lists.MoveIsPermutation(fields, draggedIndex.value, index);
      fields := Lists.Move(fields, draggedIndex.value, index);
      draggedIndex := Some(index);
    }

    /** handleDrop: ends the drag; the fields stay where the drag left them. */
    method HandleDrop()
      modifies this
      ensures draggedIndex.None?
      ensures fields == old(fields) && title == old(title) && description == old(description)
      ensures saving == old(saving) && expandedFields == old(expandedFields)
    {
      draggedIndex := None;
    }

    /**
     * handleSave: runs the checks; on success the draft goes to `onSave`.
     * The button is disabled while saving, so a save starts with `saving`
     * false; `saving` is set only around the `onSave` call, which ends with it
     * false again, and a failed check leaves it alone. The draft is kept.
     */
    method HandleSave() returns (outcome: SaveOutcome)
      requires !saving
      ensures outcome == SaveCheck(title, description, fields)
      ensures !saving
    {
      outcome := SaveCheck(title, description, fields);
    }
  }
}
