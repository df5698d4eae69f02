/**
 * The field editor's helpers. Each builds the edited field and hands it to
 * `onUpdate`; here each is a function returning that field.
 */
module FieldEditor {
  import opened Wrappers
  import opened Types
  import Strings
  import Lists

  /** A `Partial<Field>`: the keys an update sets; an absent key keeps the field's value. */
  datatype FieldUpdate = FieldUpdate(
    id: Option<string>,
    labelText: Option<string>,
    fieldType: Option<FieldType>,
    required: Option<bool>,
    options: Option<seq<string>>,
    placeholder: Option<string>)

  const NoChange := FieldUpdate(None, None, None, None, None, None)

  function Pick<T>(update: Option<T>, current: T): (r: T)
    ensures update.Some? ==> r == update.value
    ensures update.None? ==> r == current
  {
    if update.Some? then update.value else current
  }

  /** `{ ...field, ...updates }`: the keys in the update win, every other key is kept. */
  function Merge(field: Field, u: FieldUpdate): (r: Field)
    ensures r.id == Pick(u.id, field.id)
    ensures r.labelText == Pick(u.labelText, field.labelText)
    ensures r.fieldType == Pick(u.fieldType, field.fieldType)
    ensures r.required == Pick(u.required, field.required)
    ensures r.options == (if u.options.Some? then u.options else field.options)
    ensures r.placeholder == (if u.placeholder.Some? then u.placeholder else field.placeholder)
  {
    Field(
      Pick(u.id, field.id),
      Pick(u.labelText, field.labelText),
      Pick(u.fieldType, field.fieldType),
      Pick(u.required, field.required),
      if u.options.Some? then u.options else field.options,
      if u.placeholder.Some? then u.placeholder else field.placeholder)
  }

  /** Two updates in a row: the later one wins on every key it sets. */
  function Then(first: FieldUpdate, second: FieldUpdate): (r: FieldUpdate)
    ensures first == NoChange ==> r == second
    ensures second == NoChange ==> r == first
    ensures second.options.Some? ==> r.options == second.options
    ensures second.options.None? ==> r.options == first.options
  {
    FieldUpdate(
      if second.id.Some? then second.id else first.id,
      if second.labelText.Some? then second.labelText else first.labelText,
      if second.fieldType.Some? then second.fieldType else first.fieldType,
      if second.required.Some? then second.required else first.required,
      if second.options.Some? then second.options else first.options,
      if second.placeholder.Some? then second.placeholder else first.placeholder)
  }

  /** An update with no keys changes nothing, and applying an update twice is applying it once. */
  lemma MergeIdentityAndIdempotent(field: Field, u: FieldUpdate)
    ensures Merge(field, NoChange) == field
    ensures Merge(Merge(field, u), u) == Merge(field, u)
  {
  }

  /** Applying two updates one after the other is applying their combination. */
  lemma MergeCompose(field: Field, first: FieldUpdate, second: FieldUpdate)
    ensures Merge(Merge(field, first), second) == Merge(field, Then(first, second))
  {
  }

  /** `field.options || []`. */
  function OptionsOf(field: Field): (r: seq<string>)
    ensures field.options.Some? ==> r == field.options.value
    ensures field.options.None? ==> r == []
  {
    field.options.GetOr([])
  }

  /** `{ options }`: an update that sets the options and no other key. */
  function SetOptions(options: seq<string>): (u: FieldUpdate)
    ensures u.options == Some(options)
    ensures u.(options := None) == NoChange
  {
    NoChange.(options := Some(options))
  }

  /** addOption: the options with one empty option appended; missing options count as none. */
  function AddOption(field: Field): (r: Field)
    ensures r.options == Some(OptionsOf(field) + [""])
    ensures r == field.(options := r.options)
  {
    Merge(field, SetOptions(OptionsOf(field) + [""]))
  }

  /** updateOption: the option at `idx` becomes `value`; every other option is kept. */
  function UpdateOption(field: Field, idx: nat, value: string): (r: Field)
    requires idx < |OptionsOf(field)|
    ensures r.options.Some? && |r.options.value| == |OptionsOf(field)|
    ensures r.options.value[idx] == value
    ensures forall j | 0 <= j < |OptionsOf(field)| && j != idx :: r.options.value[j] == OptionsOf(field)[j]
    ensures r == field.(options := r.options)
  {
    Merge(field, SetOptions(OptionsOf(field)[idx := value]))
  }

  /** removeOption: position `idx` is dropped and the order of the rest kept; missing options give []. */
  function RemoveOption(field: Field, idx: int): (r: Field)
    ensures r.options == Some(Lists.RemoveAt(OptionsOf(field), idx))
    ensures r == field.(options := r.options)
  {
    Merge(field, SetOptions(Lists.RemoveAt(OptionsOf(field), idx)))
  }

  /** Removing the option just added restores the options (an absent list comes back as []). */
  lemma RemoveAddedOption(field: Field)
    ensures RemoveOption(AddOption(field), |OptionsOf(field)|) == field.(options := Some(OptionsOf(field)))
  {
    var opts := OptionsOf(field);
    assert Lists.RemoveAt(opts + [""], |opts|) == opts;
  }

  /** Setting an option back to its old value restores the options. */
  lemma UpdateOptionUndo(field: Field, idx: nat, value: string)
    requires idx < |OptionsOf(field)|
    ensures UpdateOption(UpdateOption(field, idx, value), idx, OptionsOf(field)[idx])
              == field.(options := Some(OptionsOf(field)))
  {
    var opts := OptionsOf(field);
    assert OptionsOf(UpdateOption(field, idx, value)) == opts[idx := value];
    assert opts[idx := value][idx := opts[idx]] == opts;
  }

  const Bullet := '\U{2022}'

  /** The "N option(s)" tail: a trailing "s" unless N is 1. */
  function OptionCount(n: nat): (r: string)
    ensures |Strings.NatToString(n)| < |r| && r[..|Strings.NatToString(n)|] == Strings.NatToString(n)
    ensures r[|r| - 1] == 's' <==> n != 1
  {
    Strings.NatToString(n) + " option" + (if n != 1 then "s" else "")
  }

  /** The name a choice field's description starts with. */
  function ChoiceName(t: FieldType): (r: string)
    requires t != Text
    ensures r == "Radio button" <==> t == Radio
    ensures r == "Multi-select" <==> t == Multi
  {
    match t
    case Radio => assert "Radio button"[0] != "Multi-select"[0]; "Radio button"
    case Multi => assert "Radio button"[0] != "Multi-select"[0]; "Multi-select"
  }

  /** getFieldDescription: the type's name and, for choice fields, how many options it has. */
  function Description(field: Field): (r: string)
    ensures field.fieldType == Text ==> r == "Text input"
    ensures field.fieldType != Text ==>
              r == ChoiceName(field.fieldType) + " " + [Bullet] + " " + OptionCount(|OptionsOf(field)|)
  {
    match field.fieldType
    case Text => "Text input"
    case Radio => "Radio button " + [Bullet] + " " + OptionCount(|OptionsOf(field)|)
    case Multi => "Multi-select " + [Bullet] + " " + OptionCount(|OptionsOf(field)|)
  }

  /** The "N option(s)" tail reads back as N, and ends in "s" exactly when N is not 1. */
  lemma OptionCountReadsBack(n: nat)
    ensures var s := OptionCount(n);
            var d := Strings.NatToString(n);
            && |d| <= |s| && s[..|d|] == d
            && Strings.DecimalValue(d) == n
            && (s[|s| - 1] == 's' <==> n != 1)
  {
    Strings.NatToStringRoundTrip(n);
    if n == 1 {
      assert Strings.NatToString(n) == "1";
      assert OptionCount(n) == "1 option";
    }
  }

  /**
   * A text field reads "Text input"; a choice field reads its type's name, a
   * bullet, and its option count (0 when options are missing), with "option"
   * plural exactly when the count is not 1.
   */
  lemma DescriptionReadsBack(field: Field)
    ensures field.fieldType == Text ==> Description(field) == "Text input"
    ensures field.fieldType != Text ==>
              var r := Description(field);
              var n := |OptionsOf(field)|;
              var head := ChoiceName(field.fieldType) + " " + [Bullet] + " ";
              var d := Strings.NatToString(n);
              && |head| + |d| <= |r|
              && r[..|head|] == head
              && r[|head|..|head| + |d|] == d
              && Strings.DecimalValue(d) == n
              && (r[|r| - 1] == 's' <==> n != 1)
  {
    if field.fieldType != Text {
      var n := |OptionsOf(field)|;
      var head := ChoiceName(field.fieldType) + " " + [Bullet] + " ";
      OptionCountReadsBack(n);
      var tail := OptionCount(n);
      assert Description(field) == head + tail;
      assert (head + tail)[|head|..|head| + |Strings.NatToString(n)|] == tail[..|Strings.NatToString(n)|];
    }
  }
}
