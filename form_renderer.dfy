/**
 * The form renderer: the submission rules it builds from a form's fields,
 * the check of the entered data against them, and the component state
 * (entered data, per-field error messages, the submitting flag) that its
 * handlers update.
 */
module FormRenderer {
  import opened Wrappers
  import opened Types
  import Lists

  // ---------------------------------------------------------------------
  // Rules

  /** The check built for one field's value, before `required` is applied. */
  datatype Rule =
    | TextRule                           // z.string().min(1, "This field is required")
    | RadioOneOf(options: seq<string>)   // z.enum(options, { message: "Please select an option" })
    | RadioAnyString                     // z.string().min(1, "Please select an option")
    | MultiRule                          // z.array(z.string()).min(1, "Please select at least one option")

  /** A field's rule; a field that is not required is `.optional()`: it may be absent. */
  datatype FieldRule = FieldRule(rule: Rule, required: bool)

  const RequiredMessage := "This field is required"
  const SelectMessage := "Please select an option"
  const SelectAtLeastOneMessage := "Please select at least one option"

  /** The rule for one field (the body of the reduce callback). */
  function BuildRule(f: Field): (r: FieldRule)
    ensures r.required == f.required
    ensures f.fieldType == Text <==> r.rule == TextRule
    ensures f.fieldType == Multi <==> r.rule == MultiRule
    ensures f.fieldType == Radio && f.options.Some? && f.options.value != [] <==> r.rule.RadioOneOf?
    ensures r.rule.RadioOneOf? ==> r.rule.options == f.options.value
  {
    var rule :=
      match f.fieldType
      case Text => TextRule
      case Radio => if f.options.Some? && |f.options.value| > 0 then RadioOneOf(f.options.value) else RadioAnyString
      case Multi => MultiRule;
    FieldRule(rule, f.required)
  }

  /**
   * The object schema: the keys in the order they were first set, and each
   * key's rule. Assigning an existing key replaces its rule and keeps its place.
   */
  datatype Schema = Schema(keys: seq<string>, rules: map<string, FieldRule>)

  ghost predicate WellFormed(s: Schema) {
    && (forall k :: k in s.keys <==> k in s.rules)
    && (forall i, j | 0 <= i < j < |s.keys| :: s.keys[i] != s.keys[j])
  }

  /** `acc[field.id] = fieldSchema`. */
  function AddRule(acc: Schema, f: Field): (r: Schema)
    requires WellFormed(acc)
    ensures WellFormed(r)
    ensures r.rules == acc.rules[f.id := BuildRule(f)]
  {
    if f.id in acc.rules then Schema(acc.keys, acc.rules[f.id := BuildRule(f)])
    else Schema(acc.keys + [f.id], acc.rules[f.id := BuildRule(f)])
  }

  /** `form.fields.reduce(...)`, a left fold over the fields. */
  function BuildSchema(fields: seq<Field>): (s: Schema)
    ensures WellFormed(s)
    ensures forall k :: k in s.rules <==> exists i | 0 <= i < |fields| :: fields[i].id == k
  {
    if fields == [] then Schema([], map[])
    else
      var prefix := fields[..|fields| - 1];
      var r := AddRule(BuildSchema(prefix), fields[|fields| - 1]);
      assert forall i | 0 <= i < |prefix| :: prefix[i] == fields[i];
      r
  }

  /** When two fields share an id, the later field's rule is the one checked. */
  lemma {:induction false} LastFieldWins(fields: seq<Field>, i: nat)
    requires i < |fields|
    requires forall j | i < j < |fields| :: fields[j].id != fields[i].id
    ensures BuildSchema(fields).rules[fields[i].id] == BuildRule(fields[i])
  {
    if i < |fields| - 1 {
      var prefix := fields[..|fields| - 1];
      assert prefix[i] == fields[i];
      LastFieldWins(prefix, i);
    }
  }

  function Ids(fields: seq<Field>): (r: seq<string>)
    ensures |r| == |fields| && forall i | 0 <= i < |fields| :: r[i] == fields[i].id
  {
    if fields == [] then [] else Ids(fields[..|fields| - 1]) + [fields[|fields| - 1].id]
  }

  /** With distinct ids, the schema checks the fields in their order, each with its own rule. */
  lemma {:induction false} DistinctIdsSchema(fields: seq<Field>)
    requires forall i, j | 0 <= i < j < |fields| :: fields[i].id != fields[j].id
    ensures BuildSchema(fields).keys == Ids(fields)
    ensures forall i | 0 <= i < |fields| :: BuildSchema(fields).rules[fields[i].id] == BuildRule(fields[i])
  {
    if fields != [] {
      var prefix := fields[..|fields| - 1];
      DistinctIdsSchema(prefix);
      var last := fields[|fields| - 1];
      forall i | 0 <= i < |prefix| ensures prefix[i].id != last.id {
        assert prefix[i] == fields[i];
      }
      forall i | 0 <= i < |fields| ensures BuildSchema(fields).rules[fields[i].id] == BuildRule(fields[i]) {
        LastFieldWins(fields, i);
      }
    }
  }

  // ---------------------------------------------------------------------
  // Checking the entered data

  /** An issue's message: one of the renderer's own texts, or the library's text for a code. */
  datatype Message = Custom(text: string) | Default(code: IssueCode)

  /** An issue on field `field`, on the field's value or on one item of it. */
  datatype FieldIssue = FieldIssue(field: string, item: Option<nat>, message: Message)

  /** `z.array(z.string())` items: one issue per item that is not a string. */
  function ItemIssues(key: string, items: seq<Json>, from: nat): (r: seq<FieldIssue>)
    requires from <= |items|
    ensures r == [] <==> forall i | from <= i < |items| :: items[i].JStr?
    ensures forall x | x in r :: x.field == key && x.message == Default(InvalidType)
    decreases |items| - from
  {
    if from == |items| then []
    else
      var rest := ItemIssues(key, items, from + 1);
      if items[from].JStr? then rest else [FieldIssue(key, Some(from), Default(InvalidType))] + rest
  }

  /** The issues one field's value raises; `None` is an absent key. */
  function CheckValue(key: string, fr: FieldRule, v: Option<Json>): (r: seq<FieldIssue>)
    ensures forall x | x in r :: x.field == key
  {
    if v.None? && !fr.required then []
    else
      var here := (m: Message) => [FieldIssue(key, None, m)];
      match fr.rule
      case TextRule =>
        if v.Some? && v.value.JStr? then (if |v.value.s| >= 1 then [] else here(Custom(RequiredMessage)))
        else here(Default(InvalidType))
      case RadioAnyString =>
        if v.Some? && v.value.JStr? then (if |v.value.s| >= 1 then [] else here(Custom(SelectMessage)))
        else here(Default(InvalidType))
      case RadioOneOf(options) =>
        if v.Some? && v.value.JStr? && v.value.s in options then [] else here(Custom(SelectMessage))
      case MultiRule =>
        if v.Some? && v.value.JArr? then
          if |v.value.items| < 1 then here(Custom(SelectAtLeastOneMessage))
          else ItemIssues(key, v.value.items, 0)
        else here(Default(InvalidType))
  }

  predicate Accepts(fr: FieldRule, v: Option<Json>) {
    CheckValue("", fr, v) == []
  }

  /** Whether a value passes does not depend on the key it is reported under. */
  lemma AcceptsAnyKey(key: string, fr: FieldRule, v: Option<Json>)
    ensures CheckValue(key, fr, v) == [] <==> Accepts(fr, v)
  {
    if v.Some? && v.value.JArr? && |v.value.items| >= 1 {
      var a := ItemIssues(key, v.value.items, 0);
      var b := ItemIssues("", v.value.items, 0);
      assert a == [] <==> b == [];
    }
  }

  /** A required text field accepts exactly the non-empty strings. */
  lemma RequiredTextAccepts(v: Option<Json>)
    ensures Accepts(FieldRule(TextRule, true), v) <==> v.Some? && v.value.JStr? && |v.value.s| >= 1
  {
  }

  /** A radio field with options accepts exactly one of its options. */
  lemma RadioWithOptionsAccepts(options: seq<string>, v: Option<Json>)
    ensures Accepts(FieldRule(RadioOneOf(options), true), v) <==> v.Some? && v.value.JStr? && v.value.s in options
  {
  }

  /** A radio field without options accepts any non-empty string. */
  lemma RadioWithoutOptionsAccepts(v: Option<Json>)
    ensures Accepts(FieldRule(RadioAnyString, true), v) <==> v.Some? && v.value.JStr? && |v.value.s| >= 1
  {
  }

  /** A multi field accepts any non-empty array of strings; the options are never consulted. */
  lemma MultiAccepts(v: Option<Json>)
    ensures Accepts(FieldRule(MultiRule, true), v) <==>
              v.Some? && v.value.JArr? && |v.value.items| >= 1 && forall i | 0 <= i < |v.value.items| :: v.value.items[i].JStr?
  {
  }

  /**
   * A field that is not required may be absent; a value that is present must
   * pass the field's rule all the same, so [] is refused, and so is "" unless
   * it is one of a radio field's options.
   */
  lemma OptionalAccepts(rule: Rule, v: Option<Json>)
    ensures Accepts(FieldRule(rule, false), v) <==> v.None? || Accepts(FieldRule(rule, true), v)
    ensures !(rule.RadioOneOf? && "" in rule.options) ==> !Accepts(FieldRule(rule, false), Some(JStr("")))
    ensures !Accepts(FieldRule(rule, false), Some(JArr([])))
  {
  }

  /** The issues of the keys, in order. */
  function CheckAll(schema: Schema, keys: seq<string>, data: map<string, Json>): (r: seq<FieldIssue>)
    requires forall k | k in keys :: k in schema.rules
    ensures r == [] <==> forall i | 0 <= i < |keys| :: Accepts(schema.rules[keys[i]], Lookup(data, keys[i]))
    ensures forall x | x in r :: x.field in keys
    ensures forall f :: (exists x | x in r :: x.field == f) <==> f in keys && !Accepts(schema.rules[f], Lookup(data, f))
  {
    if keys == [] then []
    else
      var k := keys[0];
      AcceptsAnyKey(k, schema.rules[k], Lookup(data, k));
      var here := CheckValue(k, schema.rules[k], Lookup(data, k));
      var rest := CheckAll(schema, keys[1..], data);
      assert forall x | x in rest :: x.field in keys by {
        forall x | x in rest ensures x.field in keys {
          var i :| 0 <= i < |keys[1..]| && keys[1..][i] == x.field;
        }
      }
      IssuesJoin(schema, keys, data, here, rest);
      here + rest
  }

  /** The step of CheckAll: the first key's issues, then the others', name exactly the failing keys. */
  lemma IssuesJoin(schema: Schema, keys: seq<string>, data: map<string, Json>, here: seq<FieldIssue>, rest: seq<FieldIssue>)
    requires keys != [] && forall k | k in keys :: k in schema.rules
    requires forall x | x in here :: x.field == keys[0]
    requires here == [] <==> Accepts(schema.rules[keys[0]], Lookup(data, keys[0]))
    requires forall f :: (exists x | x in rest :: x.field == f) <==> f in keys[1..] && !Accepts(schema.rules[f], Lookup(data, f))
    ensures forall f :: (exists x | x in here + rest :: x.field == f) <==> f in keys && !Accepts(schema.rules[f], Lookup(data, f))
  {
    forall f ensures (exists x | x in here + rest :: x.field == f) <==> f in keys && !Accepts(schema.rules[f], Lookup(data, f)) {
      assert f in keys <==> f == keys[0] || f in keys[1..] by {
        assert keys == [keys[0]] + keys[1..];
      }
      if f == keys[0] && here != [] {
        assert here[0] in here + rest;
      }
    }
  }

  /** The parsed data: the entered values of the schema's keys; other keys are dropped. */
  function Parsed(schema: Schema, data: map<string, Json>): (r: map<string, Json>)
    ensures forall k :: k in r <==> k in data && k in schema.rules
    ensures forall k | k in r :: r[k] == data[k]
  {
    map k | k in data && k in schema.rules :: data[k]
  }

  /** `validationSchema.safeParse(formData)`. */
  function Validate(schema: Schema, data: map<string, Json>): (r: Result<map<string, Json>, seq<FieldIssue>>)
    requires WellFormed(schema)
    ensures r.Success? <==> forall k | k in schema.rules :: Accepts(schema.rules[k], Lookup(data, k))
    ensures r.Success? ==> r.value == Parsed(schema, data)
    ensures r.Failure? ==> r.error != [] && forall x | x in r.error :: x.field in schema.rules
    ensures r.Failure? ==>
      forall f :: (exists x | x in r.error :: x.field == f) <==> f in schema.rules && !Accepts(schema.rules[f], Lookup(data, f))
  {
    var issues := CheckAll(schema, schema.keys, data);
    if issues == [] then Success(Parsed(schema, data))
    else
      assert exists k | k in schema.rules :: !Accepts(schema.rules[k], Lookup(data, k)) by {
        var i :| 0 <= i < |schema.keys| && !Accepts(schema.rules[schema.keys[i]], Lookup(data, schema.keys[i]));
      }
      Failure(issues)
  }

  // ---------------------------------------------------------------------
  // Error messages

  /** The message of the last issue reported on `field`, if any. */
  function LastMessage(issues: seq<FieldIssue>, field: string): Option<Message> {
    if issues == [] then None
    else
      var last := issues[|issues| - 1];
      if last.field == field then Some(last.message) else LastMessage(issues[..|issues| - 1], field)
  }

  /** The issue loop of handleSubmit: each issue writes its message under its field; the last one wins. */
  method BuildErrors(issues: seq<FieldIssue>) returns (errors: map<string, Message>)
    ensures forall k :: k in errors <==> LastMessage(issues, k).Some?
    ensures forall k | k in errors :: errors[k] == LastMessage(issues, k).value
  {
    errors := map[];
    for n := 0 to |issues|
      invariant forall k :: k in errors <==> LastMessage(issues[..n], k).Some?
      invariant forall k | k in errors :: errors[k] == LastMessage(issues[..n], k).value
    {
      assert issues[..n + 1][..n] == issues[..n];
      errors := errors[issues[n].field := issues[n].message];
    }
    assert issues[..|issues|] == issues;
  }

  /** A field has a message exactly when some issue was reported on it. */
  lemma {:induction false} LastMessageFound(issues: seq<FieldIssue>, field: string)
    ensures LastMessage(issues, field).Some? <==> exists x | x in issues :: x.field == field
  {
    if issues != [] {
      var init := issues[..|issues| - 1];
      LastMessageFound(init, field);
      assert issues == init + [issues[|issues| - 1]];
    }
  }

  // ---------------------------------------------------------------------
  // Toggling a multi-select option

  /** The option leaves the selection if it was in it, and is appended otherwise. */
  function Toggle(current: seq<Json>, option: string): (r: seq<Json>)
    ensures JStr(option) in r <==> JStr(option) !in current
    ensures forall x | x != JStr(option) :: x in r <==> x in current
    ensures JStr(option) !in current ==> r == current + [JStr(option)]
    ensures JStr(option) in current ==> multiset(r) == multiset(current)[JStr(option) := 0]
  {
    if JStr(option) in current then
      Lists.WithoutMultiset(current, JStr(option));
      Lists.Without(current, JStr(option))
    else current + [JStr(option)]
  }

  /** Toggling an option that is not selected, twice, gives the selection back. */
  lemma ToggleTwice(current: seq<Json>, option: string)
    requires JStr(option) !in current
    ensures Toggle(Toggle(current, option), option) == current
  {
    Lists.WithoutAppended(current, JStr(option));
  }

  /** `(formData[fieldId] as string[]) || []`. */
  function CurrentSelection(data: map<string, Json>, fieldId: string): seq<Json>
    requires fieldId in data ==> data[fieldId].JArr?
  {
    if fieldId in data then data[fieldId].items else []
  }

  // ---------------------------------------------------------------------
  // Component state

  class Renderer {
    const fields: seq<Field>
    var formData: map<string, Json>
    var errors: map<string, Message>
    var submitting: bool

    /** The schema the component builds from its form's fields. */
    function Schema(): (s: Schema)
      ensures WellFormed(s)
    {
      BuildSchema(fields)
    }

    /** A fresh renderer: no data, no errors, not submitting. */
    constructor (form: Form)
      ensures fields == form.fields
      ensures formData == map[] && errors == map[] && !submitting
    {
      fields := form.fields;
      formData := map[];
      errors := map[];
      submitting := false;
    }

    /**
     * handleSubmit. On failed validation onSubmit is not called (None) and
     * errors holds the last message per field. Otherwise onSubmit receives
     * the parsed data; the data and errors are cleared unless onSubmit
     * throws, which keeps the data; submitting ends false.
     */
    method HandleSubmit(onSubmitThrows: bool) returns (submitted: Option<map<string, Json>>)
      modifies this
      ensures var v := Validate(Schema(), old(formData));
              && (v.Failure? ==>
                    && submitted.None?
                    && (forall k :: k in errors <==> LastMessage(v.error, k).Some?)
                    && (forall k | k in errors :: errors[k] == LastMessage(v.error, k).value)
                    && (forall k :: k in errors <==> k in Schema().rules && !Accepts(Schema().rules[k], Lookup(old(formData), k)))
                    && formData == old(formData)
                    && submitting == old(submitting))
              && (v.Success? ==>
                    && submitted == Some(v.value)
                    && errors == map[]
                    && formData == (if onSubmitThrows then old(formData) else map[])
                    && !submitting)
    {
      errors := map[];
      var result := Validate(Schema(), formData);
      if result.Failure? {
        errors := BuildErrors(result.error);
        forall k ensures LastMessage(result.error, k).Some? <==> exists x | x in result.error :: x.field == k {
          LastMessageFound(result.error, k);
        }
        return None;
      }
      submitting := true;
      submitted := Some(result.value);
      if !onSubmitThrows {
        formData := map[];
        errors := map[];
      }
      submitting := false;
    }

    /** updateField: sets one value and clears that field's error only. */
    method UpdateField(fieldId: string, value: Json)
      modifies this
      ensures formData == old(formData)[fieldId := value]
      ensures errors == old(errors) - {fieldId}
      ensures submitting == old(submitting)
    {
      formData := formData[fieldId := value];
      if fieldId in errors {
        errors := errors - {fieldId};
      }
    }

    /** toggleMultiOption: flips the option's membership in the field's selection. */
    method ToggleMultiOption(fieldId: string, option: string)
      requires fieldId in formData ==> formData[fieldId].JArr?
      modifies this
      ensures formData == old(formData)[fieldId := JArr(Toggle(CurrentSelection(old(formData), fieldId), option))]
      ensures errors == old(errors) - {fieldId}
      ensures submitting == old(submitting)
    {
      var current := CurrentSelection(formData, fieldId);
      UpdateField(fieldId, JArr(Toggle(current, option)));
    }
  }
}
