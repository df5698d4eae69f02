/**
 * The stored data shapes of src/lib/types.ts and the runtime schemas that
 * check them: FieldType, FieldSchema, FormSchema and SubmissionSchema are
 * datatypes here, and each schema's `safeParse` is a parse function from
 * JSON to a Result carrying either the parsed value or the list of issues.
 */
module Types {
  import opened Wrappers

  /** A JSON value. Numbers are integers in this model (epoch milliseconds, counts). */
  datatype Json =
    | JNull
    | JBool(b: bool)
    | JNum(n: int)
    | JStr(s: string)
    | JArr(items: seq<Json>)
    | JObj(props: map<string, Json>)

  datatype FieldType = Text | Radio | Multi

  /** The wire name of a field type. */
  function TypeName(t: FieldType): string {
    match t
    case Text => "text"
    case Radio => "radio"
    case Multi => "multi"
  }

  datatype Field = Field(
    id: string,
    labelText: string,
    fieldType: FieldType,
    required: bool,
    options: Option<seq<string>>,
    placeholder: Option<string>)

  datatype Form = Form(
    id: string,
    title: string,
    description: Option<string>,
    fields: seq<Field>,
    createdAt: int)

  datatype Submission = Submission(formId: string, submittedAt: int, data: map<string, Json>)

  /** A stored submission together with the id it is stored under. */
  datatype SubmissionWithId = SubmissionWithId(id: string, formId: string, submittedAt: int, data: map<string, Json>)

  function WithId(s: Submission, id: string): (r: SubmissionWithId)
    ensures r.id == id && r.formId == s.formId && r.submittedAt == s.submittedAt && r.data == s.data
  {
    SubmissionWithId(id, s.formId, s.submittedAt, s.data)
  }

  /** The message published when a submission is created. */
  datatype SubmissionNotification = SubmissionNotification(
    submissionId: string,
    formId: string,
    formTitle: string,
    submittedAt: int,
    data: map<string, Json>)

  /** What FieldSchema demands of a parsed field: non-empty id and label. */
  predicate ValidField(f: Field) {
    |f.id| >= 1 && |f.labelText| >= 1
  }

  /** What FormSchema demands of a parsed form. */
  predicate ValidForm(f: Form) {
    && |f.id| >= 1
    && |f.title| >= 1
    && |f.fields| >= 1
    && forall i | 0 <= i < |f.fields| :: ValidField(f.fields[i])
  }

  // ---------------------------------------------------------------------
  // Schema checking. Issues carry the path of the offending value and the
  // kind of check that failed; the library's message texts are not modelled.

  datatype PathSegment = Key(name: string) | Index(index: nat)
  type Path = seq<PathSegment>
  datatype IssueCode = InvalidType | TooSmall | InvalidEnumValue
  datatype Issue = Issue(path: Path, code: IssueCode)

  type Parsed<T> = Result<T, seq<Issue>>

  function IssuesOf<T>(r: Parsed<T>): seq<Issue> {
    if r.Failure? then r.error else []
  }

  function Lookup(props: map<string, Json>, k: string): Option<Json> {
    if k in props then Some(props[k]) else None
  }

  /** `z.string().min(minLength)`; an absent value is an invalid type. */
  function ParseString(v: Option<Json>, path: Path, minLength: nat): (r: Parsed<string>)
    ensures r.Success? <==> v.Some? && v.value.JStr? && |v.value.s| >= minLength
    ensures r.Success? ==> r.value == v.value.s
    ensures r.Failure? ==> r.error != []
  {
    match v
    case Some(JStr(s)) =>
      if |s| >= minLength then Success(s) else Failure([Issue(path, TooSmall)])
    case _ => Failure([Issue(path, InvalidType)])
  }

  /** `z.string().optional()`. */
  function ParseOptionalString(v: Option<Json>, path: Path): (r: Parsed<Option<string>>)
    ensures r.Success? <==> v.None? || v.value.JStr?
    ensures r.Success? ==> r.value == (if v.None? then None else Some(v.value.s))
    ensures r.Failure? ==> r.error != []
  {
    match v
    case None => Success(None)
    case Some(JStr(s)) => Success(Some(s))
    case _ => Failure([Issue(path, InvalidType)])
  }

  /** `FieldType`, the enum of the three field kinds. */
  function ParseFieldType(v: Option<Json>, path: Path): (r: Parsed<FieldType>)
    ensures r.Success? <==> v.Some? && v.value.JStr? && v.value.s in {"text", "radio", "multi"}
    ensures r.Success? ==> v.value.s == TypeName(r.value)
    ensures r.Failure? ==> r.error != []
  {
    match v
    case Some(JStr(s)) =>
      if s == "text" then Success(Text)
      else if s == "radio" then Success(Radio)
      else if s == "multi" then Success(Multi)
      else Failure([Issue(path, InvalidEnumValue)])
    case _ => Failure([Issue(path, InvalidType)])
  }

  /** `z.boolean().default(false)`: an absent value becomes false. */
  function ParseRequired(v: Option<Json>, path: Path): (r: Parsed<bool>)
    ensures r.Success? <==> v.None? || v.value.JBool?
    ensures r.Success? ==> r.value == (v.Some? && v.value.b)
    ensures r.Failure? ==> r.error != []
  {
    match v
    case None => Success(false)
    case Some(JBool(b)) => Success(b)
    case _ => Failure([Issue(path, InvalidType)])
  }

  /** The elements of `z.array(z.string())`, from position `from` on. */
  function ParseStrings(items: seq<Json>, path: Path, from: nat): (r: Parsed<seq<string>>)
    ensures r.Success? <==> forall i | 0 <= i < |items| :: items[i].JStr?
    ensures r.Success? ==> |r.value| == |items| && forall i | 0 <= i < |items| :: items[i] == JStr(r.value[i])
    ensures r.Failure? ==> r.error != []
    decreases |items|
  {
    if items == [] then Success([])
    else
      var head := if items[0].JStr? then Success(items[0].s) else Failure([Issue(path + [Index(from)], InvalidType)]);
      var tail := ParseStrings(items[1..], path, from + 1);
      if head.Success? && tail.Success? then Success([head.value] + tail.value)
      else Failure(IssuesOf(head) + IssuesOf(tail))
  }

  /** `z.array(z.string()).optional()`. */
  function ParseOptions(v: Option<Json>, path: Path): (r: Parsed<Option<seq<string>>>)
    ensures r.Success? <==> v.None? || (v.value.JArr? && forall i | 0 <= i < |v.value.items| :: v.value.items[i].JStr?)
    ensures r.Success? && v.None? ==> r.value == None
    ensures r.Success? && v.Some? ==> v.value.JArr? && r.value.Some? && v.value.items == StringsToJson(r.value.value)
    ensures r.Failure? ==> r.error != []
  {
    match v
    case None => Success(None)
    case Some(JArr(items)) =>
      var r := ParseStrings(items, path, 0);
      if r.Success? then
        assert items == StringsToJson(r.value);
        Success(Some(r.value))
      else Failure(r.error)
    case _ => Failure([Issue(path, InvalidType)])
  }

  /** FieldSchema.safeParse. Unknown keys are dropped; a missing `required` becomes false. */
  function ParseField(j: Json, path: Path): (r: Parsed<Field>)
    ensures r.Success? ==> ValidField(r.value) && j.JObj?
    ensures r.Success? ==> Lookup(j.props, "id") == Some(JStr(r.value.id))
    ensures r.Success? ==> Lookup(j.props, "label") == Some(JStr(r.value.labelText))
    ensures r.Success? ==> Lookup(j.props, "type") == Some(JStr(TypeName(r.value.fieldType)))
    ensures r.Success? && "required" !in j.props ==> !r.value.required
    ensures r.Success? && "required" in j.props ==> j.props["required"] == JBool(r.value.required)
    ensures r.Success? ==> (r.value.options.Some? <==> "options" in j.props)
    ensures r.Success? && r.value.options.Some? ==> j.props["options"] == JArr(StringsToJson(r.value.options.value))
    ensures r.Success? ==> (r.value.placeholder.Some? <==> "placeholder" in j.props)
    ensures r.Success? && r.value.placeholder.Some? ==> j.props["placeholder"] == JStr(r.value.placeholder.value)
    ensures r.Failure? ==> r.error != []
  {
    match j
    case JObj(p) =>
      var id := ParseString(Lookup(p, "id"), path + [Key("id")], 1);
      var labelText := ParseString(Lookup(p, "label"), path + [Key("label")], 1);
      var ty := ParseFieldType(Lookup(p, "type"), path + [Key("type")]);
      var req := ParseRequired(Lookup(p, "required"), path + [Key("required")]);
      var opts := ParseOptions(Lookup(p, "options"), path + [Key("options")]);
      var ph := ParseOptionalString(Lookup(p, "placeholder"), path + [Key("placeholder")]);
      if id.Success? && labelText.Success? && ty.Success? && req.Success? && opts.Success? && ph.Success? then
        Success(Field(id.value, labelText.value, ty.value, req.value, opts.value, ph.value))
      else
        Failure(IssuesOf(id) + IssuesOf(labelText) + IssuesOf(ty) + IssuesOf(req) + IssuesOf(opts) + IssuesOf(ph))
    case _ => Failure([Issue(path, InvalidType)])
  }

  /** The elements of `z.array(FieldSchema)`, from position `from` on. */
  function ParseFields(items: seq<Json>, path: Path, from: nat): (r: Parsed<seq<Field>>)
    ensures r.Success? ==> |r.value| == |items| && forall i | 0 <= i < |items| :: ValidField(r.value[i])
    ensures r.Success? ==> AllParsed(ParseField, items, path, from, r.value)
    ensures r.Failure? ==> r.error != []
    decreases |items|
  {
    if items == [] then Success([])
    else
      var head := ParseField(items[0], path + [Index(from)]);
      var tail := ParseFields(items[1..], path, from + 1);
      if head.Success? && tail.Success? then
        var fs := [head.value] + tail.value;
        assert fs[1..] == tail.value;
        Success(fs)
      else Failure(IssuesOf(head) + IssuesOf(tail))
  }

  /** Each of `fs` is what `parse` makes of the matching item, parsed at its own index from `from` on. */
  predicate AllParsed<T(==)>(parse: (Json, Path) -> Parsed<T>, items: seq<Json>, path: Path, from: nat, fs: seq<T>)
    decreases |items|
  {
    && |fs| == |items|
    && (items != [] ==>
          && parse(items[0], path + [Index(from)]) == Success(fs[0])
          && AllParsed(parse, items[1..], path, from + 1, fs[1..]))
  }

  /** FormSchema.safeParse: the parsed form satisfies every rule of the schema. */
  function ParseForm(j: Json): (r: Parsed<Form>)
    ensures r.Success? ==> ValidForm(r.value) && j.JObj?
    ensures r.Success? ==> Lookup(j.props, "id") == Some(JStr(r.value.id))
    ensures r.Success? ==> Lookup(j.props, "title") == Some(JStr(r.value.title))
    ensures r.Success? ==>
      && Lookup(j.props, "fields").Some? && j.props["fields"].JArr?
      && ParseFields(j.props["fields"].items, [Key("fields")], 0) == Success(r.value.fields)
    ensures r.Success? ==> Lookup(j.props, "createdAt") == Some(JNum(r.value.createdAt))
    ensures r.Success? ==> (r.value.description.Some? <==> "description" in j.props)
    ensures r.Success? && r.value.description.Some? ==> j.props["description"] == JStr(r.value.description.value)
    ensures r.Failure? ==> r.error != []
  {
    match j
    case JObj(p) =>
      var id := ParseString(Lookup(p, "id"), [Key("id")], 1);
      var title := ParseString(Lookup(p, "title"), [Key("title")], 1);
      var desc := ParseOptionalString(Lookup(p, "description"), [Key("description")]);
      var fields :=
        match Lookup(p, "fields")
        case Some(JArr(items)) =>
          if |items| < 1 then Failure([Issue([Key("fields")], TooSmall)])
          else ParseFields(items, [Key("fields")], 0)
        case _ => Failure([Issue([Key("fields")], InvalidType)]);
      var createdAt :=
        match Lookup(p, "createdAt")
        case Some(JNum(n)) => Success(n)
        case _ => Failure([Issue([Key("createdAt")], InvalidType)]);
      if id.Success? && title.Success? && desc.Success? && fields.Success? && createdAt.Success? then
        Success(Form(id.value, title.value, desc.value, fields.value, createdAt.value))
      else
        Failure(IssuesOf(id) + IssuesOf(title) + IssuesOf(desc) + IssuesOf(fields) + IssuesOf(createdAt))
    case _ => Failure([Issue([], InvalidType)])
  }

  /** SubmissionSchema.safeParse: any string form id, a number, and a record of data. */
  function ParseSubmission(j: Json): (r: Parsed<Submission>)
    ensures r.Success? <==>
      && j.JObj?
      && Lookup(j.props, "formId").Some? && j.props["formId"].JStr?
      && Lookup(j.props, "submittedAt").Some? && j.props["submittedAt"].JNum?
      && Lookup(j.props, "data").Some? && j.props["data"].JObj?
    ensures r.Success? ==> r.value == Submission(j.props["formId"].s, j.props["submittedAt"].n, j.props["data"].props)
  {
    match j
    case JObj(p) =>
      var formId := ParseString(Lookup(p, "formId"), [Key("formId")], 0);
      var submittedAt :=
        match Lookup(p, "submittedAt")
        case Some(JNum(n)) => Success(n)
        case _ => Failure([Issue([Key("submittedAt")], InvalidType)]);
      var data :=
        match Lookup(p, "data")
        case Some(JObj(d)) => Success(d)
        case _ => Failure([Issue([Key("data")], InvalidType)]);
      if formId.Success? && submittedAt.Success? && data.Success? then
        Success(Submission(formId.value, submittedAt.value, data.value))
      else
        Failure(IssuesOf(formId) + IssuesOf(submittedAt) + IssuesOf(data))
    case _ => Failure([Issue([], InvalidType)])
  }

  // ---------------------------------------------------------------------
  // Serialisation, the partner of parsing: the JSON a stored value travels as.

  function StringsToJson(xs: seq<string>): (r: seq<Json>)
    ensures |r| == |xs| && forall i | 0 <= i < |xs| :: r[i] == JStr(xs[i])
  {
    if xs == [] then [] else [JStr(xs[0])] + StringsToJson(xs[1..])
  }

  /** `m` with key `k` set when the optional value is present; JSON drops absent keys. */
  function WithOptional(m: map<string, Json>, k: string, v: Option<Json>): (r: map<string, Json>)
    ensures v.None? ==> r == m
    ensures v.Some? ==> r == m[k := v.value]
  {
    if v.Some? then m[k := v.value] else m
  }

  /** `JSON.stringify` of a field: each property under its key, an absent optional one left out. */
  function FieldToJson(f: Field): (r: Json)
    ensures r.JObj?
    ensures Lookup(r.props, "id") == Some(JStr(f.id)) && Lookup(r.props, "label") == Some(JStr(f.labelText))
    ensures Lookup(r.props, "type") == Some(JStr(TypeName(f.fieldType)))
    ensures Lookup(r.props, "required") == Some(JBool(f.required))
    ensures f.options.None? <==> Lookup(r.props, "options") == None
    ensures f.options.Some? ==> Lookup(r.props, "options") == Some(JArr(StringsToJson(f.options.value)))
    ensures f.placeholder.None? <==> Lookup(r.props, "placeholder") == None
    ensures f.placeholder.Some? ==> Lookup(r.props, "placeholder") == Some(JStr(f.placeholder.value))
    ensures r.props.Keys <= {"id", "label", "type", "required", "options", "placeholder"}
  {
    var base := map["id" := JStr(f.id), "label" := JStr(f.labelText), "type" := JStr(TypeName(f.fieldType)),
                    "required" := JBool(f.required)];
    var withOptions := WithOptional(base, "options", if f.options.Some? then Some(JArr(StringsToJson(f.options.value))) else None);
    JObj(WithOptional(withOptions, "placeholder", if f.placeholder.Some? then Some(JStr(f.placeholder.value)) else None))
  }

  function FieldsToJson(fs: seq<Field>): (r: seq<Json>)
    ensures |r| == |fs| && forall i | 0 <= i < |fs| :: r[i] == FieldToJson(fs[i])
  {
    seq(|fs|, i requires 0 <= i < |fs| => FieldToJson(fs[i]))
  }

  /** `JSON.stringify` of a form: each property under its key, an absent description left out. */
  function FormToJson(f: Form): (r: Json)
    ensures r.JObj?
    ensures Lookup(r.props, "id") == Some(JStr(f.id)) && Lookup(r.props, "title") == Some(JStr(f.title))
    ensures Lookup(r.props, "fields") == Some(JArr(FieldsToJson(f.fields)))
    ensures Lookup(r.props, "createdAt") == Some(JNum(f.createdAt))
    ensures f.description.None? <==> Lookup(r.props, "description") == None
    ensures f.description.Some? ==> Lookup(r.props, "description") == Some(JStr(f.description.value))
    ensures r.props.Keys <= {"id", "title", "fields", "createdAt", "description"}
  {
    var base := map["id" := JStr(f.id), "title" := JStr(f.title), "fields" := JArr(FieldsToJson(f.fields)),
                    "createdAt" := JNum(f.createdAt)];
    JObj(WithOptional(base, "description", if f.description.Some? then Some(JStr(f.description.value)) else None))
  }

  lemma {:induction false} StringsRoundTrip(xs: seq<string>, path: Path, from: nat)
    ensures ParseStrings(StringsToJson(xs), path, from) == Success(xs)
    decreases |xs|
  {
    if xs != [] {
      assert StringsToJson(xs)[1..] == StringsToJson(xs[1..]);
      StringsRoundTrip(xs[1..], path, from + 1);
      assert [xs[0]] + xs[1..] == xs;
    }
  }

  /** A valid field survives serialisation and re-parsing unchanged. */
  lemma FieldRoundTrip(f: Field, path: Path)
    requires ValidField(f)
    ensures ParseField(FieldToJson(f), path) == Success(f)
  {
    var p := FieldToJson(f).props;
    assert ParseString(Lookup(p, "id"), path + [Key("id")], 1) == Success(f.id);
    assert ParseString(Lookup(p, "label"), path + [Key("label")], 1) == Success(f.labelText);
    assert ParseFieldType(Lookup(p, "type"), path + [Key("type")]) == Success(f.fieldType) by {
      match f.fieldType
      case Text =>
      case Radio =>
      case Multi =>
    }
    assert ParseRequired(Lookup(p, "required"), path + [Key("required")]) == Success(f.required);
    assert ParseOptions(Lookup(p, "options"), path + [Key("options")]) == Success(f.options) by {
      if f.options.Some? {
        StringsRoundTrip(f.options.value, path + [Key("options")], 0);
      }
    }
    assert ParseOptionalString(Lookup(p, "placeholder"), path + [Key("placeholder")]) == Success(f.placeholder);
  }

  lemma {:induction false} FieldsRoundTrip(fs: seq<Field>, path: Path, from: nat)
    requires forall i | 0 <= i < |fs| :: ValidField(fs[i])
    ensures ParseFields(FieldsToJson(fs), path, from) == Success(fs)
    decreases |fs|
  {
    if fs != [] {
      var items := FieldsToJson(fs);
      assert items[0] == FieldToJson(fs[0]) && items[1..] == FieldsToJson(fs[1..]);
      FieldRoundTrip(fs[0], path + [Index(from)]);
      FieldsRoundTrip(fs[1..], path, from + 1);
      assert ParseFields(items, path, from) == Success([fs[0]] + fs[1..]);
      assert [fs[0]] + fs[1..] == fs;
    }
  }

  /** A valid form survives serialisation and re-parsing unchanged. */
  lemma FormRoundTrip(f: Form)
    requires ValidForm(f)
    ensures ParseForm(FormToJson(f)) == Success(f)
  {
    var p := FormToJson(f).props;
    assert Lookup(p, "id") == Some(JStr(f.id));
    assert Lookup(p, "title") == Some(JStr(f.title));
    assert Lookup(p, "fields") == Some(JArr(FieldsToJson(f.fields)));
    assert Lookup(p, "createdAt") == Some(JNum(f.createdAt));
    if f.description.Some? {
      assert Lookup(p, "description") == Some(JStr(f.description.value));
    } else {
      assert Lookup(p, "description") == None;
    }
    FieldsRoundTrip(f.fields, [Key("fields")], 0);
  }

  /** A field whose JSON the schema accepts is itself valid. */
  lemma AcceptedFieldIsValid(f: Field, j: Json, path: Path)
    requires j == FieldToJson(f) && ParseField(j, path).Success?
    ensures ValidField(f)
  {
    var p := j.props;
    assert p["id"] == JStr(f.id) && p["label"] == JStr(f.labelText);
  }

  /** A form whose JSON the schema accepts is itself valid. */
  lemma AcceptedFormIsValid(f: Form)
    requires ParseForm(FormToJson(f)).Success?
    ensures ValidForm(f)
  {
    var p := FormToJson(f).props;
    var parsed := ParseForm(FormToJson(f)).value;
    assert p["id"] == JStr(f.id) && p["title"] == JStr(f.title);
    var items := FieldsToJson(f.fields);
    assert p["fields"] == JArr(items);
    AcceptedFieldsAreValid(f.fields, [Key("fields")], 0, parsed.fields);
  }

  /** Fields whose JSON array the schema accepts are each valid. */
  lemma {:induction false} AcceptedFieldsAreValid(fs: seq<Field>, path: Path, from: nat, parsed: seq<Field>)
    requires AllParsed(ParseField, FieldsToJson(fs), path, from, parsed)
    ensures forall i | 0 <= i < |fs| :: ValidField(fs[i])
    decreases |fs|
  {
    if fs != [] {
      var items := FieldsToJson(fs);
      assert items[0] == FieldToJson(fs[0]) && items[1..] == FieldsToJson(fs[1..]);
      AcceptedFieldIsValid(fs[0], items[0], path + [Index(from)]);
      AcceptedFieldsAreValid(fs[1..], path, from + 1, parsed[1..]);
      forall i | 1 <= i < |fs| ensures ValidField(fs[i]) {
        assert fs[i] == fs[1..][i - 1];
      }
    }
  }

  /** The form schema accepts a form's own JSON exactly when the form is valid. */
  lemma FormSchemaAcceptsExactlyValid(f: Form)
    ensures ParseForm(FormToJson(f)).Success? <==> ValidForm(f)
  {
    if ValidForm(f) {
      FormRoundTrip(f);
    } else if ParseForm(FormToJson(f)).Success? {
      AcceptedFormIsValid(f);
    }
  }

  /** The schema does not demand options of a radio or multi field. */
  lemma OptionsNotRequired(t: FieldType)
    ensures ParseField(JObj(map["id" := JStr("q"), "label" := JStr("Q"), "type" := JStr(TypeName(t))]), [])
         == Success(Field("q", "Q", t, false, None, None))
  {
  }
}
