/**
 * The create-form endpoint: parse the request body against the form
 * schema, store the parsed form, and answer 200, 400 or 500. Failures of
 * the request body or of the store are parameters.
 */
module CreateRoute {
  import opened Wrappers
  import opened Types
  import Redis

  /** Where the request can fail outside the handler's own logic. */
  datatype Fault =
    | NoFault
    | RecordWriteFails   // the `set` of the form record throws
    | IdWriteFails       // the record is written, the `sadd` of its id throws

  /** The JSON answer: status, `success`, and the `data`, `error` and `details` keys it carries. */
  datatype Response = Response(
    status: int,
    success: bool,
    data: Option<Form>,
    error: Option<string>,
    details: Option<seq<Issue>>)

  /** The store writes the handler makes. */
  datatype Writes = NoWrites | RecordOnly(form: Form) | RecordAndId(form: Form)

  const ValidationFailed := "Validation failed"
  const FailedToCreate := "Failed to create form"

  /**
   * The handler's answer. `body` is None when the request body is not JSON.
   * The generic 500 answer never carries the internal error.
   */
  function Respond(body: Option<Json>, fault: Fault): (r: Response)
    ensures body.None? ==> r == Response(500, false, None, Some(FailedToCreate), None)
    ensures body.Some? && ParseForm(body.value).Failure? ==>
              r == Response(400, false, None, Some(ValidationFailed), Some(ParseForm(body.value).error))
    ensures body.Some? && ParseForm(body.value).Success? && fault == NoFault ==>
              r == Response(200, true, Some(ParseForm(body.value).value), None, None)
    ensures body.Some? && ParseForm(body.value).Success? && fault != NoFault ==>
              r == Response(500, false, None, Some(FailedToCreate), None)
    ensures r.success <==> r.status == 200
    ensures r.success ==> r.data.Some? && ValidForm(r.data.value)
  {
    if body.None? then Response(500, false, None, Some(FailedToCreate), None)
    else
      match ParseForm(body.value)
      case Failure(issues) => Response(400, false, None, Some(ValidationFailed), Some(issues))
      case Success(form) =>
        if fault == NoFault then Response(200, true, Some(form), None, None)
        else Response(500, false, None, Some(FailedToCreate), None)
  }

  /** What reaches the store: nothing unless the body parses, then the record and, if that worked, the id. */
  function StoreWrites(body: Option<Json>, fault: Fault): (w: Writes)
    ensures body.None? || ParseForm(body.value).Failure? || fault == RecordWriteFails <==> w == NoWrites
    ensures w.RecordOnly? <==> body.Some? && ParseForm(body.value).Success? && fault == IdWriteFails
    ensures !w.NoWrites? ==> w.form == ParseForm(body.value).value
  {
    if body.None? then NoWrites
    else
      match ParseForm(body.value)
      case Failure(_) => NoWrites
      case Success(form) =>
        match fault
        case NoFault => RecordAndId(form)
        case RecordWriteFails => NoWrites
        case IdWriteFails => RecordOnly(form)
  }

  /** POST: the response, and exactly the writes `StoreWrites` lists. */
  method Post(store: Redis.Store, body: Option<Json>, fault: Fault) returns (r: Response)
    requires store.Valid()
    modifies store
    ensures store.Valid()
    ensures r == Respond(body, fault)
    ensures StoreWrites(body, fault).NoWrites? ==>
              store.forms == old(store.forms) && store.formIds == old(store.formIds)
    ensures StoreWrites(body, fault).RecordOnly? ==>
              var f := StoreWrites(body, fault).form;
              store.forms == old(store.forms)[f.id := f] && store.formIds == old(store.formIds)
    ensures StoreWrites(body, fault).RecordAndId? ==>
              var f := StoreWrites(body, fault).form;
              store.forms == old(store.forms)[f.id := f] && store.formIds == old(store.formIds) + {f.id}
    ensures store.submissions == old(store.submissions) && store.indexes == old(store.indexes)
  {
    r := Respond(body, fault);
    var w := StoreWrites(body, fault);
    match w
    case NoWrites =>
    case RecordOnly(f) => store.UpdateForm(f);
    case RecordAndId(f) => store.CreateForm(f);
  }

  /**
   * A valid form sent as JSON is accepted and echoed back unchanged, and the
   * store gets exactly that record; an earlier form with the same id is
   * overwritten, not refused.
   */
  lemma ValidFormIsCreated(f: Form)
    requires ValidForm(f)
    ensures Respond(Some(FormToJson(f)), NoFault) == Response(200, true, Some(f), None, None)
    ensures StoreWrites(Some(FormToJson(f)), NoFault) == RecordAndId(f)
  {
    FormRoundTrip(f);
  }

  /** Whatever the store held, a body the schema refuses changes nothing and gets 400. */
  lemma InvalidFormIsRefused(f: Form)
    requires !ValidForm(f)
    ensures Respond(Some(FormToJson(f)), NoFault).status == 400
    ensures StoreWrites(Some(FormToJson(f)), NoFault) == NoWrites
  {
    FormSchemaAcceptsExactlyValid(f);
  }
}
