/** The first expense worker (`worker.py`): it stores every message it can
    validate, with whatever expense fields the language model extracted,
    and publishes a confirmation only when an amount was found. */
module LegacyWorker {
  import opened Optional
  import opened PyStr
  import opened Json
  import opened Store
  import opened Bus

  /** The two steps before the `try` of `parse_expense_with_llm`:
      `genai.get_model("models/gemini-pro")` raised or returned something
      falsy; or it returned a model and `genai.GenerativeModel('gemini-pro')`
      then raised or built the model. */
  datatype ModelLookup = LookupRaises | LookupEmpty | BuildRaises | LookupFound

  /** The model call (or reading its text) raised with a message, or the
      model answered with some text. */
  datatype ModelAnswer = CallFailed(error: string) | Answered(text: string)

  const NotConfiguredError: string := "LLM not configured"

  /** The keys of every result `parse_expense_with_llm` returns. */
  const ParsedKeys: set<string> := {"amount", "currency", "category", "meta_json"}

  /** `{"amount": None, "currency": None, "category": None,
      "meta_json": json.dumps({"error": message})}`. */
  function Failed(message: string, dumps: Value -> string): (p: map<string, Value>)
    ensures p.Keys == ParsedKeys
    ensures p["amount"] == Null && p["currency"] == Null && p["category"] == Null
    ensures p["meta_json"] == Str(dumps(Obj(map["error" := Str(message)])))
  {
    map["amount" := Null, "currency" := Null, "category" := Null,
        "meta_json" := Str(dumps(Obj(map["error" := Str(message)])))]
  }

  /** The message of the `AttributeError` raised by `.get` on a decoded value
      that is not an object. */
  function NoGetMessage(v: Value): string {
    "'" + TypeName(v) + "' object has no attribute 'get'"
  }

  /** The four normalised keys read from a decoded object; a missing
      `meta_json` is serialised as `{}`. */
  function Normalise(p: map<string, Value>, dumps: Value -> string): (n: map<string, Value>)
    ensures n.Keys == ParsedKeys
    ensures n["amount"] == Get(p, "amount") && n["currency"] == Get(p, "currency")
    ensures n["category"] == Get(p, "category")
    ensures n["meta_json"] == Str(dumps(GetOr(p, "meta_json", Obj(map[]))))
  {
    map["amount" := Get(p, "amount"), "currency" := Get(p, "currency"),
        "category" := Get(p, "category"),
        "meta_json" := Str(dumps(GetOr(p, "meta_json", Obj(map[]))))]
  }

  /** `parse_expense_with_llm`: `None` when the model lookup or the model
      construction raises (both sit outside the `try`), otherwise a result
      with exactly the four keys. */
  function ParseExpense(lookup: ModelLookup, answer: ModelAnswer,
                        loads: string -> Decoded, dumps: Value -> string): (r: Option<map<string, Value>>)
    ensures r.None? <==> lookup.LookupRaises? || lookup.BuildRaises?
    ensures r.Some? ==> r.value.Keys == ParsedKeys && r.value["meta_json"].Str?
    ensures lookup.LookupEmpty? ==> r == Some(Failed(NotConfiguredError, dumps))
    ensures lookup.LookupFound? && answer.CallFailed? ==> r == Some(Failed(answer.error, dumps))
    ensures lookup.LookupFound? && answer.Answered? ==>
      match loads(BraceSpan(Strip(answer.text)))
      case DecodeError(m) => r == Some(Failed(m, dumps))
      case Decoded(v) =>
        if v.Obj? then
          && r.value["amount"] == Get(v.fields, "amount")
          && r.value["currency"] == Get(v.fields, "currency")
          && r.value["category"] == Get(v.fields, "category")
          && r.value["meta_json"] == Str(dumps(GetOr(v.fields, "meta_json", Obj(map[]))))
        else r == Some(Failed(NoGetMessage(v), dumps))
  {
    match lookup
    case LookupRaises => None
    case BuildRaises => None
    case LookupEmpty => Some(Failed(NotConfiguredError, dumps))
    case LookupFound =>
      match answer
      case CallFailed(e) => Some(Failed(e, dumps))
      case Answered(text) =>
        match loads(BraceSpan(Strip(text)))
        case DecodeError(m) => Some(Failed(m, dumps))
        case Decoded(v) =>
          if v.Obj? then Some(Normalise(v.fields, dumps))
          else Some(Failed(NoGetMessage(v), dumps))
  }

  /** The row `process_message` builds from the fields and the parse result. */
  function ExpenseRow(f: map<string, string>, p: map<string, Value>): Option<Row> {
    RowFromFields(f, Get(p, "amount"), Get(p, "currency"), Get(p, "category"), Get(p, "meta_json"))
  }

  /** What `process_message` does once the parse result is known: upsert the
      row, then confirm when an amount was found. A raising parse or a
      message that fails validation does nothing. */
  function Respond(f: map<string, string>, parsed: Option<map<string, Value>>): (effects: seq<Effect>)
    ensures |effects| <= 2
    ensures |effects| > 0 <==> parsed.Some? && ExpenseRow(f, parsed.value).Some?
    ensures |effects| > 0 ==> effects[0] == Upserted(ExpenseRow(f, parsed.value).value)
    ensures |effects| == 2 <==> |effects| > 0 && Get(parsed.value, "amount") != Null
    ensures |effects| == 2 ==>
      effects[1] == Published(ConfirmationsChannel, Confirmation(f["chat_id"], f["wid"], None))
    ensures forall i :: 0 <= i < |effects| ==> !effects[i].Acked?
  {
    match parsed
    case None => []
    case Some(p) =>
      match ExpenseRow(f, p)
      case None => []
      case Some(row) =>
        [Upserted(row)]
        + (if Get(p, "amount") != Null
           then [Published(ConfirmationsChannel, Confirmation(row.chatId, row.wid, None))]
           else [])
  }

  /** `process_message`: the body (empty when absent) goes to the model. */
  function ProcessMessage(f: map<string, string>, lookup: ModelLookup, model: string -> ModelAnswer,
                          loads: string -> Decoded, dumps: Value -> string): seq<Effect>
  {
    Respond(f, ParseExpense(lookup, model(if "body" in f then f["body"] else ""), loads, dumps))
  }

  /** A parse result this worker can produce: the four keys, an amount that
      is absent or a number, text fields absent or strings. */
  predicate WellFormed(p: map<string, Value>) {
    && p.Keys == ParsedKeys
    && ExpenseColumnsConform(p["amount"], p["currency"], p["category"], p["meta_json"])
  }

  /** Every message with complete fields and an integer timestamp is stored,
      whether or not an amount was found, and its `wid` is then in the
      table. */
  lemma EveryValidMessageStored(t: Table, f: map<string, string>, p: map<string, Value>)
    requires HasMessageFields(f) && PyInt.ParseInt(f["timestamp"]).Some?
    requires WellFormed(p)
    ensures ExpenseRow(f, p).Some?
    ensures Apply(t, Respond(f, Some(p))) == Upsert(t, ExpenseRow(f, p).value)
    ensures f["wid"] in Apply(t, Respond(f, Some(p)))
  {
    assert ExpenseRow(f, p).Some?;
    var row := ExpenseRow(f, p).value;
    RespondStoresFirst(f, p);
    UpsertFirstOnly(t, row, Respond(f, Some(p)));
  }

  /** A validated message is upserted first and nothing after it stores. */
  lemma RespondStoresFirst(f: map<string, string>, p: map<string, Value>)
    requires ExpenseRow(f, p).Some?
    ensures var effects := Respond(f, Some(p));
      && |effects| > 0 && effects[0] == Upserted(ExpenseRow(f, p).value)
      && forall i :: 1 <= i < |effects| ==> !effects[i].Upserted?
  {
  }

  /** A stub result (the model lookup found nothing) still stores the
      message, with no expense fields, and confirms nothing. */
  lemma StubStoresWithoutConfirming(f: map<string, string>, dumps: Value -> string)
    requires HasMessageFields(f) && PyInt.ParseInt(f["timestamp"]).Some?
    ensures var effects := Respond(f, Some(Failed(NotConfiguredError, dumps)));
      && |effects| == 1
      && effects[0].Upserted?
      && effects[0].row.wid == f["wid"]
      && effects[0].row.amount == Null
  {
    var p := Failed(NotConfiguredError, dumps);
    assert Get(p, "amount") == Null;
    assert WellFormed(p);
  }

  /** A confirmation is published exactly when an amount was found, and then
      only after the upsert of the same message. */
  lemma ConfirmsOnlyAfterUpsert(f: map<string, string>, p: map<string, Value>, i: nat)
    requires i < |Respond(f, Some(p))| && Respond(f, Some(p))[i].Published?
    ensures Get(p, "amount") != Null
    ensures i == 1 && Respond(f, Some(p))[0].Upserted?
    ensures Respond(f, Some(p))[0].row.wid == Respond(f, Some(p))[i].payload.originalWid
  {
  }

  /** After one processed message the count grows by one exactly when the
      `wid` is new, and the last timestamp is at least the message's. */
  lemma StatsAfterProcessing(t: Table, f: map<string, string>, p: map<string, Value>)
    requires HasMessageFields(f) && PyInt.ParseInt(f["timestamp"]).Some?
    requires WellFormed(p)
    ensures var u := Apply(t, Respond(f, Some(p)));
      && Summary(u).messageCount == (if f["wid"] in t then |t| else |t| + 1)
      && Summary(u).lastMessageTs.Some?
      && PyInt.ParseInt(f["timestamp"]).value <= Summary(u).lastMessageTs.value
  {
    EveryValidMessageStored(t, f, p);
    SummaryAfterUpsert(t, ExpenseRow(f, p).value);
  }

  /** One pass of the consumer loop: the pending entries (read with `'0'`)
      are drained before the new ones (read with `'>'`). */
  function ConsumerIteration(pending: seq<StreamBatch>, incoming: seq<StreamBatch>,
                             lookup: ModelLookup, model: string -> ModelAnswer,
                             loads: string -> Decoded, dumps: Value -> string): seq<Effect>
  {
    var process := f => ProcessMessage(f, lookup, model, loads, dumps);
    DrainAll(pending, process) + DrainAll(incoming, process)
  }

  /** Every pending entry is acknowledged before every new one, each exactly
      once, in the order read. */
  lemma ConsumerIterationAcks(pending: seq<StreamBatch>, incoming: seq<StreamBatch>,
                              lookup: ModelLookup, model: string -> ModelAnswer,
                              loads: string -> Decoded, dumps: Value -> string)
    ensures Acks(ConsumerIteration(pending, incoming, lookup, model, loads, dumps))
      == AllIds(pending) + AllIds(incoming)
  {
    var process := f => ProcessMessage(f, lookup, model, loads, dumps);
    forall f
      ensures Acks(process(f)) == []
    {
      NoAcks(process(f));
    }
    DrainAllAcks(pending, process);
    DrainAllAcks(incoming, process);
    AcksConcat(DrainAll(pending, process), DrainAll(incoming, process));
  }
}
