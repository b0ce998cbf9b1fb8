/** The conversational expense worker (`worker/worker.py`): it asks the
    language model for a reply and optional expense data, always publishes
    the reply, and stores the message only when the model found an amount. */
module LlmWorker {
  import opened Optional
  import opened PyStr
  import opened Json
  import opened Store
  import opened Bus

  /** What became of the model for one message: its construction raised, the
      call (or reading its text) raised, or it answered with some text. */
  datatype ModelAnswer = InitFailed | CallFailed | Answered(text: string)

  const NotConfiguredReply: string := "Error: El servicio de IA no está configurado."
  const InitFailedReply: string := "Error: No se pudo iniciar el modelo de IA."
  const FallbackReply: string := "Lo siento, no entendí eso. ¿Puedes intentarlo de nuevo?"
  const MissingReply: string := "No pude procesar tu mensaje."

  /** `{"reply_message": reply, "expense_data": None}`. */
  function Canned(reply: string): Value {
    Obj(map["reply_message" := Str(reply), "expense_data" := Null])
  }

  /** `if not GOOGLE_API_KEY`: unset or empty. */
  predicate Configured(apiKey: Option<string>) {
    apiKey.Some? && apiKey.value != ""
  }

  /** `parse_expense_with_llm`: the decoded answer when the model answered
      with parseable JSON, one of three canned replies otherwise. */
  function ParseExpense(apiKey: Option<string>, answer: ModelAnswer, loads: string -> Decoded): (r: Value)
    ensures !Configured(apiKey) ==> r == Canned(NotConfiguredReply)
    ensures Configured(apiKey) && answer.InitFailed? ==> r == Canned(InitFailedReply)
    ensures Configured(apiKey) && answer.CallFailed? ==> r == Canned(FallbackReply)
    ensures Configured(apiKey) && answer.Answered? ==>
      match loads(BraceSpan(Strip(answer.text)))
      case Decoded(v) => r == v
      case DecodeError(_) => r == Canned(FallbackReply)
  {
    if !Configured(apiKey) then Canned(NotConfiguredReply)
    else
      match answer
      case InitFailed => Canned(InitFailedReply)
      case CallFailed => Canned(FallbackReply)
      case Answered(text) =>
        match loads(BraceSpan(Strip(text)))
        case Decoded(v) => v
        case DecodeError(_) => Canned(FallbackReply)
  }

  /** Without an API key the model is never consulted: the reply does not
      depend on what the model would have answered. */
  lemma UnconfiguredIgnoresModel(apiKey: Option<string>, a1: ModelAnswer, a2: ModelAnswer, loads: string -> Decoded)
    requires !Configured(apiKey)
    ensures ParseExpense(apiKey, a1, loads) == ParseExpense(apiKey, a2, loads)
    ensures ParseExpense(apiKey, a1, loads).Obj?
    ensures Get(ParseExpense(apiKey, a1, loads).fields, "expense_data") == Null
  {
  }

  /** Every failure path carries no expense data. */
  lemma FailuresCarryNoExpense(apiKey: Option<string>, answer: ModelAnswer, loads: string -> Decoded)
    requires !Configured(apiKey) || !answer.Answered? || loads(BraceSpan(Strip(answer.text))).DecodeError?
    ensures ParseExpense(apiKey, answer, loads).Obj?
    ensures Get(ParseExpense(apiKey, answer, loads).fields, "expense_data") == Null
  {
  }

  /** `expense_data and expense_data.get('amount') is not None`. A truthy
      value that is not an object makes `.get` raise, which the handler
      swallows with the same outcome: no row. */
  predicate RecordsExpense(expense: Value) {
    expense.Obj? && |expense.fields| > 0 && Get(expense.fields, "amount") != Null
  }

  /** The row `process_message` would upsert for this expense data. */
  function ExpenseRow(f: map<string, string>, expense: Value): Option<Row>
    requires expense.Obj?
  {
    var e := expense.fields;
    RowFromFields(f, Get(e, "amount"), Get(e, "currency"), Get(e, "category"), Get(e, "meta_json"))
  }

  /** What `process_message` does once the model's result is known:
      publish the reply first, then upsert when the model found an amount.
      A result that is not an object, or a missing `chat_id`/`wid`, raises
      before anything is published. */
  function Respond(f: map<string, string>, result: Value): (effects: seq<Effect>)
    ensures |effects| <= 2
    ensures |effects| > 0 <==> result.Obj? && "chat_id" in f && "wid" in f
    ensures |effects| > 0 ==>
      && effects[0].Published?
      && effects[0].channel == ConfirmationsChannel
      && effects[0].payload.chatId == f["chat_id"]
      && effects[0].payload.originalWid == f["wid"]
      && effects[0].payload.reply == Some(GetOr(result.fields, "reply_message", Str(MissingReply)))
    ensures |effects| == 2 ==> effects[1].Upserted? && effects[1].row.wid == f["wid"]
    ensures forall i :: 0 <= i < |effects| ==> !effects[i].Acked?
  {
    if !result.Obj? || "chat_id" !in f || "wid" !in f then []
    else
      var reply := GetOr(result.fields, "reply_message", Str(MissingReply));
      var expense := Get(result.fields, "expense_data");
      var confirm := Published(ConfirmationsChannel, Confirmation(f["chat_id"], f["wid"], Some(reply)));
      if RecordsExpense(expense) then
        match ExpenseRow(f, expense)
        case Some(row) => [confirm, Upserted(row)]
        case None => [confirm]
      else [confirm]
  }

  /** `process_message`: the body (empty when absent) goes to the model,
      and the result is answered and maybe stored. */
  function ProcessMessage(f: map<string, string>, apiKey: Option<string>,
                          model: string -> ModelAnswer, loads: string -> Decoded): seq<Effect>
  {
    Respond(f, ParseExpense(apiKey, model(if "body" in f then f["body"] else ""), loads))
  }

  /** A row is stored exactly when the model found an amount and the
      message has every field the row needs; otherwise the table is left
      as it was. */
  lemma StoresOnlyExpenses(t: Table, f: map<string, string>, result: Value)
    requires "chat_id" in f && "wid" in f && result.Obj?
    ensures var expense := Get(result.fields, "expense_data");
      var effects := Respond(f, result);
      && (|effects| == 2 <==> RecordsExpense(expense) && ExpenseRow(f, expense).Some?)
      && (|effects| == 2 ==> Apply(t, effects) == Upsert(t, ExpenseRow(f, expense).value))
      && (|effects| == 1 ==> Apply(t, effects) == t)
  {
    var expense := Get(result.fields, "expense_data");
    var effects := Respond(f, result);
    if RecordsExpense(expense) && ExpenseRow(f, expense).Some? {
      var row := ExpenseRow(f, expense).value;
      assert effects == [effects[0], Upserted(row)];
      PublishThenUpsert(t, effects[0], row);
    } else {
      assert effects == [effects[0]];
      ApplyWithoutUpserts(t, effects);
    }
  }

  lemma PublishThenUpsert(t: Table, e: Effect, row: Row)
    requires e.Published?
    ensures Apply(t, [e, Upserted(row)]) == Upsert(t, row)
  {
    var effects := [e, Upserted(row)];
    assert effects[1..] == [Upserted(row)];
    assert Apply(t, effects) == Apply(t, [Upserted(row)]);
    assert [Upserted(row)][1..] == [];
    assert Apply(t, [Upserted(row)]) == Apply(Upsert(t, row), []);
  }

  /** A canned result is answered with its own reply and stores nothing. */
  lemma RespondToCanned(t: Table, f: map<string, string>, reply: string)
    requires "chat_id" in f && "wid" in f
    ensures Respond(f, Canned(reply)) ==
      [Published(ConfirmationsChannel, Confirmation(f["chat_id"], f["wid"], Some(Str(reply))))]
    ensures Apply(t, Respond(f, Canned(reply))) == t
  {
    var fields := Canned(reply).fields;
    assert GetOr(fields, "reply_message", Str(MissingReply)) == Str(reply);
    assert Get(fields, "expense_data") == Null;
    var effects := Respond(f, Canned(reply));
    assert |effects| == 1;
    ApplyWithoutUpserts(t, effects);
  }

  /** Without an API key every message is answered with the fixed error
      reply and nothing is ever stored. */
  lemma UnconfiguredNeverStores(t: Table, f: map<string, string>, apiKey: Option<string>,
                                model: string -> ModelAnswer, loads: string -> Decoded)
    requires !Configured(apiKey)
    requires "chat_id" in f && "wid" in f
    ensures ProcessMessage(f, apiKey, model, loads) ==
      [Published(ConfirmationsChannel, Confirmation(f["chat_id"], f["wid"], Some(Str(NotConfiguredReply))))]
    ensures Apply(t, ProcessMessage(f, apiKey, model, loads)) == t
  {
    RespondToCanned(t, f, NotConfiguredReply);
  }

  /** An answer with no JSON in it is answered with the fallback reply and
      stores nothing. */
  lemma UnparseableAnswer(t: Table, f: map<string, string>, apiKey: Option<string>,
                          text: string, loads: string -> Decoded)
    requires Configured(apiKey)
    requires "chat_id" in f && "wid" in f
    requires loads(BraceSpan(Strip(text))).DecodeError?
    ensures Respond(f, ParseExpense(apiKey, Answered(text), loads)) ==
      [Published(ConfirmationsChannel, Confirmation(f["chat_id"], f["wid"], Some(Str(FallbackReply))))]
    ensures Apply(t, Respond(f, ParseExpense(apiKey, Answered(text), loads))) == t
  {
    assert ParseExpense(apiKey, Answered(text), loads) == Canned(FallbackReply);
    RespondToCanned(t, f, FallbackReply);
  }

  /** One pass of the consumer loop: the entries read with `'>'`, each
      processed and then acknowledged. */
  function ConsumeOnce(response: seq<StreamBatch>, apiKey: Option<string>,
                       model: string -> ModelAnswer, loads: string -> Decoded): seq<Effect>
  {
    DrainAll(response, f => ProcessMessage(f, apiKey, model, loads))
  }

  /** Every entry read is acknowledged once, in the order read. */
  lemma ConsumeOnceAcks(response: seq<StreamBatch>, apiKey: Option<string>,
                        model: string -> ModelAnswer, loads: string -> Decoded)
    ensures Acks(ConsumeOnce(response, apiKey, model, loads)) == AllIds(response)
  {
    var process := f => ProcessMessage(f, apiKey, model, loads);
    forall f
      ensures Acks(process(f)) == []
    {
      NoAcks(process(f));
    }
    DrainAllAcks(response, process);
  }
}
