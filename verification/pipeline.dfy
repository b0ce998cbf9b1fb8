/** The Gmail reader and the expense workers share the `gastos:msgs`
    stream: a mail record published by the reader is what a worker later
    reads as a message's fields. */
module Pipeline {
  import opened Optional
  import opened Json
  import opened Store
  import opened Bus
  import Gmail
  import LegacyWorker
  import LlmWorker

  /** The first worker stores every mail record, under its `gmail-` key,
      with the mail's timestamp and body and the amount the model found. */
  lemma MailStoredByLegacyWorker(t: Table, r: Gmail.Record, p: map<string, Value>)
    requires LegacyWorker.WellFormed(p)
    ensures var u := Apply(t, LegacyWorker.Respond(Gmail.ToFields(r), Some(p)));
      && Lookup(u, Gmail.WidPrefix + r.id).Some?
      && Lookup(u, Gmail.WidPrefix + r.id).value.ts == r.timestamp
      && Lookup(u, Gmail.WidPrefix + r.id).value.body == r.body
      && Lookup(u, Gmail.WidPrefix + r.id).value.amount == p["amount"]
  {
    var f := Gmail.ToFields(r);
    Gmail.TimestampRoundTrip(r);
    LegacyWorker.EveryValidMessageStored(t, f, p);
    LookupAfterUpsert(t, LegacyWorker.ExpenseRow(f, p).value);
  }

  /** The conversational worker answers every mail record on the `gmail`
      chat, naming the mail's `wid`, before anything else. */
  lemma MailAnsweredByLlmWorker(r: Gmail.Record, result: Value)
    requires result.Obj?
    ensures var effects := LlmWorker.Respond(Gmail.ToFields(r), result);
      && |effects| > 0
      && effects[0].Published?
      && effects[0].payload.chatId == "gmail"
      && effects[0].payload.originalWid == Gmail.WidPrefix + r.id
  {
  }
}
