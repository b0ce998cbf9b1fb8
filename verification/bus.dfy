/** What an expense worker does to the outside world, as an append-only
    trace: confirmations published on the `gastos:confirmations` channel,
    rows upserted into the table, and stream entries acknowledged. The
    Redis and SQLite clients themselves are not modelled. */
module Bus {
  import opened Optional
  import opened Json
  import opened Store

  const ConfirmationsChannel: string := "gastos:confirmations"

  /** The published confirmation payload. `reply` is absent from the
      payload of the worker that does not send a reply text. */
  datatype Confirmation = Confirmation(chatId: string, originalWid: string, reply: Option<Value>)

  datatype Effect =
    | Published(channel: string, payload: Confirmation)
    | Upserted(row: Row)
    | Acked(entryId: string)

  /** A stream entry: its id and its string fields. */
  datatype Entry = Entry(id: string, fields: map<string, string>)

  /** One `[stream, messages]` pair of an `XREADGROUP` reply. */
  datatype StreamBatch = StreamBatch(stream: string, entries: seq<Entry>)

  /** The table after the upserts of a trace, in trace order. */
  function Apply(t: Table, effects: seq<Effect>): Table
    decreases |effects|
  {
    if |effects| == 0 then t
    else
      var t' := if effects[0].Upserted? then Upsert(t, effects[0].row) else t;
      Apply(t', effects[1..])
  }

  lemma {:induction false} ApplyConcat(t: Table, a: seq<Effect>, b: seq<Effect>)
    ensures Apply(t, a + b) == Apply(Apply(t, a), b)
    decreases |a|
  {
    if |a| > 0 {
      assert (a + b)[1..] == a[1..] + b;
      var t' := if a[0].Upserted? then Upsert(t, a[0].row) else t;
      ApplyConcat(t', a[1..], b);
    } else {
      assert a + b == b;
    }
  }

  /** A trace without upserts leaves the table alone. */
  lemma {:induction false} ApplyWithoutUpserts(t: Table, effects: seq<Effect>)
    requires forall i :: 0 <= i < |effects| ==> !effects[i].Upserted?
    ensures Apply(t, effects) == t
    decreases |effects|
  {
    if |effects| > 0 {
      ApplyWithoutUpserts(t, effects[1..]);
    }
  }

  /** A trace that starts with an upsert and stores nothing after it. */
  lemma UpsertFirstOnly(t: Table, row: Row, effects: seq<Effect>)
    requires |effects| > 0 && effects[0] == Upserted(row)
    requires forall i :: 1 <= i < |effects| ==> !effects[i].Upserted?
    ensures Apply(t, effects) == Upsert(t, row)
  {
    assert forall i :: 0 <= i < |effects[1..]| ==> !effects[1..][i].Upserted?;
    ApplyWithoutUpserts(Upsert(t, row), effects[1..]);
  }

  /** The primary-key invariant holds after any trace. */
  lemma {:induction false} ApplyKeepsKeyed(t: Table, effects: seq<Effect>)
    requires Keyed(t)
    ensures Keyed(Apply(t, effects))
    decreases |effects|
  {
    if |effects| > 0 {
      var t' := if effects[0].Upserted? then Upsert(t, effects[0].row) else t;
      if effects[0].Upserted? {
        UpsertKeepsKeyed(t, effects[0].row);
      }
      ApplyKeepsKeyed(t', effects[1..]);
    }
  }

  /** The entry ids acknowledged by a trace, in order. */
  function Acks(effects: seq<Effect>): seq<string>
    decreases |effects|
  {
    if |effects| == 0 then []
    else (if effects[0].Acked? then [effects[0].entryId] else []) + Acks(effects[1..])
  }

  lemma {:induction false} AcksConcat(a: seq<Effect>, b: seq<Effect>)
    ensures Acks(a + b) == Acks(a) + Acks(b)
    decreases |a|
  {
    if |a| > 0 {
      assert (a + b)[1..] == a[1..] + b;
      AcksConcat(a[1..], b);
    } else {
      assert a + b == b;
    }
  }

  function Ids(entries: seq<Entry>): seq<string> {
    if |entries| == 0 then [] else [entries[0].id] + Ids(entries[1..])
  }

  /** A message handler never acknowledges anything itself. */
  ghost predicate AcksNothing(process: map<string, string> -> seq<Effect>) {
    forall f :: Acks(process(f)) == []
  }

  /** Process each entry, then acknowledge it, in batch order. An empty
      batch does nothing. */
  function Drain(entries: seq<Entry>, process: map<string, string> -> seq<Effect>): seq<Effect>
    decreases |entries|
  {
    if |entries| == 0 then []
    else process(entries[0].fields) + [Acked(entries[0].id)] + Drain(entries[1..], process)
  }

  /** Every entry of a batch is acknowledged exactly once and in batch
      order. */
  lemma {:induction false} DrainAcks(entries: seq<Entry>, process: map<string, string> -> seq<Effect>)
    requires AcksNothing(process)
    ensures Acks(Drain(entries, process)) == Ids(entries)
    decreases |entries|
  {
    if |entries| > 0 {
      var e := entries[0];
      DrainAcks(entries[1..], process);
      AcksConcat(process(e.fields) + [Acked(e.id)], Drain(entries[1..], process));
      AcksConcat(process(e.fields), [Acked(e.id)]);
      assert Acks([Acked(e.id)]) == [e.id];
    }
  }

  /** The entry at position `k` is acknowledged right after its own effects,
      and after everything done for the entries before it. */
  lemma {:induction false} DrainSplit(entries: seq<Entry>, process: map<string, string> -> seq<Effect>, k: nat)
    requires k < |entries|
    ensures Drain(entries, process) ==
      Drain(entries[..k], process) + process(entries[k].fields) + [Acked(entries[k].id)]
      + Drain(entries[k + 1..], process)
    decreases k
  {
    if k > 0 {
      DrainSplit(entries[1..], process, k - 1);
      assert entries[1..][..k - 1] == entries[..k][1..];
      assert entries[1..][k - 1] == entries[k];
      assert entries[1..][k..] == entries[k + 1..];
    } else {
      assert entries[..0] == [];
      assert entries[1..] == entries[k + 1..];
    }
  }

  /** `for stream, messages in response: ...`: the batches one after
      another. */
  function DrainAll(response: seq<StreamBatch>, process: map<string, string> -> seq<Effect>): seq<Effect>
    decreases |response|
  {
    if |response| == 0 then []
    else Drain(response[0].entries, process) + DrainAll(response[1..], process)
  }

  function AllIds(response: seq<StreamBatch>): seq<string>
    decreases |response|
  {
    if |response| == 0 then [] else Ids(response[0].entries) + AllIds(response[1..])
  }

  lemma {:induction false} DrainAllAcks(response: seq<StreamBatch>, process: map<string, string> -> seq<Effect>)
    requires AcksNothing(process)
    ensures Acks(DrainAll(response, process)) == AllIds(response)
    decreases |response|
  {
    if |response| > 0 {
      DrainAcks(response[0].entries, process);
      DrainAllAcks(response[1..], process);
      AcksConcat(Drain(response[0].entries, process), DrainAll(response[1..], process));
    }
  }

  /** A trace without acknowledgements acknowledges nothing. */
  lemma {:induction false} NoAcks(effects: seq<Effect>)
    requires forall i :: 0 <= i < |effects| ==> !effects[i].Acked?
    ensures Acks(effects) == []
    decreases |effects|
  {
    if |effects| > 0 {
      NoAcks(effects[1..]);
    }
  }
}
