/** The `messages` table both expense workers write to and query. SQLite is
    modelled as a map from the primary key `wid` to the row; the SQL text is
    the same in both workers. */
module Store {
  import opened Optional
  import opened Json
  import PyInt

  /** One row of `messages`. The four expense columns hold the decoded JSON
      values they were given: amounts stay opaque. */
  datatype Row = Row(
    wid: string,
    chatId: string,
    chatName: string,
    senderId: string,
    senderName: string,
    ts: int,
    kind: string,
    body: string,
    amount: Value,
    currency: Value,
    category: Value,
    metaJson: Value)

  type Table = map<string, Row>

  /** `wid` is the primary key: each row is stored under its own `wid`. */
  predicate Keyed(t: Table) {
    forall w :: w in t ==> t[w].wid == w
  }

  /** The columns an upsert conflict leaves alone. */
  predicate SameIdentity(a: Row, b: Row) {
    && a.wid == b.wid
    && a.chatId == b.chatId
    && a.chatName == b.chatName
    && a.senderId == b.senderId
    && a.senderName == b.senderName
    && a.kind == b.kind
  }

  /** The columns an upsert conflict overwrites (`excluded.*`). */
  predicate SameContent(a: Row, b: Row) {
    && a.ts == b.ts
    && a.body == b.body
    && a.amount == b.amount
    && a.currency == b.currency
    && a.category == b.category
    && a.metaJson == b.metaJson
  }

  /** Two rows agreeing on both column groups are equal. */
  lemma IdentityAndContentDetermineRow(a: Row, b: Row)
    requires SameIdentity(a, b) && SameContent(a, b)
    ensures a == b
  {
  }

  /** `INSERT ... ON CONFLICT(wid) DO UPDATE SET ts, body, amount, currency,
      category, meta_json`. */
  function Upsert(t: Table, r: Row): (u: Table)
    ensures u.Keys == t.Keys + {r.wid}
    ensures forall w :: w in t && w != r.wid ==> u[w] == t[w]
    ensures r.wid !in t ==> u[r.wid] == r
    ensures r.wid in t ==> SameIdentity(u[r.wid], t[r.wid]) && SameContent(u[r.wid], r)
  {
    t[r.wid := Stored(t, r)]
  }

  /** The row an upsert leaves under `r.wid`: `r` itself for a new `wid`,
      the old row with the six `excluded` columns taken from `r` otherwise. */
  function Stored(t: Table, r: Row): Row {
    if r.wid in t then
      t[r.wid].(ts := r.ts, body := r.body, amount := r.amount,
                currency := r.currency, category := r.category,
                metaJson := r.metaJson)
    else r
  }

  /** The primary-key invariant survives every upsert. */
  lemma UpsertKeepsKeyed(t: Table, r: Row)
    requires Keyed(t)
    ensures Keyed(Upsert(t, r))
  {
  }

  /** Upserting the same message twice is the same as upserting it once. */
  lemma UpsertIdempotent(t: Table, r: Row)
    ensures Upsert(Upsert(t, r), r) == Upsert(t, r)
  {
    var u := Upsert(t, r);
    var v := Upsert(u, r);
    IdentityAndContentDetermineRow(v[r.wid], u[r.wid]);
    assert v.Keys == u.Keys;
  }

  /** Upserts of different messages commute. */
  lemma UpsertCommutes(t: Table, r1: Row, r2: Row)
    requires r1.wid != r2.wid
    ensures Upsert(Upsert(t, r1), r2) == Upsert(Upsert(t, r2), r1)
  {
    var m1 := Stored(t, r1);
    var m2 := Stored(t, r2);
    assert Stored(Upsert(t, r1), r2) == m2;
    assert Stored(Upsert(t, r2), r1) == m1;
    assert t[r1.wid := m1][r2.wid := m2] == t[r2.wid := m2][r1.wid := m1];
  }

  /** A later upsert of the same `wid` replaces the content columns but keeps
      the identity columns of the row as first inserted. */
  lemma {:induction false} RepeatedUpsert(t: Table, rs: seq<Row>, w: string)
    requires |rs| > 0
    requires forall i :: 0 <= i < |rs| ==> rs[i].wid == w
    requires w !in t
    ensures w in UpsertAll(t, rs)
    ensures SameIdentity(UpsertAll(t, rs)[w], rs[0])
    ensures SameContent(UpsertAll(t, rs)[w], rs[|rs| - 1])
  {
    if |rs| > 1 {
      RepeatedUpsert(t, rs[..|rs| - 1], w);
      assert UpsertAll(t, rs) == Upsert(UpsertAll(t, rs[..|rs| - 1]), rs[|rs| - 1]);
    } else {
      assert UpsertAll(t, rs) == Upsert(UpsertAll(t, []), rs[0]);
    }
  }

  /** Upserting rows one after another. */
  function UpsertAll(t: Table, rs: seq<Row>): Table
    decreases |rs|
  {
    if |rs| == 0 then t else Upsert(UpsertAll(t, rs[..|rs| - 1]), rs[|rs| - 1])
  }

  /** `SELECT * FROM messages WHERE wid = ?`: `None` is the 404 reply. */
  function Lookup(t: Table, wid: string): Option<Row> {
    if wid in t then Some(t[wid]) else None
  }

  /** After an upsert the row is found under its `wid`, carrying the new
      content. */
  lemma LookupAfterUpsert(t: Table, r: Row)
    ensures Lookup(Upsert(t, r), r.wid).Some?
    ensures SameContent(Lookup(Upsert(t, r), r.wid).value, r)
    ensures forall w :: w != r.wid ==> Lookup(Upsert(t, r), w) == Lookup(t, w)
  {
  }

  predicate NewestFirst(rows: seq<Row>) {
    forall i, j :: 0 <= i < j < |rows| ==> rows[i].ts >= rows[j].ts
  }

  /** The number of rows `LIMIT limit` lets through; SQLite reads a negative
      limit as no limit. */
  function PageSize(n: nat, limit: int): (k: nat)
    ensures k <= n
    ensures limit < 0 ==> k == n
    ensures 0 <= limit ==> k == if limit < n then limit else n
  {
    if limit < 0 || n <= limit then n else limit
  }

  /** A key of `m` holding a row with the largest `ts`. */
  method NewestKey(m: Table) returns (w: string)
    requires |m| > 0
    ensures w in m
    ensures forall v :: v in m ==> m[v].ts <= m[w].ts
  {
    var rest := m.Keys;
    w :| w in rest;
    rest := rest - {w};
    while rest != {}
      invariant rest <= m.Keys
      invariant w in m
      invariant forall v :: v in m && v !in rest ==> m[v].ts <= m[w].ts
      decreases rest
    {
      var v :| v in rest;
      if m[v].ts > m[w].ts {
        w := v;
      }
      rest := rest - {v};
    }
  }

  /** The `wid`s of a list of rows. */
  function Wids(rows: seq<Row>): set<string> {
    set i | 0 <= i < |rows| :: rows[i].wid
  }

  /** The state of `Recent` between two rows: `rows` is a newest-first
      prefix of the answer and `rest` holds exactly the rows not yet
      taken, none newer than a row already taken. */
  predicate RecentInv(t: Table, rest: Table, rows: seq<Row>) {
    && rest.Keys == t.Keys - Wids(rows)
    && (forall w :: w in rest ==> rest[w] == t[w])
    && |rows| + |rest| == |t|
    && NewestFirst(rows)
    && (forall i :: 0 <= i < |rows| ==> rows[i].wid in t && t[rows[i].wid] == rows[i])
    && (forall i, j :: 0 <= i < j < |rows| ==> rows[i].wid != rows[j].wid)
    && (forall w, i :: w in rest && 0 <= i < |rows| ==> rest[w].ts <= rows[i].ts)
  }

  lemma WidsAppend(rows: seq<Row>, row: Row)
    ensures Wids(rows + [row]) == Wids(rows) + {row.wid}
  {
    var rows' := rows + [row];
    assert forall i :: 0 <= i < |rows| ==> rows'[i] == rows[i];
    assert rows'[|rows|] == row;
  }

  /** Taking the newest remaining row keeps the state consistent. */
  lemma RecentStep(t: Table, rest: Table, rows: seq<Row>, w: string)
    requires Keyed(t) && RecentInv(t, rest, rows)
    requires w in rest && forall v :: v in rest ==> rest[v].ts <= rest[w].ts
    ensures RecentInv(t, rest - {w}, rows + [rest[w]])
  {
    var row := rest[w];
    assert row.wid == w && w in t && t[w] == row;
    assert w !in Wids(rows);
    StepKeys(t, rest, rows, w);
    StepRows(t, rows, row);
    StepOrder(rest, rows, w);
  }

  lemma StepKeys(t: Table, rest: Table, rows: seq<Row>, w: string)
    requires rest.Keys == t.Keys - Wids(rows) && |rows| + |rest| == |t|
    requires (forall v :: v in rest ==> rest[v] == t[v]) && w in rest && rest[w].wid == w
    ensures (rest - {w}).Keys == t.Keys - Wids(rows + [rest[w]])
    ensures |rows + [rest[w]]| + |rest - {w}| == |t|
    ensures forall v :: v in rest - {w} ==> (rest - {w})[v] == t[v]
  {
    WidsAppend(rows, rest[w]);
    assert (rest - {w}).Keys == rest.Keys - {w};
  }

  lemma StepRows(t: Table, rows: seq<Row>, row: Row)
    requires row.wid in t && t[row.wid] == row && row.wid !in Wids(rows)
    requires forall i :: 0 <= i < |rows| ==> rows[i].wid in t && t[rows[i].wid] == rows[i]
    requires forall i, j :: 0 <= i < j < |rows| ==> rows[i].wid != rows[j].wid
    ensures forall i :: 0 <= i < |rows + [row]| ==>
      (rows + [row])[i].wid in t && t[(rows + [row])[i].wid] == (rows + [row])[i]
    ensures forall i, j :: 0 <= i < j < |rows + [row]| ==> (rows + [row])[i].wid != (rows + [row])[j].wid
  {
    var rows' := rows + [row];
    forall i | 0 <= i < |rows|
      ensures rows[i].wid != row.wid
    {
      assert rows[i].wid in Wids(rows);
    }
    assert forall i :: 0 <= i < |rows| ==> rows'[i] == rows[i];
  }

  lemma StepOrder(rest: Table, rows: seq<Row>, w: string)
    requires NewestFirst(rows) && w in rest
    requires forall v, i :: v in rest && 0 <= i < |rows| ==> rest[v].ts <= rows[i].ts
    requires forall v :: v in rest ==> rest[v].ts <= rest[w].ts
    ensures NewestFirst(rows + [rest[w]])
    ensures forall v, i :: v in rest - {w} && 0 <= i < |rows + [rest[w]]| ==>
      (rest - {w})[v].ts <= (rows + [rest[w]])[i].ts
  {
    var rows' := rows + [rest[w]];
    assert forall i :: 0 <= i < |rows| ==> rows'[i] == rows[i];
  }

  /** `SELECT * FROM messages ORDER BY ts DESC LIMIT ?`: the newest rows, at
      most `limit` of them (all when `limit` is negative), each stored row at
      most once, and no row left out is newer than one returned. Rows with
      equal `ts` may come in any order. */
  method Recent(t: Table, limit: int) returns (rows: seq<Row>)
    requires Keyed(t)
    ensures |rows| == PageSize(|t|, limit)
    ensures NewestFirst(rows)
    ensures forall i :: 0 <= i < |rows| ==> rows[i].wid in t && t[rows[i].wid] == rows[i]
    ensures forall i, j :: 0 <= i < j < |rows| ==> rows[i].wid != rows[j].wid
    ensures forall w, i :: w in t && w !in Wids(rows) && 0 <= i < |rows| ==> t[w].ts <= rows[i].ts
  {
    var rest := t;
    rows := [];
    assert RecentInv(t, rest, rows) by {
      assert Wids(rows) == {};
    }
    while |rest| > 0 && (limit < 0 || |rows| < limit)
      invariant RecentInv(t, rest, rows)
      invariant limit >= 0 ==> |rows| <= limit
      decreases |t| - |rows|
    {
      var w := NewestKey(rest);
      RecentStep(t, rest, rows, w);
      rows := rows + [rest[w]];
      rest := rest - {w};
    }
    RecentDone(t, rest, rows, limit);
  }

  /** When `Recent` stops, the rows taken are the answer. */
  lemma RecentDone(t: Table, rest: Table, rows: seq<Row>, limit: int)
    requires RecentInv(t, rest, rows) && (limit >= 0 ==> |rows| <= limit)
    requires !(|rest| > 0 && (limit < 0 || |rows| < limit))
    ensures |rows| == PageSize(|t|, limit)
    ensures forall w, i :: w in t && w !in Wids(rows) && 0 <= i < |rows| ==> t[w].ts <= rows[i].ts
  {
    forall w, i | w in t && w !in Wids(rows) && 0 <= i < |rows|
      ensures t[w].ts <= rows[i].ts
    {
      assert w in rest;
    }
  }

  /** The summary row: `COUNT(*)` and `MAX(ts)` (`None` on an empty table).
      `SUM(amount)` is not modelled. */
  datatype Stats = Stats(messageCount: nat, lastMessageTs: Option<int>)

  function Timestamps(t: Table): set<int> {
    set w | w in t :: t[w].ts
  }

  /** A non-empty map to integers has a key whose value no other value
      exceeds. */
  lemma {:induction false} MaxValueExists(m: map<string, int>)
    requires |m| > 0
    ensures exists k :: k in m && forall v :: v in m ==> m[v] <= m[k]
    decreases |m|
  {
    var x :| x in m;
    var rest := m - {x};
    assert rest.Keys == m.Keys - {x};
    assert |rest| == |m| - 1;
    if |rest| == 0 {
      assert m.Keys == {x};
    } else {
      MaxValueExists(rest);
      var k :| k in rest && forall v :: v in rest ==> rest[v] <= rest[k];
      var best := if m[x] <= m[k] then k else x;
      forall v | v in m
        ensures m[v] <= m[best]
      {
        if v != x {
          assert v in rest;
        }
      }
    }
  }

  lemma MaxTimestampExists(t: Table)
    requires |t| > 0
    ensures exists m :: m in Timestamps(t) && forall x :: x in Timestamps(t) ==> x <= m
  {
    var ts := map w | w in t :: t[w].ts;
    assert ts.Keys == t.Keys;
    MaxValueExists(ts);
    var k :| k in ts && forall v :: v in ts ==> ts[v] <= ts[k];
    assert t[k].ts in Timestamps(t);
  }

  /** `MAX(ts)`. */
  function LastTs(t: Table): (r: Option<int>)
    ensures r.None? <==> |t| == 0
    ensures r.Some? ==> r.value in Timestamps(t)
    ensures r.Some? ==> forall w :: w in t ==> t[w].ts <= r.value
  {
    if |t| == 0 then None
    else
      MaxTimestampExists(t);
      var m :| m in Timestamps(t) && forall x :: x in Timestamps(t) ==> x <= m;
      assert forall w :: w in t ==> t[w].ts in Timestamps(t);
      Some(m)
  }

  /** `GET /stats/summary` without the amount total. */
  function Summary(t: Table): (s: Stats)
    ensures s.messageCount == |t|
    ensures s.messageCount == 0 <==> s.lastMessageTs.None?
    ensures s.lastMessageTs.Some? ==>
      (exists w :: w in t && t[w].ts == s.lastMessageTs.value)
      && forall w :: w in t ==> t[w].ts <= s.lastMessageTs.value
  {
    Stats(|t|, LastTs(t))
  }

  /** An upsert adds one to the count exactly when its `wid` is new, and the
      last timestamp afterwards is at least the upserted one. */
  lemma SummaryAfterUpsert(t: Table, r: Row)
    ensures Summary(Upsert(t, r)).messageCount == if r.wid in t then |t| else |t| + 1
    ensures Summary(Upsert(t, r)).lastMessageTs.Some?
    ensures r.ts <= Summary(Upsert(t, r)).lastMessageTs.value
  {
    var u := Upsert(t, r);
    if r.wid !in t {
      assert u.Keys == t.Keys + {r.wid};
      assert |u.Keys| == |t.Keys| + 1;
    } else {
      assert u.Keys == t.Keys;
    }
    assert u[r.wid].ts == r.ts;
  }

  /** The stream fields `process_message` reads into a `Message`. */
  predicate HasMessageFields(f: map<string, string>) {
    && "wid" in f && "chat_id" in f && "chat_name" in f && "sender_id" in f
    && "sender_name" in f && "timestamp" in f && "type" in f && "body" in f
  }

  /** The value kinds the `Message` model accepts: `Optional[float]` for the
      amount and `Optional[str]` for the other expense columns. */
  predicate ExpenseColumnsConform(amount: Value, currency: Value, category: Value, metaJson: Value) {
    && (amount.Null? || amount.Num?)
    && (currency.Null? || currency.Str?)
    && (category.Null? || category.Str?)
    && (metaJson.Null? || metaJson.Str?)
  }

  /** `Message(wid=msg_data['wid'], ..., ts=int(msg_data['timestamp']), ...)`:
      `None` when a field is missing (`KeyError`), the timestamp is not an
      integer (`ValueError`) or an expense column has the wrong kind
      (`ValidationError`). */
  function RowFromFields(f: map<string, string>, amount: Value, currency: Value,
                         category: Value, metaJson: Value): (r: Option<Row>)
    ensures r.Some? <==>
      && HasMessageFields(f)
      && PyInt.ParseInt(f["timestamp"]).Some?
      && ExpenseColumnsConform(amount, currency, category, metaJson)
    ensures r.Some? ==>
      && r.value.wid == f["wid"] && r.value.chatId == f["chat_id"]
      && r.value.chatName == f["chat_name"] && r.value.senderId == f["sender_id"]
      && r.value.senderName == f["sender_name"] && r.value.kind == f["type"]
      && r.value.body == f["body"] && r.value.ts == PyInt.ParseInt(f["timestamp"]).value
      && r.value.amount == amount && r.value.currency == currency
      && r.value.category == category && r.value.metaJson == metaJson
  {
    if HasMessageFields(f) then
      match PyInt.ParseInt(f["timestamp"])
      case Some(ts) =>
        if ExpenseColumnsConform(amount, currency, category, metaJson) then
          Some(Row(f["wid"], f["chat_id"], f["chat_name"], f["sender_id"], f["sender_name"],
                   ts, f["type"], f["body"], amount, currency, category, metaJson))
        else None
      case None => None
    else None
  }
}
