/** The Gmail reader (`gmail_reader/run.py`): it collects the ids of the
    matching unread mails page by page, extracts subject and body of each,
    and turns every mail into a stream record shaped like a chat message.
    The Gmail API, base64 and UTF-8 decoding and the clock are parameters. */
module Gmail {
  import opened Optional
  import opened PyStr
  import PyInt

  /** One `{'id': ...}` entry of a `messages.list` page. */
  datatype MessageRef = MessageRef(id: string)

  /** A `messages.list` response: `messages` and `nextPageToken` are each
      present or absent. */
  datatype ListPage = ListPage(messages: Option<seq<MessageRef>>, nextPageToken: Option<string>)

  /** `if 'messages' in result: messages.extend(result['messages'])`. */
  function PageMessages(page: ListPage): seq<MessageRef> {
    if page.messages.Some? then page.messages.value else []
  }

  /** The messages of some pages, in page order. */
  function Collected(pages: seq<ListPage>): seq<MessageRef>
    decreases |pages|
  {
    if |pages| == 0 then [] else Collected(pages[..|pages| - 1]) + PageMessages(pages[|pages| - 1])
  }

  lemma {:induction false} CollectedConcat(a: seq<ListPage>, b: seq<ListPage>)
    ensures Collected(a + b) == Collected(a) + Collected(b)
    decreases |b|
  {
    if |b| == 0 {
      assert a + b == a;
    } else {
      var last := b[|b| - 1];
      assert (a + b)[..|a + b| - 1] == a + b[..|b| - 1];
      CollectedConcat(a, b[..|b| - 1]);
      assert Collected(a + b) == Collected(a + b[..|b| - 1]) + PageMessages(last);
    }
  }

  /** Pages without `messages` contribute nothing. */
  lemma CollectedSkipsEmptyPages(a: seq<ListPage>, page: ListPage, b: seq<ListPage>)
    requires page.messages.None? || page.messages == Some([])
    ensures Collected(a + [page] + b) == Collected(a) + Collected(b)
  {
    CollectedConcat(a + [page], b);
    CollectedConcat(a, [page]);
    CollectedOne(page);
  }

  lemma CollectedOne(page: ListPage)
    ensures Collected([page]) == PageMessages(page)
  {
    assert [page][..0] == [];
  }

  /** Page `k` is the first page without `nextPageToken`: the one the loop
      stops after. */
  predicate StopsAt(pages: seq<ListPage>, k: nat) {
    && k < |pages|
    && pages[k].nextPageToken.None?
    && forall j :: 0 <= j < k ==> pages[j].nextPageToken.Some?
  }

  /** The loop stops after one page at most. */
  lemma StopsAtUnique(pages: seq<ListPage>, k1: nat, k2: nat)
    requires StopsAt(pages, k1) && StopsAt(pages, k2)
    ensures k1 == k2
  {
  }

  /** Pages the service would send after the last one requested change
      nothing. */
  lemma StopsAtIgnoresLaterPages(pages: seq<ListPage>, k: nat, later: seq<ListPage>)
    requires StopsAt(pages, k)
    ensures StopsAt(pages[..k + 1] + later, k)
    ensures (pages[..k + 1] + later)[..k + 1] == pages[..k + 1]
  {
    var p := pages[..k + 1] + later;
    assert p[k] == pages[k];
    forall j | 0 <= j < k
      ensures p[j].nextPageToken.Some?
    {
      assert p[j] == pages[j];
    }
  }

  /** `search_emails`: `pages` are the responses the service returns, in
      the order they are requested (the first one without a page token,
      each later one with the previous page's token). The result is `None`
      when more pages are requested than given. */
  method SearchEmails(pages: seq<ListPage>) returns (r: Option<seq<MessageRef>>)
    ensures r.None? <==> forall j :: 0 <= j < |pages| ==> pages[j].nextPageToken.Some?
    ensures r.Some? ==> exists k: nat :: StopsAt(pages, k) && r.value == Collected(pages[..k + 1])
  {
    if |pages| == 0 {
      return None;
    }
    var result := pages[0];
    var messages := PageMessages(result);
    var i := 0;
    assert pages[..1][..0] == [];
    while result.nextPageToken.Some?
      invariant 0 <= i < |pages| && result == pages[i]
      invariant messages == Collected(pages[..i + 1])
      invariant forall j :: 0 <= j < i ==> pages[j].nextPageToken.Some?
      decreases |pages| - i
    {
      if i + 1 == |pages| {
        return None;
      }
      i := i + 1;
      result := pages[i];
      assert pages[..i + 1][..i] == pages[..i];
      messages := messages + PageMessages(result);
    }
    assert StopsAt(pages, i);
    return Some(messages);
  }

  /** One `{'name': ..., 'value': ...}` header. */
  datatype Header = Header(name: string, value: string)

  /** The position of the first header named exactly `Subject`. */
  function SubjectIndex(headers: seq<Header>): (r: Option<nat>)
    ensures r.None? <==> forall i :: 0 <= i < |headers| ==> headers[i].name != "Subject"
    ensures r.Some? ==>
      && r.value < |headers|
      && headers[r.value].name == "Subject"
      && forall i :: 0 <= i < r.value ==> headers[i].name != "Subject"
    decreases |headers|
  {
    if |headers| == 0 then None
    else if headers[0].name == "Subject" then Some(0)
    else match SubjectIndex(headers[1..])
      case None => None
      case Some(i) => assert headers[1..][i] == headers[i + 1]; Some(i + 1)
  }

  /** The subject loop: the value of the first `Subject` header, `''` when
      there is none. */
  function Subject(headers: seq<Header>): string {
    match SubjectIndex(headers)
    case Some(i) => headers[i].value
    case None => ""
  }

  /** Headers after the first `Subject` header, including later `Subject`
      headers, do not change the subject. */
  lemma SubjectIgnoresLaterHeaders(a: seq<Header>, h: Header, b: seq<Header>)
    requires forall i :: 0 <= i < |a| ==> a[i].name != "Subject"
    requires h.name == "Subject"
    ensures Subject(a + [h] + b) == h.value
  {
    var hs := a + [h] + b;
    assert hs[|a|] == h;
    forall i | 0 <= i < |a|
      ensures hs[i].name != "Subject"
    {
      assert hs[i] == a[i];
    }
  }

  /** A message part body: `data` is present or absent. */
  datatype Body = Body(data: Option<string>)

  datatype Part = Part(body: Body)

  /** The `payload` of a `messages.get(format='full')` response. */
  datatype Payload = Payload(headers: seq<Header>, parts: Option<seq<Part>>, body: Body)

  /** The encoded body: the first part's when the payload has `parts`, the
      payload's own otherwise. `None` for an empty `parts` list
      (`IndexError`) or an absent `data` (`KeyError`). */
  function BodyData(payload: Payload): (r: Option<string>)
    ensures payload.parts.Some? && |payload.parts.value| > 0 ==> r == payload.parts.value[0].body.data
    ensures payload.parts.Some? && |payload.parts.value| == 0 ==> r.None?
    ensures payload.parts.None? ==> r == payload.body.data
  {
    match payload.parts
    case Some(parts) => if |parts| == 0 then None else parts[0].body.data
    case None => payload.body.data
  }

  /** The base64url character a standard-alphabet character stands for, and
      back. */
  function ToStandardChar(c: char): char {
    if c == '-' then '+' else if c == '_' then '/' else c
  }

  function ToUrlSafeChar(c: char): char {
    if c == '+' then '-' else if c == '/' then '_' else c
  }

  /** `data.replace("-", "+").replace("_", "/")`. */
  function ToStandardAlphabet(data: string): (r: string)
    ensures |r| == |data|
    ensures forall i :: 0 <= i < |data| ==> r[i] == ToStandardChar(data[i])
    ensures '-' !in r && '_' !in r
  {
    var once := ReplaceAll(data, "-", "+");
    ReplaceCharPointwise(data, '-', '+');
    var r := ReplaceAll(once, "_", "/");
    ReplaceCharPointwise(once, '_', '/');
    assert forall i :: 0 <= i < |r| ==> r[i] != '-' && r[i] != '_';
    r
  }

  /** The inverse mapping, back to the URL-safe alphabet. */
  function ToUrlSafeAlphabet(data: string): (r: string)
    ensures |r| == |data|
    ensures forall i :: 0 <= i < |data| ==> r[i] == ToUrlSafeChar(data[i])
  {
    if |data| == 0 then [] else [ToUrlSafeChar(data[0])] + ToUrlSafeAlphabet(data[1..])
  }

  /** Gmail's base64url data never holds `+` or `/`, so the mapping loses
      nothing: mapping back gives the original. */
  lemma StandardAlphabetRoundTrip(data: string)
    requires '+' !in data && '/' !in data
    ensures ToUrlSafeAlphabet(ToStandardAlphabet(data)) == data
  {
    var r := ToUrlSafeAlphabet(ToStandardAlphabet(data));
    forall i | 0 <= i < |data|
      ensures r[i] == data[i]
    {
      assert data[i] != '+' && data[i] != '/';
    }
  }

  /** The other direction: a standard-alphabet string without `-` or `_`
      comes back unchanged from the URL-safe spelling. */
  lemma UrlSafeAlphabetRoundTrip(data: string)
    requires '-' !in data && '_' !in data
    ensures ToStandardAlphabet(ToUrlSafeAlphabet(data)) == data
  {
    var r := ToStandardAlphabet(ToUrlSafeAlphabet(data));
    forall i | 0 <= i < |data|
      ensures r[i] == data[i]
    {
      assert data[i] != '-' && data[i] != '_';
    }
  }

  /** `get_email_content`: the subject and the decoded body text. `decode`
      is `base64.b64decode` followed by UTF-8 decoding, `None` when either
      raises. */
  function EmailContent(payload: Payload, decode: string -> Option<string>): (r: Option<(string, string)>)
    ensures r.Some? <==> BodyData(payload).Some? && decode(ToStandardAlphabet(BodyData(payload).value)).Some?
    ensures r.Some? ==>
      && r.value.0 == Subject(payload.headers)
      && r.value.1 == decode(ToStandardAlphabet(BodyData(payload).value)).value
  {
    match BodyData(payload)
    case None => None
    case Some(data) =>
      match decode(ToStandardAlphabet(data))
      case None => None
      case Some(text) => Some((Subject(payload.headers), text))
  }

  /** Only the first part is read: later parts and the payload's own body
      never matter once `parts` is present and non-empty. */
  lemma BodyDataFirstPartOnly(headers: seq<Header>, first: Part, rest: seq<Part>, body: Body)
    ensures BodyData(Payload(headers, Some([first] + rest), body)) == first.body.data
  {
  }

  /** The headers decide the subject and nothing else: two payloads that
      differ only in their headers agree on whether there is content and on
      the body text. */
  lemma EmailContentHeadersOnlySubject(p1: Payload, p2: Payload, decode: string -> Option<string>)
    requires p1.parts == p2.parts && p1.body == p2.body
    ensures EmailContent(p1, decode).Some? <==> EmailContent(p2, decode).Some?
    ensures EmailContent(p1, decode).Some? ==>
      && EmailContent(p1, decode).value.1 == EmailContent(p2, decode).value.1
      && EmailContent(p1, decode).value.0 == Subject(p1.headers)
      && EmailContent(p2, decode).value.0 == Subject(p2.headers)
  {
    assert BodyData(p1) == BodyData(p2);
  }

  /** The text handed to `b64decode` is the standard-alphabet spelling of the
      mail's data: the one string without `-` or `_` that maps back to it. */
  lemma EmailContentDecodesMailData(payload: Payload, decode: string -> Option<string>, s: string)
    requires BodyData(payload).Some?
    requires '-' !in s && '_' !in s && ToUrlSafeAlphabet(s) == BodyData(payload).value
    ensures EmailContent(payload, decode).Some? <==> decode(s).Some?
    ensures EmailContent(payload, decode).Some? ==> EmailContent(payload, decode).value.1 == decode(s).value
  {
    UrlSafeAlphabetRoundTrip(s);
  }

  const WidPrefix: string := "gmail-"

  /** The stream record `main` builds for one mail. */
  datatype Record = Record(id: string, body: string, timestamp: int)

  /** The record's stream fields; the integer timestamp reaches the stream
      as its decimal text. */
  function ToFields(r: Record): (f: map<string, string>)
    ensures f.Keys == {"wid", "chat_id", "chat_name", "sender_id", "sender_name", "timestamp", "type", "body"}
    ensures f["wid"] == WidPrefix + r.id
    ensures f["chat_id"] == "gmail" && f["chat_name"] == "Gmail"
    ensures f["sender_id"] == "banco.de.chile@gmail.com" && f["sender_name"] == "Banco de Chile"
    ensures f["type"] == "email" && f["body"] == r.body
    ensures f["timestamp"] == PyInt.IntToString(r.timestamp)
  {
    map["wid" := WidPrefix + r.id, "chat_id" := "gmail", "chat_name" := "Gmail",
        "sender_id" := "banco.de.chile@gmail.com", "sender_name" := "Banco de Chile",
        "timestamp" := PyInt.IntToString(r.timestamp), "type" := "email", "body" := r.body]
  }

  /** A consumer reading the record back with `int(...)` gets the
      timestamp it was built with. */
  lemma TimestampRoundTrip(r: Record)
    ensures PyInt.ParseInt(ToFields(r)["timestamp"]) == Some(r.timestamp)
  {
    PyInt.IntRoundTrip(r.timestamp);
  }

  /** Different mails get different `wid`s. */
  lemma WidInjective(a: Record, b: Record)
    requires ToFields(a)["wid"] == ToFields(b)["wid"]
    ensures a.id == b.id
  {
    assert (WidPrefix + a.id)[|WidPrefix|..] == a.id;
    assert (WidPrefix + b.id)[|WidPrefix|..] == b.id;
  }

  /** What `main` does to the outside world for one mail. */
  datatype Action = Added(fields: map<string, string>) | MarkedRead(id: string)

  /** The result of one search round: the actions taken, and whether every
      mail was handled (`false` when reading or marking one raised, which
      ends the program). */
  datatype Round = Round(actions: seq<Action>, completed: bool)

  /** The body text `get_email_content(service, id)` returns; `fetch` is
      `messages.get`, `None` when it raises. */
  function MailBody(fetch: string -> Option<Payload>, decode: string -> Option<string>): string -> Option<string> {
    id => if fetch(id).Some? && EmailContent(fetch(id).value, decode).Some?
          then Some(EmailContent(fetch(id).value, decode).value.1) else None
  }

  /** The stream fields for mail `k`, which must be readable. */
  function FieldsAt(refs: seq<MessageRef>, k: nat, read: string -> Option<string>, clock: nat -> int): map<string, string>
    requires k < |refs| && read(refs[k].id).Some?
  {
    ToFields(Record(refs[k].id, read(refs[k].id).value, clock(k)))
  }

  /** The `for msg in messages` loop from mail `k` on: read the mail, add
      its record to the stream, then mark it read. `read` gives a mail's
      body, `None` when reading it raises; `mark` tells whether
      `messages.modify` succeeds for a mail; `clock(k)` is
      `int(time.time())` while handling mail `k`. A mail that cannot be read
      ends the round before anything is done for it; a mail that cannot be
      marked read ends it after its record was added. */
  function PollFrom(refs: seq<MessageRef>, k: nat, read: string -> Option<string>, mark: string -> bool,
                    clock: nat -> int): Round
    requires k <= |refs|
    decreases |refs| - k
  {
    if k == |refs| then Round([], true)
    else if read(refs[k].id).None? then Round([], false)
    else if !mark(refs[k].id) then Round([Added(FieldsAt(refs, k, read, clock))], false)
    else
      var rest := PollFrom(refs, k + 1, read, mark, clock);
      Round([Added(FieldsAt(refs, k, read, clock)), MarkedRead(refs[k].id)] + rest.actions, rest.completed)
  }

  /** Mail `id` is read and marked read without an exception. */
  predicate Handles(id: string, read: string -> Option<string>, mark: string -> bool) {
    read(id).Some? && mark(id)
  }

  /** How many mails from `k` on are handled before the first that fails. */
  function HandledRun(refs: seq<MessageRef>, k: nat, read: string -> Option<string>, mark: string -> bool): (n: nat)
    requires k <= |refs|
    ensures k + n <= |refs|
    decreases |refs| - k
  {
    if k == |refs| || !Handles(refs[k].id, read, mark) then 0
    else 1 + HandledRun(refs, k + 1, read, mark)
  }

  /** The run is a maximal prefix of mails that are handled. */
  lemma {:induction false} HandledRunMaximal(refs: seq<MessageRef>, k: nat, read: string -> Option<string>,
                                            mark: string -> bool)
    requires k <= |refs|
    ensures forall j :: k <= j < k + HandledRun(refs, k, read, mark) ==> Handles(refs[j].id, read, mark)
    ensures k + HandledRun(refs, k, read, mark) < |refs| ==>
      !Handles(refs[k + HandledRun(refs, k, read, mark)].id, read, mark)
    decreases |refs| - k
  {
    if k < |refs| && Handles(refs[k].id, read, mark) {
      HandledRunMaximal(refs, k + 1, read, mark);
    }
  }

  /** In actions that start with mail `k`, mail `j` is added to the stream
      and then marked read, at the two positions its place calls for. */
  predicate HandledAt(actions: seq<Action>, k: nat, refs: seq<MessageRef>, j: nat,
                      read: string -> Option<string>, clock: nat -> int) {
    && k <= j < |refs|
    && 2 * (j - k) + 1 < |actions|
    && read(refs[j].id).Some?
    && actions[2 * (j - k)] == Added(FieldsAt(refs, j, read, clock))
    && actions[2 * (j - k) + 1] == MarkedRead(refs[j].id)
  }

  /** How a round from mail `k` on ends after `n` handled mails: it completes
      when no mail is left; a readable mail that cannot be marked read leaves
      exactly its record added; an unreadable mail leaves nothing. */
  predicate EndsAfter(round: Round, k: nat, n: nat, refs: seq<MessageRef>,
                      read: string -> Option<string>, clock: nat -> int) {
    && k + n <= |refs|
    && (round.completed <==> k + n == |refs|)
    && (if k + n < |refs| && read(refs[k + n].id).Some?
        then |round.actions| == 2 * n + 1 && round.actions[2 * n] == Added(FieldsAt(refs, k + n, read, clock))
        else |round.actions| == 2 * n)
  }

  /** Mails are handled in search order, each added to the stream right
      before it is marked read; the round stops at the first mail that
      cannot be read or marked read, and completes exactly when none
      fails. */
  lemma {:induction false} PollFromShape(refs: seq<MessageRef>, k: nat, read: string -> Option<string>,
                                        mark: string -> bool, clock: nat -> int)
    requires k <= |refs|
    ensures var round := PollFrom(refs, k, read, mark, clock);
      var n := HandledRun(refs, k, read, mark);
      && EndsAfter(round, k, n, refs, read, clock)
      && (forall j :: k <= j < k + n ==> HandledAt(round.actions, k, refs, j, read, clock))
    decreases |refs| - k
  {
    if k < |refs| && Handles(refs[k].id, read, mark) {
      PollFromShape(refs, k + 1, read, mark, clock);
      PollFromStep(refs, k, read, mark, clock);
      ShapeStep(PollFrom(refs, k, read, mark, clock), PollFrom(refs, k + 1, read, mark, clock), k, k + 1, refs,
                HandledRun(refs, k + 1, read, mark), HandledRun(refs, k, read, mark), read, clock);
    } else {
      PollFromStops(refs, k, read, mark, clock);
    }
  }

  /** A handled mail contributes its two actions ahead of the rest. */
  lemma PollFromStep(refs: seq<MessageRef>, k: nat, read: string -> Option<string>, mark: string -> bool,
                     clock: nat -> int)
    requires k < |refs| && Handles(refs[k].id, read, mark)
    ensures PollFrom(refs, k, read, mark, clock)
      == Round([Added(FieldsAt(refs, k, read, clock)), MarkedRead(refs[k].id)]
               + PollFrom(refs, k + 1, read, mark, clock).actions,
               PollFrom(refs, k + 1, read, mark, clock).completed)
    ensures HandledRun(refs, k, read, mark) == 1 + HandledRun(refs, k + 1, read, mark)
  {
  }

  /** The round from mail `k` on when there is no mail left or mail `k`
      fails. */
  lemma PollFromStops(refs: seq<MessageRef>, k: nat, read: string -> Option<string>, mark: string -> bool,
                      clock: nat -> int)
    requires k <= |refs| && (k == |refs| || !Handles(refs[k].id, read, mark))
    ensures HandledRun(refs, k, read, mark) == 0
    ensures EndsAfter(PollFrom(refs, k, read, mark, clock), k, 0, refs, read, clock)
  {
    assert k + 0 == k;
  }

  /** The shape of the round from mail `k` on, given the shape from mail
      `k + 1` on and that mail `k` is handled. */
  lemma ShapeStep(round: Round, rest: Round, k: nat, next: nat, refs: seq<MessageRef>, n: nat, m: nat,
                  read: string -> Option<string>, clock: nat -> int)
    requires next == k + 1 && m == n + 1
    requires k < |refs| && read(refs[k].id).Some?
    requires round == Round([Added(FieldsAt(refs, k, read, clock)), MarkedRead(refs[k].id)] + rest.actions, rest.completed)
    requires EndsAfter(rest, next, n, refs, read, clock)
    requires forall j :: next <= j < next + n ==> HandledAt(rest.actions, next, refs, j, read, clock)
    ensures EndsAfter(round, k, m, refs, read, clock)
    ensures forall j :: k <= j < k + m ==> HandledAt(round.actions, k, refs, j, read, clock)
  {
    assert round.actions[2..] == rest.actions;
    EndsStep(round, rest, k, next, n, m, refs, read, clock);
    forall j | k <= j < k + m
      ensures HandledAt(round.actions, k, refs, j, read, clock)
    {
      if j > k {
        HandledAfterStep(round.actions, rest.actions, k, refs, j, read, clock);
      }
    }
  }

  /** Handling mail `k` first keeps how the rest of the round ends. */
  lemma EndsStep(round: Round, rest: Round, k: nat, next: nat, n: nat, m: nat, refs: seq<MessageRef>,
                 read: string -> Option<string>, clock: nat -> int)
    requires next == k + 1 && m == n + 1
    requires |round.actions| == |rest.actions| + 2 && round.actions[2..] == rest.actions
    requires round.completed == rest.completed
    requires EndsAfter(rest, next, n, refs, read, clock)
    ensures EndsAfter(round, k, m, refs, read, clock)
  {
    assert k + m == next + n;
    if next + n < |refs| && read(refs[next + n].id).Some? {
      assert round.actions[2 * m] == rest.actions[2 * n];
    }
  }

  /** Handling mail `k` first shifts the positions of a later mail by
      two. */
  lemma HandledAfterStep(actions: seq<Action>, rest: seq<Action>, k: nat, refs: seq<MessageRef>, j: nat,
                         read: string -> Option<string>, clock: nat -> int)
    requires |actions| == |rest| + 2 && actions[2..] == rest
    requires HandledAt(rest, k + 1, refs, j, read, clock)
    ensures HandledAt(actions, k, refs, j, read, clock)
  {
    assert actions[2 * (j - k)] == rest[2 * (j - k - 1)];
    assert actions[2 * (j - k) + 1] == rest[2 * (j - k - 1) + 1];
  }

  /** One search round over the mails found. */
  function PollRound(refs: seq<MessageRef>, fetch: string -> Option<Payload>, decode: string -> Option<string>,
                     mark: string -> bool, clock: nat -> int): Round
  {
    PollFrom(refs, 0, MailBody(fetch, decode), mark, clock)
  }

  /** A whole round: it completes exactly when every mail found can be read
      and marked read; otherwise it stops at the first that cannot, after
      handling all before it, and with that mail's record added when only
      marking it failed. Each handled mail is added under `gmail-<id>` and
      then marked read. */
  lemma PollRoundShape(refs: seq<MessageRef>, read: string -> Option<string>, mark: string -> bool,
                       clock: nat -> int)
    ensures var round := PollFrom(refs, 0, read, mark, clock);
      var n := HandledRun(refs, 0, read, mark);
      && (round.completed <==> forall j :: 0 <= j < |refs| ==> Handles(refs[j].id, read, mark))
      && (!round.completed ==> n < |refs| && !Handles(refs[n].id, read, mark))
      && EndsAfter(round, 0, n, refs, read, clock)
      && (forall j :: 0 <= j < n ==> HandledAt(round.actions, 0, refs, j, read, clock))
  {
    PollFromShape(refs, 0, read, mark, clock);
    CompletesWhenAllHandled(PollFrom(refs, 0, read, mark, clock), refs, read, mark, clock);
  }

  /** A round that ends after the maximal run of handled mails completes
      exactly when every mail is handled, and otherwise stops at a mail that
      is not. */
  lemma CompletesWhenAllHandled(round: Round, refs: seq<MessageRef>, read: string -> Option<string>,
                                mark: string -> bool, clock: nat -> int)
    requires EndsAfter(round, 0, HandledRun(refs, 0, read, mark), refs, read, clock)
    ensures round.completed <==> forall j :: 0 <= j < |refs| ==> Handles(refs[j].id, read, mark)
    ensures !round.completed ==>
      HandledRun(refs, 0, read, mark) < |refs| && !Handles(refs[HandledRun(refs, 0, read, mark)].id, read, mark)
  {
    HandledRunMaximal(refs, 0, read, mark);
  }
}
