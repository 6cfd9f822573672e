// What a backend sees on the spans: each attribute by its key, whatever the order in which
// the hooks recorded them.
module SpanContents {
  import opened HttpText
  import opened RequestParsing
  import opened ResponseParsing
  import opened SpanTable
  import opened TracedThreads
  import opened SpanCustody
  import opened DescriptorReuse

  // ---- Looking attributes up -------------------------------------------------------------

  /** The text a key was last given. */
  function TextOf(ops: seq<SpanOp>, key: string): Option<string> {
    if ops == [] then None
    else
      match ops[|ops| - 1]
      case SetText(k, text) => if k == key then Some(text) else TextOf(ops[..|ops| - 1], key)
      case _ => TextOf(ops[..|ops| - 1], key)
  }

  /** The number a key was last given. */
  function NumberOf(ops: seq<SpanOp>, key: string): Option<int> {
    if ops == [] then None
    else
      match ops[|ops| - 1]
      case SetNumber(k, number) => if k == key then Some(number) else NumberOf(ops[..|ops| - 1], key)
      case _ => NumberOf(ops[..|ops| - 1], key)
  }

  function Later<T>(first: Option<T>, second: Option<T>): Option<T> {
    if second.Some? then second else first
  }

  lemma {:induction false} Appended(a: seq<SpanOp>, b: seq<SpanOp>, key: string)
    ensures TextOf(a + b, key) == Later(TextOf(a, key), TextOf(b, key))
    ensures NumberOf(a + b, key) == Later(NumberOf(a, key), NumberOf(b, key))
  {
    if b == [] {
      assert a + b == a;
    } else {
      var n := |b| - 1;
      assert (a + b)[|a + b| - 1] == b[n] && (a + b)[..|a + b| - 1] == a + b[..n];
      Appended(a, b[..n], key);
    }
  }

  /** One more operation. */
  lemma OneMore(ops: seq<SpanOp>, op: SpanOp, key: string)
    ensures TextOf(ops + [op], key) == if op.SetText? && op.key == key then Some(op.text) else TextOf(ops, key)
    ensures NumberOf(ops + [op], key) == if op.SetNumber? && op.key == key then Some(op.number) else NumberOf(ops, key)
  {
    assert (ops + [op])[..|ops|] == ops;
  }

  // ---- What a read records ---------------------------------------------------------------

  const METHOD: string := "http.request.method"
  const PATH: string := "url.path"
  const BODY_SIZE: string := "http.request.body.size"
  const ADDRESS: string := "server.address"
  const PORT: string := "server.port"
  const USER_AGENT: string := "http.request.header.user_agent"
  const REQUEST_ID: string := "http.request.header.x_request_id"
  const STATUS_CODE: string := "http.response.status_code"
  const RESPONSE_SIZE: string := "http.response.body.size"
  const PEER: string := "net.sock.peer.fd"

  /** The value of the last header line of that name, unless there is none or it is empty. */
  function HeaderText(data: string, name: string): Option<string> {
    var v := LastMatch(HeaderLines(data), name);
    if v == "" then None else Some(v)
  }

  /** The request attributes of a span for method m and path p, read from `data`. */
  ghost predicate Describes(cfg: Config, ops: seq<SpanOp>, m: string, p: string, data: string) {
    && TextOf(ops, "http.request.method") == Some(m)
    && TextOf(ops, "url.path") == Some(p)
    && NumberOf(ops, "http.request.body.size") == Some(|data|)
    && TextOf(ops, "server.address") == Some(cfg.address)
    && NumberOf(ops, "server.port") == Some(cfg.port)
    && TextOf(ops, "http.request.header.user_agent") == HeaderText(data, "user-agent")
    && TextOf(ops, "http.request.header.x_request_id") == HeaderText(data, "x-request-id")
    && AddEvent("Request received") in ops
  }

  lemma HeaderByKey(data: string, name: string, key: string, other: string)
    requires Lower(name) == name
    ensures
      var ops := HeaderOp(Headers(data), name, key);
      && TextOf(ops, other) == (if other == key then HeaderText(data, name) else None)
      && NumberOf(ops, other) == None
  {
    GetScansLines(data, name);
    var ops := HeaderOp(Headers(data), name, key);
    hide Headers, HeaderLines, LastMatch;
    if ops != [] {
      assert ops == [] + [SetText(key, Headers(data)[name])];
      OneMore([], ops[0], other);
    }
  }

  lemma FixedByKey(cfg: Config, line: RequestLine, size: nat, key: string)
    ensures
      var ops := [SetText(METHOD, line.meth), SetText(PATH, line.path), SetNumber(BODY_SIZE, size),
                  SetText(ADDRESS, cfg.address), SetNumber(PORT, cfg.port)];
      && TextOf(ops, key) == (if key == METHOD then Some(line.meth) else if key == PATH then Some(line.path)
                              else if key == ADDRESS then Some(cfg.address) else None)
      && NumberOf(ops, key) == (if key == BODY_SIZE then Some(size) else if key == PORT then Some(cfg.port) else None)
  {
    var a, b, c := SetText(METHOD, line.meth), SetText(PATH, line.path), SetNumber(BODY_SIZE, size);
    var d, e := SetText(ADDRESS, cfg.address), SetNumber(PORT, cfg.port);
    OneMore([], a, key);
    OneMore([a], b, key);
    OneMore([a, b], c, key);
    OneMore([a, b, c], d, key);
    OneMore([a, b, c, d], e, key);
    assert [] + [a] == [a] && [a] + [b] == [a, b] && [a, b] + [c] == [a, b, c];
    assert [a, b, c] + [d] == [a, b, c, d] && [a, b, c, d] + [e] == [a, b, c, d, e];
    hide TextOf, NumberOf;
    assert DistinctKeys();
  }

  /** The keys are ten different names. */
  predicate DistinctKeys() {
    && |METHOD| == 19 && |PATH| == 8 && |BODY_SIZE| == 22 && |ADDRESS| == 14 && |PORT| == 11
    && |USER_AGENT| == 30 && |REQUEST_ID| == 32 && |STATUS_CODE| == 25 && |RESPONSE_SIZE| == 23 && |PEER| == 16
  }

  /** The four parts of what a read records, looked up under any key. */
  lemma RequestByKey(cfg: Config, line: RequestLine, data: string, key: string)
    ensures
      var ops := RequestOps(cfg, line, data);
      && TextOf(ops, key) == (if key == METHOD then Some(line.meth) else if key == PATH then Some(line.path)
                              else if key == ADDRESS then Some(cfg.address)
                              else if key == USER_AGENT then HeaderText(data, "user-agent")
                              else if key == REQUEST_ID then HeaderText(data, "x-request-id") else None)
      && NumberOf(ops, key) == (if key == BODY_SIZE then Some(|data|) else if key == PORT then Some(cfg.port) else None)
  {
    var fixed := [SetText(METHOD, line.meth), SetText(PATH, line.path), SetNumber(BODY_SIZE, |data|),
                  SetText(ADDRESS, cfg.address), SetNumber(PORT, cfg.port)];
    var agent := HeaderOp(Headers(data), "user-agent", USER_AGENT);
    var request := HeaderOp(Headers(data), "x-request-id", REQUEST_ID);
    assert RequestOps(cfg, line, data) == fixed + agent + request + [AddEvent("Request received")];
    FixedByKey(cfg, line, |data|, key);
    assert Lower("user-agent") == "user-agent" && Lower("x-request-id") == "x-request-id";
    HeaderByKey(data, "user-agent", USER_AGENT, key);
    HeaderByKey(data, "x-request-id", REQUEST_ID, key);
    Appended(fixed, agent, key);
    Appended(fixed + agent, request, key);
    OneMore(fixed + agent + request, AddEvent("Request received"), key);
    hide TextOf, NumberOf, HeaderText, HeaderOp, RequestOps;
    assert DistinctKeys();
  }

  lemma RequestDescribes(cfg: Config, line: RequestLine, data: string)
    ensures Describes(cfg, RequestOps(cfg, line, data), line.meth, line.path, data)
  {
    RequestByKey(cfg, line, data, METHOD);
    RequestByKey(cfg, line, data, PATH);
    RequestByKey(cfg, line, data, BODY_SIZE);
    RequestByKey(cfg, line, data, ADDRESS);
    RequestByKey(cfg, line, data, PORT);
    RequestByKey(cfg, line, data, USER_AGENT);
    RequestByKey(cfg, line, data, REQUEST_ID);
    var ops := RequestOps(cfg, line, data);
    assert ops[|ops| - 1] == AddEvent("Request received");
    hide TextOf, NumberOf, HeaderText, RequestOps;
    assert DistinctKeys();
  }

  // ---- What a write records --------------------------------------------------------------

  /** Decimal digits denote the number they were printed from. */
  lemma {:induction false} DecimalValue(n: nat)
    ensures AllDigits(Decimal(n)) && Value(Decimal(n)) == n
  {
    if n < 10 {
      assert Decimal(n)[..0] == "";
    } else {
      DecimalValue(n / 10);
      assert Decimal(n)[..|Decimal(n)| - 1] == Decimal(n / 10);
    }
  }

  /** The description of an error verdict: "HTTP " and the code in decimal. */
  ghost predicate ErrorText(text: string, code: int) {
    exists ds :: text == "HTTP " + ds && AllDigits(ds) && Value(ds) == code
  }

  /** The response attributes: the code and size of the write that carried a status. */
  lemma ResponseByKey(buf: string, n: nat, key: string)
    requires n <= |buf|
    ensures
      var ops, code := ResponseOps(buf, n), Status(buf, n);
      && TextOf(ops, key) == None
      && NumberOf(ops, key) ==
           (if key == STATUS_CODE then code else if key == RESPONSE_SIZE && code.Some? then Some(n) else None)
  {
    hide Status;
    var code := Status(buf, n);
    if code.None? {
      OneMore([], End, key);
      assert [] + [End] == [End];
    } else {
      var a, b := SetNumber(STATUS_CODE, code.value), SetNumber(RESPONSE_SIZE, n);
      var c := if code.value >= 400 then SetError("HTTP " + Decimal(code.value)) else SetOk;
      OneMore([], a, key);
      OneMore([a], b, key);
      OneMore([a, b], c, key);
      OneMore([a, b, c], End, key);
      assert [] + [a] == [a] && [a] + [b] == [a, b] && [a, b] + [c] == [a, b, c] && [a, b, c] + [End] == [a, b, c, End];
    }
    hide TextOf, NumberOf;
    assert DistinctKeys();
  }

  lemma ErrorsSpellTheCode(buf: string, n: nat, i: nat)
    requires n <= |buf| && i < |ResponseOps(buf, n)| && ResponseOps(buf, n)[i].SetError?
    ensures Status(buf, n).Some? && ErrorText(ResponseOps(buf, n)[i].description, Status(buf, n).value)
  {
    hide Status;
    var code := Status(buf, n).value;
    StatusIsExact(buf, n, code);
    DecimalValue(code);
    assert ErrorText("HTTP " + Decimal(code), code);
  }

  // ---- What every span of every run says -------------------------------------------------

  /** Every request span that has been described names, in every run, the method and path its
      request line spells out, and carries what the real read delivered. */
  lemma SpansSayWhatWasRead(cfg: Config, n: nat, open: set<int>, moves: seq<Move>, id: nat)
    ensures
      var s := Reached(cfg, n, open, moves);
      id < |s.table.spans| ==>
        var o, span := s.origin[id], s.table.spans[id];
        && ReadAt(s.world, o.fd, o.data, o.at)
        && exists m, p, lead, gap, query, rest ::
             && SpellsOut(FirstLine(o.data), m, p, lead, gap, query, rest)
             && span.name == m + " " + p
             && (span.ops != [] ==> Describes(cfg, span.ops, m, p, o.data))
  {
    hide Gate, RequestOps, ResponseOps, LastCall, Describes, FirstLine, SpellsOut;
    var s := Reached(cfg, n, open, moves);
    if id < |s.table.spans| {
      KnownAt(cfg, n, open, moves);
      assert OriginKnown(s, id) && SpanInv(cfg, s, id);
      var o, span := s.origin[id], s.table.spans[id];
      var line := Gate(o.data).value;
      GateIsExact(o.data, line.meth, line.path);
      assert Gate(o.data) == Some(RequestLine(line.meth, line.path));
      if span.ops != [] {
        SpanDescribes(cfg, s, id);
      }
    }
  }

  /** What follows the request's operations takes none of its attributes back. */
  lemma SpanDescribes(cfg: Config, s: State, id: nat)
    requires Inv(cfg, s) && id < |s.table.spans| && s.table.spans[id].ops != []
    ensures
      var o := s.origin[id];
      Gate(o.data).Some? &&
      Describes(cfg, s.table.spans[id].ops, Gate(o.data).value.meth, Gate(o.data).value.path, o.data)
  {
    hide Gate, RequestOps, ResponseOps, LastCall, Describes;
    assert SpanInv(cfg, s, id);
    var o := s.origin[id];
    var line := Gate(o.data).value;
    var request := RequestOps(cfg, line, o.data);
    RequestDescribes(cfg, line, o.data);
    match s.owner[id]
    case EndedByWrite(buf, m) =>
      StaysDescribed(cfg, request, ResponseOps(buf, m), buf, m, line.meth, line.path, o.data);
    case EndedByClose => StaysDescribedByClose(cfg, request, line.meth, line.path, o.data);
    case _ =>
  }

  lemma StaysDescribed(cfg: Config, request: seq<SpanOp>, response: seq<SpanOp>, buf: string, n: nat,
                       m: string, p: string, data: string)
    requires n <= |buf| && response == ResponseOps(buf, n) && Describes(cfg, request, m, p, data)
    ensures Describes(cfg, request + response, m, p, data)
  {
    KeepsKey(request, buf, n, METHOD);
    KeepsKey(request, buf, n, PATH);
    KeepsKey(request, buf, n, BODY_SIZE);
    KeepsKey(request, buf, n, ADDRESS);
    KeepsKey(request, buf, n, PORT);
    KeepsKey(request, buf, n, USER_AGENT);
    KeepsKey(request, buf, n, REQUEST_ID);
    hide TextOf, NumberOf, HeaderText, ResponseOps;
    assert DistinctKeys();
  }

  lemma KeepsKey(request: seq<SpanOp>, buf: string, n: nat, key: string)
    requires n <= |buf| && key != STATUS_CODE && key != RESPONSE_SIZE
    ensures TextOf(request + ResponseOps(buf, n), key) == TextOf(request, key)
    ensures NumberOf(request + ResponseOps(buf, n), key) == NumberOf(request, key)
  {
    Appended(request, ResponseOps(buf, n), key);
    ResponseByKey(buf, n, key);
  }

  lemma StaysDescribedByClose(cfg: Config, request: seq<SpanOp>, m: string, p: string, data: string)
    requires Describes(cfg, request, m, p, data)
    ensures Describes(cfg, request + [End], m, p, data)
  {
    OneMore(request, End, METHOD);
    OneMore(request, End, PATH);
    OneMore(request, End, BODY_SIZE);
    OneMore(request, End, ADDRESS);
    OneMore(request, End, PORT);
    OneMore(request, End, USER_AGENT);
    OneMore(request, End, REQUEST_ID);
    hide TextOf, NumberOf, HeaderText;
  }

  /** And the status code and size of the write that ended it, if that carried a status;
      a span that no write ended has neither. */
  lemma SpansSayWhatWasWritten(cfg: Config, n: nat, open: set<int>, moves: seq<Move>, id: nat)
    ensures
      var s := Reached(cfg, n, open, moves);
      id < |s.table.spans| ==>
        var ops, fate := s.table.spans[id].ops, s.owner[id];
        var code := if fate.EndedByWrite? && fate.n <= |fate.buf| then Status(fate.buf, fate.n) else None;
        && NumberOf(ops, "http.response.status_code") == code
        && NumberOf(ops, "http.response.body.size") == (if code.Some? then Some(fate.n) else None)
  {
    hide Gate, RequestOps, ResponseOps, LastCall, Status, NumberOf, TextOf;
    var s := Reached(cfg, n, open, moves);
    if id < |s.table.spans| {
      assert SpanInv(cfg, s, id);
      var o := s.origin[id];
      var line := Gate(o.data).value;
      var request := RequestOps(cfg, line, o.data);
      RequestByKey(cfg, line, o.data, STATUS_CODE);
      RequestByKey(cfg, line, o.data, RESPONSE_SIZE);
      NothingRecorded();
      assert DistinctKeys();
      match s.owner[id]
      case EndedByWrite(buf, m) =>
        Appended(request, ResponseOps(buf, m), STATUS_CODE);
        Appended(request, ResponseOps(buf, m), RESPONSE_SIZE);
        ResponseByKey(buf, m, STATUS_CODE);
        ResponseByKey(buf, m, RESPONSE_SIZE);
      case EndedByClose =>
        OneMore(request, End, STATUS_CODE);
        OneMore(request, End, RESPONSE_SIZE);
      case _ =>
    }
  }

  /** Every error verdict of every run spells the code of the write that ended the span. */
  lemma ErrorsSayTheCode(cfg: Config, n: nat, open: set<int>, moves: seq<Move>, id: nat, i: nat)
    ensures
      var s := Reached(cfg, n, open, moves);
      id < |s.table.spans| && i < |s.table.spans[id].ops| && s.table.spans[id].ops[i].SetError? ==>
        var fate := s.owner[id];
        && fate.EndedByWrite? && fate.n <= |fate.buf| && Status(fate.buf, fate.n).Some?
        && ErrorText(s.table.spans[id].ops[i].description, Status(fate.buf, fate.n).value)
  {
    hide Gate, RequestOps, ResponseOps, LastCall, Status, ErrorText;
    var s := Reached(cfg, n, open, moves);
    if id < |s.table.spans| && i < |s.table.spans[id].ops| && s.table.spans[id].ops[i].SetError? {
      assert SpanInv(cfg, s, id);
      var o := s.origin[id];
      var line := Gate(o.data).value;
      var request := RequestOps(cfg, line, o.data);
      NoVerdictInRequest(cfg, line, o.data);
      match s.owner[id]
      case EndedByWrite(buf, m) => ErrorsSpellTheCode(buf, m, i - |request|);
      case _ =>
    }
  }

  // ---- The write that ends a span is a real one ------------------------------------------

  /** That many characters of `buf` were really written to the descriptor. */
  ghost predicate Written(w: World, fd: int, buf: string, n: nat) {
    0 < n <= |buf| && exists k :: 0 <= k < |w.calls| && w.calls[k].call == RealWrite(fd, buf) && w.calls[k].result == n
  }

  ghost predicate WriterKnown(s: State, t: nat)
    requires t < |s.pcs|
  {
    match s.pcs[t]
    case WriteLock(fd, buf, n) => Written(s.world, fd, buf, n)
    case _ => true
  }

  ghost predicate FateKnown(s: State, id: nat)
    requires id < |s.owner| && id < |s.origin|
  {
    match s.owner[id]
    case EndedByWrite(buf, n) => Written(s.world, s.origin[id].fd, buf, n)
    case _ => true
  }

  ghost predicate WrittenInv(s: State) {
    && |s.owner| == |s.origin|
    && (forall t :: 0 <= t < |s.pcs| ==> WriterKnown(s, t))
    && (forall id :: 0 <= id < |s.owner| ==> FateKnown(s, id))
  }

  lemma WrittenStays(w: World, w': World, fd: int, buf: string, n: nat)
    requires WorldStep(w, w') && Written(w, fd, buf, n)
    ensures Written(w', fd, buf, n)
  {
    var k :| 0 <= k < |w.calls| && w.calls[k].call == RealWrite(fd, buf) && w.calls[k].result == n;
    assert w'.calls[k] == w.calls[k];
  }

  lemma WriterStaysKnown(cfg: Config, s: State, m: Move, t: nat)
    requires Inv(cfg, s) && WrittenInv(s) && t < |Apply(cfg, s, m).pcs|
    ensures WriterKnown(Apply(cfg, s, m), t)
  {
    hide Gate, RequestOps, ResponseOps, LastCall, ThreadInv, SpanInv, FdInv;
    var s' := Apply(cfg, s, m);
    ApplyWorld(cfg, s, m);
    assert WriterKnown(s, t);
    if s.pcs[t].WriteLock? {
      WrittenStays(s.world, s'.world, s.pcs[t].fd, s.pcs[t].buf, s.pcs[t].n);
    } else if s'.pcs[t].WriteLock? {
      var k := |s.world.calls|;
      assert s'.world.calls[k].call == RealWrite(s'.pcs[t].fd, s'.pcs[t].buf);
      assert s'.world.calls[k].result == s'.pcs[t].n;
    }
    hide Written, WorldStep;
  }

  lemma FateStaysKnown(cfg: Config, s: State, m: Move, id: nat)
    requires Inv(cfg, s) && WrittenInv(s) && id < |Apply(cfg, s, m).owner|
    ensures |Apply(cfg, s, m).owner| == |Apply(cfg, s, m).origin| && FateKnown(Apply(cfg, s, m), id)
  {
    hide Gate, RequestOps, ResponseOps, LastCall, Written, WorldStep;
    var s' := Apply(cfg, s, m);
    ApplyWorld(cfg, s, m);
    if id < |s.owner| {
      assert FateKnown(s, id);
      if s.owner[id].EndedByWrite? {
        WrittenStays(s.world, s'.world, s.origin[id].fd, s.owner[id].buf, s.owner[id].n);
      }
      if s'.owner[id] != s.owner[id] && s'.owner[id].EndedByWrite? {
        var fd := s.pcs[m.t].fd;
        assert WriterKnown(s, m.t) && FdInv(s, fd) && SpanInv(cfg, s, id);
        WrittenStays(s.world, s'.world, fd, s.pcs[m.t].buf, s.pcs[m.t].n);
      }
    }
  }

  lemma ApplyWritten(cfg: Config, s: State, m: Move)
    requires Inv(cfg, s) && WrittenInv(s)
    ensures WrittenInv(Apply(cfg, s, m))
  {
    var s' := Apply(cfg, s, m);
    ApplyInv(cfg, s, m);
    forall t | 0 <= t < |s'.pcs| ensures WriterKnown(s', t) {
      WriterStaysKnown(cfg, s, m, t);
    }
    forall id | 0 <= id < |s'.owner| ensures FateKnown(s', id) {
      FateStaysKnown(cfg, s, m, id);
    }
    hide Apply, WriterKnown, FateKnown, ThreadInv, SpanInv, FdInv;
  }

  lemma {:induction false} RunWritten(cfg: Config, s: State, moves: seq<Move>)
    requires Inv(cfg, s) && WrittenInv(s)
    ensures WrittenInv(Run(cfg, s, moves))
    decreases |moves|
  {
    if moves != [] {
      ApplyInv(cfg, s, moves[0]);
      ApplyWritten(cfg, s, moves[0]);
      RunWritten(cfg, Apply(cfg, s, moves[0]), moves[1..]);
    }
  }

  /** A span that a write ended was ended by a real, positive write on its own descriptor. */
  lemma EndedByRealWrite(cfg: Config, n: nat, open: set<int>, moves: seq<Move>, id: nat)
    ensures
      var s := Reached(cfg, n, open, moves);
      id < |s.table.spans| && s.owner[id].EndedByWrite? ==>
        Written(s.world, s.origin[id].fd, s.owner[id].buf, s.owner[id].n)
  {
    StartInv(cfg, n, open);
    RunWritten(cfg, Start(n, open), moves);
    var s := Reached(cfg, n, open, moves);
    if id < |s.table.spans| {
      assert FateKnown(s, id);
    }
  }

  lemma NothingRecorded()
    ensures forall key :: NumberOf([], key) == None && TextOf([], key) == None
  {}

  // ---- Accepted connections --------------------------------------------------------------

  /** The span of an accepted connection: address, port, descriptor, event, and its end. */
  lemma AcceptByKey(cfg: Config, fd: nat)
    ensures
      var ops := AcceptOps(cfg, fd);
      && TextOf(ops, "server.address") == Some(cfg.address)
      && NumberOf(ops, "server.port") == Some(cfg.port)
      && NumberOf(ops, "net.sock.peer.fd") == Some(fd)
      && (exists ds :: AddEvent("Accepted client fd: " + ds) in ops && AllDigits(ds) && Value(ds) == fd)
      && forall i :: 0 <= i < |ops| ==> (ops[i] == End <==> i == |ops| - 1)
  {
    var a, b, c := SetText(ADDRESS, cfg.address), SetNumber(PORT, cfg.port), SetNumber(PEER, fd);
    var d := AddEvent("Accepted client fd: " + Decimal(fd));
    assert AcceptOps(cfg, fd) == [a, b, c, d, End];
    DecimalValue(fd);
    AcceptLookup(a, b, c, d, ADDRESS);
    AcceptLookup(a, b, c, d, PORT);
    AcceptLookup(a, b, c, d, PEER);
    assert d in AcceptOps(cfg, fd);
    hide TextOf, NumberOf, Decimal;
    assert DistinctKeys();
  }

  lemma AcceptLookup(a: SpanOp, b: SpanOp, c: SpanOp, d: SpanOp, key: string)
    requires a.SetText? && b.SetNumber? && c.SetNumber? && d.AddEvent?
    ensures
      var ops := [a, b, c, d, End];
      && TextOf(ops, key) == (if a.key == key then Some(a.text) else None)
      && NumberOf(ops, key) == (if c.key == key then Some(c.number) else if b.key == key then Some(b.number) else None)
  {
    OneMore([], a, key);
    OneMore([a], b, key);
    OneMore([a, b], c, key);
    OneMore([a, b, c], d, key);
    OneMore([a, b, c, d], End, key);
    assert [] + [a] == [a] && [a] + [b] == [a, b] && [a, b] + [c] == [a, b, c];
    assert [a, b, c] + [d] == [a, b, c, d] && [a, b, c, d] + [End] == [a, b, c, d, End];
  }

  // ---- Without a tracer ------------------------------------------------------------------

  /** A thread is at none of the steps that record anything on a span. */
  predicate Untraced(pc: Pc) {
    pc.Idle? || pc.Calling? || pc.CloseLock? || pc.Returning?
  }

  ghost predicate Silent(s: State) {
    && s.table == Table([], map[]) && s.accepted == []
    && forall t :: 0 <= t < |s.pcs| ==> Untraced(s.pcs[t])
  }

  lemma ApplySilent(cfg: Config, s: State, m: Move)
    requires Inv(cfg, s) && Silent(s) && !cfg.tracing
    ensures Silent(Apply(cfg, s, m))
  {
    hide Gate, RequestOps, ResponseOps, LastCall, ThreadInv, SpanInv, FdInv;
    if !m.Open? && m.t < |s.pcs| {
      assert Untraced(s.pcs[m.t]);
    }
  }

  lemma {:induction false} RunSilent(cfg: Config, s: State, moves: seq<Move>)
    requires Inv(cfg, s) && Silent(s) && !cfg.tracing
    ensures Silent(Run(cfg, s, moves))
    decreases |moves|
  {
    if moves != [] {
      ApplyInv(cfg, s, moves[0]);
      ApplySilent(cfg, s, moves[0]);
      RunSilent(cfg, Apply(cfg, s, moves[0]), moves[1..]);
    }
  }

  /** No tracer, no spans, in any run. */
  lemma NothingWithoutTracer(cfg: Config, n: nat, open: set<int>, moves: seq<Move>)
    requires !cfg.tracing
    ensures
      var s := Reached(cfg, n, open, moves);
      s.table == Table([], map[]) && s.accepted == []
  {
    StartInv(cfg, n, open);
    RunSilent(cfg, Start(n, open), moves);
  }
}
