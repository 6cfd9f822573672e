// The spans and the descriptor table of roll-dice/preload_tracer.cpp: what the lines
// under fd_span_mutex do to them, and the four hooks called one after another.
module SpanTable {
  import opened HttpText
  import opened RequestParsing
  import opened ResponseParsing

  /** `tracing`: the tracer was created. */
  datatype Config = Config(tracing: bool, address: string, port: int)

  datatype SpanOp =
    | SetText(key: string, text: string)
    | SetNumber(key: string, number: int)
    | AddEvent(name: string)
    | SetOk
    | SetError(description: string)
    | End

  /** A span is its name and everything that was done to it, in order. */
  datatype Span = Span(name: string, ops: seq<SpanOp>)

  /** The value type of fd_span_map; spans are named by their position in Table.spans. */
  datatype FdSpanContext = FdSpanContext(span: nat, meth: string, path: string)

  datatype Table = Table(spans: seq<Span>, fdMap: map<int, FdSpanContext>)

  function Decimal(n: nat): string {
    if n < 10 then [Digit(n)] else Decimal(n / 10) + [Digit(n % 10)]
  }

  function HeaderOp(headers: HeaderMap, name: string, key: string): seq<SpanOp> {
    if name in headers && headers[name] != "" then [SetText(key, headers[name])] else []
  }

  /** What `read` records on a request span before it is stored. */
  function RequestOps(cfg: Config, line: RequestLine, data: string): seq<SpanOp> {
    [SetText("http.request.method", line.meth), SetText("url.path", line.path),
     SetNumber("http.request.body.size", |data|),
     SetText("server.address", cfg.address), SetNumber("server.port", cfg.port)]
    + HeaderOp(Headers(data), "user-agent", "http.request.header.user_agent")
    + HeaderOp(Headers(data), "x-request-id", "http.request.header.x_request_id")
    + [AddEvent("Request received")]
  }

  /** What `write` records on the span it finds: a status if the response has one, then the end. */
  function ResponseOps(buf: string, n: nat): seq<SpanOp>
    requires n <= |buf|
  {
    match Status(buf, n)
    case None => [End]
    case Some(code) =>
      [SetNumber("http.response.status_code", code), SetNumber("http.response.body.size", n),
       if code >= 400 then SetError("HTTP " + Decimal(code)) else SetOk,
       End]
  }

  function SpanName(line: RequestLine): string {
    line.meth + " " + line.path
  }

  ghost predicate Pointing(t: Table) {
    forall fd :: fd in t.fdMap ==> t.fdMap[fd].span < |t.spans|
  }

  function Emit(t: Table, id: nat, ops: seq<SpanOp>): Table
    requires id < |t.spans|
  {
    t.(spans := t.spans[id := t.spans[id].(ops := t.spans[id].ops + ops)])
  }

  function StartSpan(t: Table, line: RequestLine): Table {
    t.(spans := t.spans + [Span(SpanName(line), [])])
  }

  /** Lines 250-251. */
  function Store(t: Table, fd: int, ctx: FdSpanContext): Table {
    t.(fdMap := t.fdMap[fd := ctx])
  }

  /** Lines 264-278. */
  function FinishWrite(t: Table, fd: int, buf: string, n: nat): Table
    requires Pointing(t) && n <= |buf|
  {
    if fd in t.fdMap then
      Emit(t, t.fdMap[fd].span, ResponseOps(buf, n)).(fdMap := t.fdMap - {fd})
    else t
  }

  /** end_span_for_fd */
  function FinishClose(t: Table, fd: int): Table
    requires Pointing(t)
  {
    if fd in t.fdMap then
      Emit(t, t.fdMap[fd].span, [End]).(fdMap := t.fdMap - {fd})
    else t
  }

  /** The whole effect of a `read` that delivered `data`. */
  function AfterRead(cfg: Config, t: Table, fd: int, data: string): Table {
    match Gate(data)
    case None => t
    case Some(line) =>
      var id := |t.spans|;
      Store(Emit(StartSpan(t, line), id, RequestOps(cfg, line, data)), fd, FdSpanContext(id, line.meth, line.path))
  }

  function AcceptOps(cfg: Config, fd: nat): seq<SpanOp> {
    [SetText("server.address", cfg.address), SetNumber("server.port", cfg.port),
     SetNumber("net.sock.peer.fd", fd), AddEvent("Accepted client fd: " + Decimal(fd)), End]
  }

  datatype RealCall =
    | RealAccept(sockfd: int)
    | RealRead(fd: int, count: nat)
    | RealWrite(fd: int, buf: string)
    | RealClose(fd: int)

  /** The preload library's globals. A hook's kernel answer is a parameter of the method;
      `calls` records each real call a hook makes. */
  class Preloader {
    const cfg: Config
    var fdSpanMap: map<int, FdSpanContext>
    var spans: seq<Span>
    var accepted: seq<Span>
    var calls: seq<RealCall>

    ghost function State(): Table reads this {
      Table(spans, fdSpanMap)
    }

    ghost predicate Valid() reads this {
      Pointing(State())
    }

    constructor (cfg: Config)
      ensures Valid() && this.cfg == cfg && State() == Table([], map[]) && accepted == [] && calls == []
    {
      this.cfg := cfg;
      fdSpanMap, spans, accepted, calls := map[], [], [], [];
    }

    method Record(id: nat, op: SpanOp)
      requires id < |spans|
      modifies this`spans
      ensures State() == Emit(old(State()), id, [op])
    {
      spans := spans[id := spans[id].(ops := spans[id].ops + [op])];
    }

    /** end_span_for_fd */
    method EndSpanForFd(fd: int)
      requires Valid()
      modifies this`spans, this`fdSpanMap
      ensures Valid() && State() == FinishClose(old(State()), fd)
    {
      if fd in fdSpanMap {
        Record(fdSpanMap[fd].span, End);
        fdSpanMap := fdSpanMap - {fd};
      }
    }

    method Accept(sockfd: int, answer: int) returns (clientFd: int)
      requires answer >= -1
      modifies this`accepted, this`calls
      ensures clientFd == answer && calls == old(calls) + [RealAccept(sockfd)]
      ensures accepted == old(accepted) +
                if answer != -1 && cfg.tracing then [Span("HTTP accept", AcceptOps(cfg, answer))] else []
    {
      calls := calls + [RealAccept(sockfd)];
      clientFd := answer;
      if clientFd != -1 && cfg.tracing {
        accepted := accepted + [Span("HTTP accept", AcceptOps(cfg, clientFd))];
      }
    }

    /** Lines 210-218. */
    method HttpLike(data: string) returns (r: Option<RequestLine>)
      ensures r == Gate(data)
    {
      var lineEnd := Find(data, CRLF, 0);
      var firstLine := if lineEnd.Some? then data[..lineEnd.value] else data;
      var meth, path := ParseRequestLine(firstLine);
      if meth != "" && |path| >= 1 && path[0] == '/' && (Contains(data, "HTTP/1.") || Contains(data, "HTTP/2")) {
        return Some(RequestLine(meth, path));
      }
      return None;
    }

    /** Lines 241-246: one optional header attribute. */
    method RecordHeader(id: nat, headers: HeaderMap, name: string, key: string)
      requires id < |spans|
      modifies this`spans
      ensures State() == Emit(old(State()), id, HeaderOp(headers, name, key))
    {
      if name in headers && headers[name] != "" {
        Record(id, SetText(key, headers[name]));
      } else {
        assert spans[id].ops + [] == spans[id].ops;
      }
    }

    /** Lines 219-247. */
    method StartRequestSpan(line: RequestLine, data: string) returns (id: nat)
      modifies this`spans
      ensures id == |old(spans)|
      ensures State() == Emit(StartSpan(old(State()), line), id, RequestOps(cfg, line, data))
    {
      var headers := ParseRequestHeaders(data);
      id := |spans|;
      spans := spans + [Span(line.meth + " " + line.path, [])];
      Record(id, SetText("http.request.method", line.meth));
      Record(id, SetText("url.path", line.path));
      Record(id, SetNumber("http.request.body.size", |data|));
      Record(id, SetText("server.address", cfg.address));
      Record(id, SetNumber("server.port", cfg.port));
      assert spans[id].ops == [SetText("http.request.method", line.meth), SetText("url.path", line.path),
        SetNumber("http.request.body.size", |data|),
        SetText("server.address", cfg.address), SetNumber("server.port", cfg.port)];
      RecordHeader(id, headers, "user-agent", "http.request.header.user_agent");
      RecordHeader(id, headers, "x-request-id", "http.request.header.x_request_id");
      Record(id, AddEvent("Request received"));
      assert spans[id].ops == RequestOps(cfg, line, data) == [] + RequestOps(cfg, line, data);
      assert spans == (old(spans) + [Span(SpanName(line), [])])
                        [id := Span(SpanName(line), RequestOps(cfg, line, data))];
    }

    /** `data` is what the real read put in the client's buffer; a failed read has result <= 0. */
    method Read(fd: int, count: nat, result: int, data: string) returns (bytes: int)
      requires Valid() && (result > 0 ==> result == |data|)
      modifies this`spans, this`fdSpanMap, this`calls
      ensures Valid() && bytes == result && calls == old(calls) + [RealRead(fd, count)]
      ensures State() == if result > 0 && cfg.tracing then AfterRead(cfg, old(State()), fd, data) else old(State())
    {
      calls := calls + [RealRead(fd, count)];
      bytes := result;
      if bytes > 0 && cfg.tracing {
        var line := HttpLike(data);
        if line.Some? {
          var id := StartRequestSpan(line.value, data);
          fdSpanMap := fdSpanMap[fd := FdSpanContext(id, line.value.meth, line.value.path)];
        }
      }
    }

    method Write(fd: int, buf: string, result: int) returns (n: int)
      requires Valid() && result <= |buf|
      modifies this`spans, this`fdSpanMap, this`calls
      ensures Valid() && n == result && calls == old(calls) + [RealWrite(fd, buf)]
      ensures State() == if result > 0 && cfg.tracing then FinishWrite(old(State()), fd, buf, result) else old(State())
    {
      calls := calls + [RealWrite(fd, buf)];
      n := result;
      if n > 0 && cfg.tracing && fd in fdSpanMap {
        var id := fdSpanMap[fd].span;
        var ok, statusCode := ParseResponseStatus(buf, n);
        if ok {
          Record(id, SetNumber("http.response.status_code", statusCode));
          Record(id, SetNumber("http.response.body.size", n));
          if statusCode >= 400 {
            Record(id, SetError("HTTP " + Decimal(statusCode)));
          } else {
            Record(id, SetOk);
          }
        }
        Record(id, End);
        assert spans[id].ops == old(spans[fdSpanMap[fd].span]).ops + ResponseOps(buf, n);
        fdSpanMap := fdSpanMap - {fd};
      }
    }

    method Close(fd: int, answer: int) returns (result: int)
      requires Valid()
      modifies this`spans, this`fdSpanMap, this`calls
      ensures Valid() && result == answer && calls == old(calls) + [RealClose(fd)]
      ensures State() == FinishClose(old(State()), fd)
    {
      EndSpanForFd(fd);
      calls := calls + [RealClose(fd)];
      result := answer;
    }
  }
}
