// Any number of threads inside the hooks of roll-dice/preload_tracer.cpp. A section
// under fd_span_mutex is one move; real calls, parsing and span construction are
// moves of their own, so threads interleave everywhere the code lets them.
module TracedThreads {
  import opened HttpText
  import opened RequestParsing
  import opened ResponseParsing
  import opened SpanTable

  // ---- The kernel and the client -------------------------------------------------

  datatype Completed = Completed(t: nat, call: RealCall, result: int, data: string)

  /** What a program without the library can observe: descriptors that are open, the
      real calls with their answers, and what each hook returned to its caller. */
  datatype World = World(open: set<int>, calls: seq<Completed>, returned: seq<(nat, int)>)

  /** Any answer a descriptor table allows; a call may also fail. A close that fails has
      released the descriptor all the same, unless an `Open` of it follows. */
  predicate KernelMay(w: World, call: RealCall, result: int, data: string) {
    match call
    case RealAccept(_) => result == -1 || (result >= 0 && result !in w.open)
    case RealRead(fd, count) =>
      if result > 0 then fd in w.open && result == |data| <= count else result >= -1 && data == ""
    case RealWrite(fd, buf) => -1 <= result <= |buf| && (result > 0 ==> fd in w.open)
    case RealClose(fd) => result == -1 || (result == 0 && fd in w.open)
  }

  function KernelDoes(w: World, t: nat, call: RealCall, result: int, data: string): World {
    var open :=
      match call
      case RealAccept(_) => if result == -1 then w.open else w.open + {result}
      case RealClose(fd) => w.open - {fd}
      case _ => w.open;
    w.(open := open, calls := w.calls + [Completed(t, call, result, data)])
  }

  // ---- The hooks -------------------------------------------------------------------

  datatype Pc =
    | Idle
    | Calling(call: RealCall)                                 // about to make the real call
    | CloseLock(fd: int)                                      // close: lines 125-130
    | ReadParse(fd: int, data: string)                        // read: lines 208-218
    | ReadStart(fd: int, data: string, line: RequestLine)     // read: line 233
    | ReadAnnotate(fd: int, data: string, ctx: FdSpanContext) // read: lines 235-247
    | ReadStore(fd: int, data: string, ctx: FdSpanContext)    // read: lines 250-251
    | WriteLock(fd: int, buf: string, n: nat)                 // write: lines 264-278
    | AcceptSpan(clientFd: nat)                               // accept: lines 189-196
    | Returning(result: int)

  /** Where a request span is. */
  datatype Custody =
    | HeldBy(t: nat)                        // started by a read that has not stored it yet
    | StoredUnder(fd: int)
    | EndedByWrite(buf: string, n: nat)
    | EndedByClose
    | Replaced                              // overwritten by a later read, End never called

  /** The read a span comes from; `at` is the position of its real call in World.calls. */
  datatype Origin = Origin(fd: int, data: string, at: nat)

  /** What happened under the lock, in lock order. */
  datatype LockEvent =
    | DidStore(fd: int, data: string, ctx: FdSpanContext, replaced: Option<nat>)
    | DidWrite(fd: int, hit: Option<nat>)
    | DidClose(fd: int, hit: Option<nat>)

  /** `owner`, `origin` and `log` are history: no move looks at them. */
  datatype State = State(world: World, pcs: seq<Pc>, table: Table, accepted: seq<Span>,
                         owner: seq<Custody>, origin: seq<Origin>, log: seq<LockEvent>)

  function Start(n: nat, open: set<int>): State {
    State(World(open, [], []), seq(n, i => Idle), Table([], map[]), [], [], [], [])
  }

  datatype Move =
    | Call(t: nat, call: RealCall)                    // the client calls a hook
    | Answer(t: nat, result: int, data: string)       // the kernel completes t's real call
    | Work(t: nat)                                    // t takes a step of its own inside a hook
    | Return(t: nat)                                  // the hook returns
    | Open(fd: int)                                   // a descriptor opens without these hooks

  /** The position of the last real call t has completed. */
  function LastCall(calls: seq<Completed>, t: nat): (k: nat)
    ensures k <= |calls|
  {
    if calls == [] then 0
    else if calls[|calls| - 1].t == t then |calls| - 1
    else LastCall(calls[..|calls| - 1], t)
  }

  function At(s: State, t: nat, pc: Pc): State
    requires t < |s.pcs|
  {
    s.(pcs := s.pcs[t := pc])
  }

  function Hit(t: Table, fd: int): Option<nat> {
    if fd in t.fdMap then Some(t.fdMap[fd].span) else None
  }

  function Owned(owner: seq<Custody>, id: Option<nat>, c: Custody): seq<Custody>
    requires id.Some? ==> id.value < |owner|
  {
    if id.Some? then owner[id.value := c] else owner
  }

  function AfterAnswer(cfg: Config, w: World, call: RealCall, result: int, data: string): Pc
    requires KernelMay(w, call, result, data)
  {
    match call
    case RealRead(fd, _) => if result > 0 && cfg.tracing then ReadParse(fd, data) else Returning(result)
    case RealWrite(fd, buf) => if result > 0 && cfg.tracing then WriteLock(fd, buf, result) else Returning(result)
    case RealAccept(_) => if result != -1 && cfg.tracing then AcceptSpan(result) else Returning(result)
    case RealClose(_) => Returning(result)
  }

  ghost predicate Sane(s: State) {
    && Pointing(s.table)
    && |s.owner| == |s.origin| == |s.table.spans|
    && forall t :: 0 <= t < |s.pcs| ==>
         match s.pcs[t]
         case ReadAnnotate(_, _, ctx) => ctx.span < |s.table.spans|
         case ReadStore(_, _, ctx) => ctx.span < |s.table.spans|
         case WriteLock(_, buf, n) => n <= |buf|
         case _ => true
  }

  function Apply(cfg: Config, s: State, m: Move): State
    requires Sane(s)
  {
    match m
    case Open(fd) => s.(world := s.world.(open := s.world.open + {fd}))
    case Call(t, call) =>
      if t < |s.pcs| && s.pcs[t].Idle? then
        At(s, t, if call.RealClose? then CloseLock(call.fd) else Calling(call))
      else s
    case Answer(t, result, data) =>
      if t < |s.pcs| && s.pcs[t].Calling? && KernelMay(s.world, s.pcs[t].call, result, data) then
        At(s, t, AfterAnswer(cfg, s.world, s.pcs[t].call, result, data))
          .(world := KernelDoes(s.world, t, s.pcs[t].call, result, data))
      else s
    case Return(t) =>
      if t < |s.pcs| && s.pcs[t].Returning? then
        At(s, t, Idle).(world := s.world.(returned := s.world.returned + [(t, s.pcs[t].result)]))
      else s
    case Work(t) => if t < |s.pcs| then DoWork(cfg, s, t) else s
  }

  function DoWork(cfg: Config, s: State, t: nat): State
    requires Sane(s) && t < |s.pcs|
  {
    match s.pcs[t]
    case ReadParse(fd, data) =>
      (match Gate(data)
       case None => At(s, t, Returning(|data|))
       case Some(line) => At(s, t, ReadStart(fd, data, line)))
    case ReadStart(fd, data, line) =>
      var id := |s.table.spans|;
      At(s, t, ReadAnnotate(fd, data, FdSpanContext(id, line.meth, line.path)))
        .(table := StartSpan(s.table, line),
          owner := s.owner + [HeldBy(t)],
          origin := s.origin + [Origin(fd, data, LastCall(s.world.calls, t))])
    case ReadAnnotate(fd, data, ctx) =>
      At(s, t, ReadStore(fd, data, ctx))
        .(table := Emit(s.table, ctx.span, RequestOps(cfg, RequestLine(ctx.meth, ctx.path), data)))
    case ReadStore(fd, data, ctx) =>
      var old' := Hit(s.table, fd);
      At(s, t, Returning(|data|))
        .(table := Store(s.table, fd, ctx),
          owner := Owned(s.owner, old', Replaced)[ctx.span := StoredUnder(fd)],
          log := s.log + [DidStore(fd, data, ctx, old')])
    case WriteLock(fd, buf, n) =>
      var hit := Hit(s.table, fd);
      At(s, t, Returning(n))
        .(table := FinishWrite(s.table, fd, buf, n),
          owner := Owned(s.owner, hit, EndedByWrite(buf, n)),
          log := s.log + [DidWrite(fd, hit)])
    case CloseLock(fd) =>
      var hit := Hit(s.table, fd);
      At(s, t, Calling(RealClose(fd)))
        .(table := FinishClose(s.table, fd),
          owner := Owned(s.owner, hit, EndedByClose),
          log := s.log + [DidClose(fd, hit)])
    case AcceptSpan(fd) =>
      At(s, t, Returning(fd)).(accepted := s.accepted + [Span("HTTP accept", AcceptOps(cfg, fd))])
    case Idle => s
    case Calling(_) => s
    case Returning(_) => s
  }

  // ---- Custody ---------------------------------------------------------------------

  function LineOf(ctx: FdSpanContext): RequestLine {
    RequestLine(ctx.meth, ctx.path)
  }

  /** What a thread's program counter promises about the span it holds. */
  ghost predicate ThreadInv(s: State, t: nat)
    requires Sane(s) && t < |s.pcs|
  {
    match s.pcs[t]
    case ReadStart(fd, data, line) => Gate(data) == Some(line)
    case ReadAnnotate(fd, data, ctx) => Holds(s, t, fd, data, ctx)
    case ReadStore(fd, data, ctx) => Holds(s, t, fd, data, ctx)
    case _ => true
  }

  ghost predicate Holds(s: State, t: nat, fd: int, data: string, ctx: FdSpanContext)
    requires Sane(s)
  {
    && ctx.span < |s.table.spans|
    && s.owner[ctx.span] == HeldBy(t)
    && s.origin[ctx.span].fd == fd && s.origin[ctx.span].data == data
    && Gate(data) == Some(LineOf(ctx))
  }

  /** The context a span's read built for it. */
  function ContextOf(s: State, id: nat): FdSpanContext
    requires id < |s.origin| && Gate(s.origin[id].data).Some?
  {
    var line := Gate(s.origin[id].data).value;
    FdSpanContext(id, line.meth, line.path)
  }

  /** A span's complete story: where it is and every operation it has received. */
  ghost predicate SpanInv(cfg: Config, s: State, id: nat)
    requires Sane(s) && id < |s.table.spans|
  {
    var o := s.origin[id];
    Gate(o.data).Some? &&
    var line := Gate(o.data).value;
    var request := RequestOps(cfg, line, o.data);
    var span := s.table.spans[id];
    span.name == SpanName(line) &&
    match s.owner[id]
    case HeldBy(t) =>
      && t < |s.pcs|
      && ((s.pcs[t] == ReadAnnotate(o.fd, o.data, ContextOf(s, id)) && span.ops == [])
          || (s.pcs[t] == ReadStore(o.fd, o.data, ContextOf(s, id)) && span.ops == request))
    case StoredUnder(fd) =>
      fd == o.fd && fd in s.table.fdMap && s.table.fdMap[fd] == ContextOf(s, id) && span.ops == request
    case EndedByWrite(buf, n) => n <= |buf| && span.ops == request + ResponseOps(buf, n)
    case EndedByClose => span.ops == request + [End]
    case Replaced => span.ops == request
  }

  ghost predicate FdInv(s: State, fd: int)
    requires Sane(s)
  {
    fd in s.table.fdMap ==> s.owner[s.table.fdMap[fd].span] == StoredUnder(fd)
  }

  ghost predicate Inv(cfg: Config, s: State) {
    && Sane(s)
    && (forall t :: 0 <= t < |s.pcs| ==> ThreadInv(s, t))
    && (forall id :: 0 <= id < |s.table.spans| ==> SpanInv(cfg, s, id))
    && (forall fd :: fd in s.table.fdMap ==> FdInv(s, fd))
  }

  lemma StartInv(cfg: Config, n: nat, open: set<int>)
    ensures Inv(cfg, Start(n, open))
  {}

  lemma StoreInv(cfg: Config, s: State, t: nat)
    requires Inv(cfg, s) && t < |s.pcs| && s.pcs[t].ReadStore?
    ensures Inv(cfg, DoWork(cfg, s, t))
  {
    hide Gate, RequestOps, ResponseOps, LastCall;
    var s' := DoWork(cfg, s, t);
    var fd, ctx := s.pcs[t].fd, s.pcs[t].ctx;
    assert ThreadInv(s, t);
    assert SpanInv(cfg, s, ctx.span);
    if fd in s.table.fdMap {
      assert FdInv(s, fd) && SpanInv(cfg, s, s.table.fdMap[fd].span);
    }
    forall u | 0 <= u < |s'.pcs| ensures ThreadInv(s', u) {
      assert ThreadInv(s, u);
    }
    forall id | 0 <= id < |s'.table.spans| ensures SpanInv(cfg, s', id) {
      assert SpanInv(cfg, s, id);
    }
    forall g | g in s'.table.fdMap ensures FdInv(s', g) {
      if g != fd {
        assert FdInv(s, g);
      }
    }
  }

  lemma EndInv(cfg: Config, s: State, t: nat)
    requires Inv(cfg, s) && t < |s.pcs| && (s.pcs[t].WriteLock? || s.pcs[t].CloseLock?)
    ensures Inv(cfg, DoWork(cfg, s, t))
  {
    hide Gate, RequestOps, ResponseOps, LastCall;
    var s' := DoWork(cfg, s, t);
    var fd := s.pcs[t].fd;
    if fd in s.table.fdMap {
      assert FdInv(s, fd) && SpanInv(cfg, s, s.table.fdMap[fd].span);
    }
    forall u | 0 <= u < |s'.pcs| ensures ThreadInv(s', u) {
      assert ThreadInv(s, u);
    }
    forall id | 0 <= id < |s'.table.spans| ensures SpanInv(cfg, s', id) {
      assert SpanInv(cfg, s, id);
    }
    forall g | g in s'.table.fdMap ensures FdInv(s', g) {
      assert FdInv(s, g);
    }
  }

  lemma StartSpanInv(cfg: Config, s: State, t: nat)
    requires Inv(cfg, s) && t < |s.pcs| && s.pcs[t].ReadStart?
    ensures Inv(cfg, DoWork(cfg, s, t))
  {
    hide Gate, RequestOps, ResponseOps, LastCall;
    var s' := DoWork(cfg, s, t);
    assert ThreadInv(s, t);
    forall u | 0 <= u < |s'.pcs| ensures ThreadInv(s', u) {
      assert ThreadInv(s, u);
    }
    forall id | 0 <= id < |s'.table.spans| ensures SpanInv(cfg, s', id) {
      if id < |s.table.spans| {
        assert SpanInv(cfg, s, id);
      }
    }
    forall g | g in s'.table.fdMap ensures FdInv(s', g) {
      assert FdInv(s, g);
    }
  }

  lemma AnnotateInv(cfg: Config, s: State, t: nat)
    requires Inv(cfg, s) && t < |s.pcs| && s.pcs[t].ReadAnnotate?
    ensures Inv(cfg, DoWork(cfg, s, t))
  {
    hide Gate, RequestOps, ResponseOps, LastCall;
    var s' := DoWork(cfg, s, t);
    var fd, data, ctx := s.pcs[t].fd, s.pcs[t].data, s.pcs[t].ctx;
    assert ThreadInv(s, t);
    assert SpanInv(cfg, s, ctx.span);
    var request := RequestOps(cfg, LineOf(ctx), data);
    assert [] + request == request;
    forall u | 0 <= u < |s'.pcs| ensures ThreadInv(s', u) {
      assert ThreadInv(s, u);
    }
    forall id | 0 <= id < |s'.table.spans| ensures SpanInv(cfg, s', id) {
      assert SpanInv(cfg, s, id);
    }
    forall g | g in s'.table.fdMap ensures FdInv(s', g) {
      assert FdInv(s, g);
    }
  }

  /** The moves that touch neither the table nor a span in custody. */
  lemma QuietInv(cfg: Config, s: State, m: Move)
    requires Inv(cfg, s)
    requires m.Work? && m.t < |s.pcs| ==> s.pcs[m.t].ReadParse? || s.pcs[m.t].AcceptSpan?
                                          || s.pcs[m.t].Idle? || s.pcs[m.t].Calling? || s.pcs[m.t].Returning?
    ensures Inv(cfg, Apply(cfg, s, m))
  {
    hide Gate, RequestOps, ResponseOps, LastCall;
    var s' := Apply(cfg, s, m);
    forall u | 0 <= u < |s'.pcs| ensures ThreadInv(s', u) {
      assert ThreadInv(s, u);
    }
    forall id | 0 <= id < |s'.table.spans| ensures SpanInv(cfg, s', id) {
      assert SpanInv(cfg, s, id);
    }
    forall g | g in s'.table.fdMap ensures FdInv(s', g) {
      assert FdInv(s, g);
    }
  }

  lemma ApplyInv(cfg: Config, s: State, m: Move)
    requires Inv(cfg, s)
    ensures Inv(cfg, Apply(cfg, s, m))
  {
    if m.Work? && m.t < |s.pcs| {
      match s.pcs[m.t]
      case ReadStart(_, _, _) => StartSpanInv(cfg, s, m.t);
      case ReadAnnotate(_, _, _) => AnnotateInv(cfg, s, m.t);
      case ReadStore(_, _, _) => StoreInv(cfg, s, m.t);
      case WriteLock(_, _, _) => EndInv(cfg, s, m.t);
      case CloseLock(_) => EndInv(cfg, s, m.t);
      case _ => QuietInv(cfg, s, m);
    } else {
      QuietInv(cfg, s, m);
    }
  }

  /** A run: the states a sequence of moves leads to all satisfy the invariant. */
  function Run(cfg: Config, s: State, moves: seq<Move>): (s': State)
    requires Inv(cfg, s)
    ensures Inv(cfg, s')
    decreases |moves|
  {
    if moves == [] then s
    else
      ApplyInv(cfg, s, moves[0]);
      Run(cfg, Apply(cfg, s, moves[0]), moves[1..])
  }

  lemma {:induction false} RunAppend(cfg: Config, s: State, a: seq<Move>, b: seq<Move>)
    requires Inv(cfg, s)
    ensures Run(cfg, s, a + b) == Run(cfg, Run(cfg, s, a), b)
    decreases |a|
  {
    if a == [] {
      assert a + b == b;
    } else {
      ApplyInv(cfg, s, a[0]);
      assert (a + b)[0] == a[0] && (a + b)[1..] == a[1..] + b;
      RunAppend(cfg, Apply(cfg, s, a[0]), a[1..], b);
    }
  }

  lemma RunSnoc(cfg: Config, s: State, moves: seq<Move>, m: Move)
    requires Inv(cfg, s)
    ensures Run(cfg, s, moves + [m]) == Apply(cfg, Run(cfg, s, moves), m)
  {
    RunAppend(cfg, s, moves, [m]);
    var s' := Run(cfg, s, moves);
    ApplyInv(cfg, s', m);
    assert Run(cfg, Apply(cfg, s', m), [m][1..]) == Apply(cfg, s', m);
  }

  /** Where n threads get to from an empty table. */
  function Reached(cfg: Config, n: nat, open: set<int>, moves: seq<Move>): (s: State)
    ensures Inv(cfg, s)
  {
    StartInv(cfg, n, open);
    Run(cfg, Start(n, open), moves)
  }

  /** The state before each move of a run leads to the one after it. */
  lemma NextReached(cfg: Config, n: nat, open: set<int>, moves: seq<Move>, k: nat)
    requires k < |moves|
    ensures Reached(cfg, n, open, moves[..k + 1]) == Apply(cfg, Reached(cfg, n, open, moves[..k]), moves[k])
  {
    StartInv(cfg, n, open);
    assert moves[..k + 1] == moves[..k] + [moves[k]];
    RunSnoc(cfg, Start(n, open), moves[..k], moves[k]);
  }
}
