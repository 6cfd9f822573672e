// One hook called with no other thread in between: the moves of TracedThreads add up to
// what the hooks of SpanTable do to the table in one call.
module SoloHooks {
  import opened HttpText
  import opened RequestParsing
  import opened SpanTable
  import opened TracedThreads
  import opened SpanHistory
  import opened SpanCustody

  // ---- Thread t is idle again, and only the table, the log and the world have changed ---

  /** The moves of a whole `read`. Steps a hook does not need do nothing. */
  function ReadMoves(t: nat, fd: int, count: nat, result: int, data: string): seq<Move> {
    [Call(t, RealRead(fd, count)), Answer(t, result, data)] + [Work(t), Work(t), Work(t), Work(t)] + [Return(t)]
  }

  function WriteMoves(t: nat, fd: int, buf: string, result: int): seq<Move> {
    [Call(t, RealWrite(fd, buf)), Answer(t, result, ""), Work(t), Return(t)]
  }

  function CloseMoves(t: nat, fd: int, answer: int): seq<Move> {
    [Call(t, RealClose(fd)), Work(t), Answer(t, answer, ""), Return(t)]
  }

  function AcceptMoves(t: nat, sockfd: int, answer: int): seq<Move> {
    [Call(t, RealAccept(sockfd)), Answer(t, answer, ""), Work(t), Return(t)]
  }

  lemma RunCons(cfg: Config, s: State, m: Move, rest: seq<Move>)
    requires Inv(cfg, s)
    ensures Inv(cfg, Apply(cfg, s, m)) && Run(cfg, s, [m] + rest) == Run(cfg, Apply(cfg, s, m), rest)
  {
    ApplyInv(cfg, s, m);
    assert ([m] + rest)[1..] == rest;
  }

  lemma RunFour(cfg: Config, s: State, a: Move, b: Move, c: Move, d: Move)
    requires Inv(cfg, s)
    ensures
      var s1 := Apply(cfg, s, a);
      Inv(cfg, s1) &&
      var s2 := Apply(cfg, s1, b);
      Inv(cfg, s2) &&
      var s3 := Apply(cfg, s2, c);
      Inv(cfg, s3) && Run(cfg, s, [a, b, c, d]) == Apply(cfg, s3, d)
  {
    RunCons(cfg, s, a, [b, c, d]);
    RunCons(cfg, Apply(cfg, s, a), b, [c, d]);
    RunCons(cfg, Apply(cfg, Apply(cfg, s, a), b), c, [d]);
    RunCons(cfg, Apply(cfg, Apply(cfg, Apply(cfg, s, a), b), c), d, []);
    assert [a] + [b, c, d] == [a, b, c, d] && [b] + [c, d] == [b, c, d] && [c] + [d] == [c, d] && [d] + [] == [d];
    hide Apply, Inv;
  }

  /** What happens under the lock when a read delivers `data`. */
  function ReadEvents(s: State, fd: int, data: string): seq<LockEvent> {
    match Gate(data)
    case None => []
    case Some(line) => [DidStore(fd, data, FdSpanContext(|s.table.spans|, line.meth, line.path), Hit(s.table, fd))]
  }

  lemma RunTwo(cfg: Config, s: State, a: Move, b: Move)
    requires Inv(cfg, s)
    ensures Inv(cfg, Apply(cfg, s, a)) && Run(cfg, s, [a, b]) == Apply(cfg, Apply(cfg, s, a), b)
  {
    RunCons(cfg, s, a, [b]);
    RunCons(cfg, Apply(cfg, s, a), b, []);
    assert [a] + [b] == [a, b] && [b] + [] == [b];
    hide Apply, Inv;
  }

  /** The first two steps of `read` after the real read: the gate, and the span's start. */
  lemma SoloStart(cfg: Config, s: State, t: nat, fd: int, data: string)
    requires Inv(cfg, s) && t < |s.pcs| && s.pcs[t] == ReadParse(fd, data)
    ensures
      var s' := Run(cfg, s, [Work(t), Work(t)]);
      && s'.world == s.world && s'.accepted == s.accepted && s'.log == s.log
      && match Gate(data)
         case None => s'.pcs == s.pcs[t := Returning(|data|)] && s'.table == s.table
         case Some(line) =>
           && s'.pcs == s.pcs[t := ReadAnnotate(fd, data, FdSpanContext(|s.table.spans|, line.meth, line.path))]
           && s'.table == StartSpan(s.table, line)
  {
    hide Gate, RequestOps, ResponseOps, LastCall, ThreadInv, SpanInv, FdInv;
    RunTwo(cfg, s, Work(t), Work(t));
  }

  /** The last two: what it says about the request, and the store. */
  lemma SoloStore(cfg: Config, s: State, t: nat, fd: int, data: string, ctx: FdSpanContext)
    requires Inv(cfg, s) && t < |s.pcs| && s.pcs[t] == ReadAnnotate(fd, data, ctx) && ctx.span < |s.table.spans|
    ensures
      var s' := Run(cfg, s, [Work(t), Work(t)]);
      && s'.world == s.world && s'.accepted == s.accepted && s'.pcs == s.pcs[t := Returning(|data|)]
      && s'.table == Store(Emit(s.table, ctx.span, RequestOps(cfg, LineOf(ctx), data)), fd, ctx)
      && s'.log == s.log + [DidStore(fd, data, ctx, Hit(s.table, fd))]
  {
    hide Gate, RequestOps, ResponseOps, LastCall, ThreadInv, SpanInv, FdInv;
    RunTwo(cfg, s, Work(t), Work(t));
  }

  /** The steps of `read` between the real read and the return. */
  lemma SoloParse(cfg: Config, s: State, t: nat, fd: int, data: string)
    requires Inv(cfg, s) && t < |s.pcs| && s.pcs[t] == ReadParse(fd, data)
    ensures
      var s' := Run(cfg, s, [Work(t), Work(t), Work(t), Work(t)]);
      && s'.pcs == s.pcs[t := Returning(|data|)] && s'.world == s.world && s'.accepted == s.accepted
      && s'.table == AfterRead(cfg, s.table, fd, data)
      && s'.log == s.log + ReadEvents(s, fd, data)
  {
    hide Gate, RequestOps, Inv, Run;
    var two := [Work(t), Work(t)];
    assert two + two == [Work(t), Work(t), Work(t), Work(t)];
    RunAppend(cfg, s, two, two);
    SoloStart(cfg, s, t, fd, data);
    var s1 := Run(cfg, s, two);
    match Gate(data)
    case None => NoWork(cfg, s1, t);
    case Some(line) => SoloStore(cfg, s1, t, fd, data, s1.pcs[t].ctx);
  }

  /** `read` alone is SpanTable's AfterRead, or nothing. */
  lemma SoloRead(cfg: Config, s: State, t: nat, fd: int, count: nat, result: int, data: string)
    requires Inv(cfg, s) && t < |s.pcs| && s.pcs[t] == Idle
    requires KernelMay(s.world, RealRead(fd, count), result, data)
    ensures
      var s' := Run(cfg, s, ReadMoves(t, fd, count, result, data));
      && s'.pcs == s.pcs && s'.world.open == s.world.open && s'.accepted == s.accepted
      && s'.table == (if result > 0 && cfg.tracing then AfterRead(cfg, s.table, fd, data) else s.table)
      && s'.log == s.log + (if result > 0 && cfg.tracing then ReadEvents(s, fd, data) else [])
      && s'.world.calls == s.world.calls + [Completed(t, RealRead(fd, count), result, data)]
      && s'.world.returned == s.world.returned + [(t, result)]
  {
    var works := [Work(t), Work(t), Work(t), Work(t)];
    var before, after := [Call(t, RealRead(fd, count)), Answer(t, result, data)], works + [Return(t)];
    var s1 := Run(cfg, s, before);
    assert ReadMoves(t, fd, count, result, data) == before + after;
    RunAppend(cfg, s, before, after);
    RunSnoc(cfg, s1, works, Return(t));
    SoloAnswer(cfg, s, t, RealRead(fd, count), result, data);
    if result > 0 && cfg.tracing {
      SoloParse(cfg, s1, t, fd, data);
    } else {
      NoWorkAtAll(cfg, s1, t);
    }
    hide Run, Inv, Gate, AfterRead, ReadMoves;
  }

  /** A call and its answer, for the hooks that begin with the real call. */
  lemma SoloAnswer(cfg: Config, s: State, t: nat, call: RealCall, result: int, data: string)
    requires Inv(cfg, s) && t < |s.pcs| && s.pcs[t] == Idle && !call.RealClose?
    requires KernelMay(s.world, call, result, data)
    ensures
      Run(cfg, s, [Call(t, call), Answer(t, result, data)]) ==
        At(s, t, AfterAnswer(cfg, s.world, call, result, data)).(world := KernelDoes(s.world, t, call, result, data))
  {
    hide Gate, RequestOps, ResponseOps, LastCall;
    var m0, m1 := Call(t, call), Answer(t, result, data);
    RunCons(cfg, s, m0, [m1]);
    RunCons(cfg, Apply(cfg, s, m0), m1, []);
    assert [m0] + [m1] == [m0, m1] && [m1] + [] == [m1];
    assert s.pcs[t := Calling(call)][t := AfterAnswer(cfg, s.world, call, result, data)]
        == s.pcs[t := AfterAnswer(cfg, s.world, call, result, data)];
  }

  lemma NoWork(cfg: Config, s: State, t: nat)
    requires Inv(cfg, s) && t < |s.pcs| && s.pcs[t].Returning?
    ensures Run(cfg, s, [Work(t), Work(t)]) == s
  {
    RunTwo(cfg, s, Work(t), Work(t));
  }

  lemma NoWorkAtAll(cfg: Config, s: State, t: nat)
    requires Inv(cfg, s) && t < |s.pcs| && s.pcs[t].Returning?
    ensures Run(cfg, s, [Work(t), Work(t), Work(t), Work(t)]) == s
  {
    hide Inv, Run;
    var two := [Work(t), Work(t)];
    assert two + two == [Work(t), Work(t), Work(t), Work(t)];
    RunAppend(cfg, s, two, two);
    NoWork(cfg, s, t);
  }

  /** `write` alone is FinishWrite, or nothing. */
  lemma SoloWrite(cfg: Config, s: State, t: nat, fd: int, buf: string, result: int)
    requires Inv(cfg, s) && t < |s.pcs| && s.pcs[t] == Idle
    requires KernelMay(s.world, RealWrite(fd, buf), result, "")
    ensures
      var s' := Run(cfg, s, WriteMoves(t, fd, buf, result));
      && s'.pcs == s.pcs && s'.world.open == s.world.open && s'.accepted == s.accepted
      && s'.table == (if result > 0 && cfg.tracing then FinishWrite(s.table, fd, buf, result) else s.table)
      && s'.log == s.log + (if result > 0 && cfg.tracing then [DidWrite(fd, Hit(s.table, fd))] else [])
      && s'.world.calls == s.world.calls + [Completed(t, RealWrite(fd, buf), result, "")]
      && s'.world.returned == s.world.returned + [(t, result)]
  {
    hide Gate, RequestOps, ResponseOps, LastCall, FinishWrite, ThreadInv, SpanInv, FdInv;
    var before, after := [Call(t, RealWrite(fd, buf)), Answer(t, result, "")], [Work(t), Return(t)];
    assert WriteMoves(t, fd, buf, result) == before + after;
    RunAppend(cfg, s, before, after);
    SoloAnswer(cfg, s, t, RealWrite(fd, buf), result, "");
    RunTwo(cfg, Run(cfg, s, before), Work(t), Return(t));
  }

  /** `close` alone is FinishClose. */
  lemma SoloClose(cfg: Config, s: State, t: nat, fd: int, answer: int)
    requires Inv(cfg, s) && t < |s.pcs| && s.pcs[t] == Idle
    requires KernelMay(s.world, RealClose(fd), answer, "")
    ensures
      var s' := Run(cfg, s, CloseMoves(t, fd, answer));
      && s'.pcs == s.pcs && s'.world.open == s.world.open - {fd} && s'.accepted == s.accepted
      && s'.table == FinishClose(s.table, fd) && s'.log == s.log + [DidClose(fd, Hit(s.table, fd))]
      && s'.world.calls == s.world.calls + [Completed(t, RealClose(fd), answer, "")]
      && s'.world.returned == s.world.returned + [(t, answer)]
  {
    hide Gate, RequestOps, ResponseOps, LastCall, FinishClose, ThreadInv, SpanInv, FdInv;
    RunFour(cfg, s, Call(t, RealClose(fd)), Work(t), Answer(t, answer, ""), Return(t));
  }

  /** `accept` alone adds one finished span of its own when it succeeds with tracing on. */
  lemma SoloAccept(cfg: Config, s: State, t: nat, sockfd: int, answer: int)
    requires Inv(cfg, s) && t < |s.pcs| && s.pcs[t] == Idle
    requires KernelMay(s.world, RealAccept(sockfd), answer, "")
    ensures
      var s' := Run(cfg, s, AcceptMoves(t, sockfd, answer));
      && s'.pcs == s.pcs && s'.table == s.table && s'.log == s.log
      && s'.world.open == s.world.open + (if answer != -1 then {answer} else {})
      && s'.accepted == s.accepted +
           (if answer != -1 && cfg.tracing then [Span("HTTP accept", AcceptOps(cfg, answer))] else [])
      && s'.world.calls == s.world.calls + [Completed(t, RealAccept(sockfd), answer, "")]
      && s'.world.returned == s.world.returned + [(t, answer)]
  {
    hide Gate, RequestOps, ResponseOps, LastCall, AcceptOps, ThreadInv, SpanInv, FdInv;
    var before, after := [Call(t, RealAccept(sockfd)), Answer(t, answer, "")], [Work(t), Return(t)];
    assert AcceptMoves(t, sockfd, answer) == before + after;
    RunAppend(cfg, s, before, after);
    SoloAnswer(cfg, s, t, RealAccept(sockfd), answer, "");
    RunTwo(cfg, Run(cfg, s, before), Work(t), Return(t));
  }

  // ---- A span can be replaced ----------------------------------------------------------

  /** A read of a request, called alone. */
  function RequestMoves(data: string): seq<Move> {
    ReadMoves(0, 5, |data|, |data|, data)
  }

  lemma SoloRequest(cfg: Config, s: State, data: string)
    requires Inv(cfg, s) && s.pcs == [Idle] && 5 in s.world.open
    requires cfg.tracing && data != "" && Gate(data).Some?
    ensures
      var s' := Run(cfg, s, RequestMoves(data));
      && s'.pcs == [Idle] && s'.world.open == s.world.open
      && |s'.table.spans| == |s.table.spans| + 1
      && s'.table.fdMap.Keys == s.table.fdMap.Keys + {5} && s'.table.fdMap[5].span == |s.table.spans|
      && |s'.log| == |s.log| + 1 && s'.log[..|s.log|] == s.log
      && var e := s'.log[|s.log|]; e.DidStore? && e.fd == 5 && e.replaced == Hit(s.table, 5)
  {
    SoloRead(cfg, s, 0, 5, |data|, |data|, data);
    hide Run, Inv, Gate, ReadMoves, RequestOps;
  }

  /** Two reads on one connection with no write between them, then its close. */
  function TwoReadsMoves(first: string, second: string): seq<Move> {
    RequestMoves(first) + (RequestMoves(second) + CloseMoves(0, 5, 0))
  }

  ghost predicate TwoStoresThenClose(s: State) {
    && s.pcs == [Idle] && |s.table.spans| == 2 && s.table.fdMap == map[]
    && |s.log| == 3 && s.log[0].DidStore? && s.log[1].DidStore? && s.log[2] == DidClose(5, Some(1))
    && s.log[0].fd == s.log[1].fd == 5 && s.log[0].replaced == None && s.log[1].replaced == Some(0)
  }

  lemma SoloEnd(cfg: Config, s: State)
    requires Inv(cfg, s) && s.pcs == [Idle] && 5 in s.world.open && s.table.fdMap.Keys == {5}
    ensures
      var s' := Run(cfg, s, CloseMoves(0, 5, 0));
      && s'.pcs == [Idle] && |s'.table.spans| == |s.table.spans| && s'.table.fdMap == map[]
      && s'.log == s.log + [DidClose(5, Some(s.table.fdMap[5].span))]
  {
    SoloClose(cfg, s, 0, 5, 0);
    hide Run, CloseMoves;
  }

  ghost predicate OneStore(s: State) {
    && s.pcs == [Idle] && 5 in s.world.open && |s.table.spans| == 1
    && s.table.fdMap.Keys == {5} && s.table.fdMap[5].span == 0
    && |s.log| == 1 && s.log[0].DidStore? && s.log[0].fd == 5 && s.log[0].replaced == None
  }

  lemma FirstRead(cfg: Config, data: string)
    requires cfg.tracing && data != "" && Gate(data).Some?
    ensures OneStore(Reached(cfg, 1, {5}, RequestMoves(data)))
  {
    StartInv(cfg, 1, {5});
    assert Start(1, {5}).pcs == [Idle];
    SoloRequest(cfg, Start(1, {5}), data);
    hide Inv, Gate, RequestMoves, Run;
  }

  lemma SecondRead(cfg: Config, s: State, data: string)
    requires Inv(cfg, s) && OneStore(s) && cfg.tracing && data != "" && Gate(data).Some?
    ensures TwoStoresThenClose(Run(cfg, s, RequestMoves(data) + CloseMoves(0, 5, 0)))
  {
    SoloRequest(cfg, s, data);
    RunAppend(cfg, s, RequestMoves(data), CloseMoves(0, 5, 0));
    hide Inv, Gate, RequestMoves, CloseMoves, Run;
    var s' := Run(cfg, s, RequestMoves(data));
    assert s'.log[0] == s'.log[..|s.log|][0] == s.log[0];
    SoloEnd(cfg, s');
  }

  lemma TwoReads(cfg: Config, first: string, second: string)
    requires cfg.tracing && first != "" && second != "" && Gate(first).Some? && Gate(second).Some?
    ensures TwoStoresThenClose(Reached(cfg, 1, {5}, TwoReadsMoves(first, second)))
  {
    hide Gate, RequestMoves, CloseMoves, OneStore, TwoStoresThenClose, Inv;
    StartInv(cfg, 1, {5});
    FirstRead(cfg, first);
    SecondRead(cfg, Reached(cfg, 1, {5}, RequestMoves(first)), second);
    RunAppend(cfg, Start(1, {5}), RequestMoves(first), RequestMoves(second) + CloseMoves(0, 5, 0));
  }

  lemma {:induction false} AllOn(log: seq<LockEvent>, g: int, fd: int)
    requires forall k :: 0 <= k < |log| ==> log[k].fd == g
    ensures LastOn(log, fd) == if fd == g && log != [] then Some(log[|log| - 1]) else None
  {
    if log != [] && fd != g {
      AllOn(log[..|log| - 1], g, fd);
    }
  }

  lemma TwoStoresAreClosed(s: State)
    requires TwoStoresThenClose(s)
    ensures AllClosed(s)
  {
    forall fd ensures LastOn(s.log, fd).Some? ==> LastOn(s.log, fd).value.DidClose? {
      AllOn(s.log, 5, fd);
      hide LastOn;
    }
  }

  lemma TwoStoresReplaceOne(s: State)
    requires TwoStoresThenClose(s)
    ensures Overwritten(s, 0) && !Overwritten(s, 1) && !NothingReplaced(s.log)
    ensures forall id :: !Held(s, id) && !Stored(s, id)
  {
    assert s.log[1].replaced == Some(0);
  }

  /** Two requests read on one connection with no response written between them, then its
      close: everything is closed, but End was never called on the first one's span. */
  lemma SecondRequestReplaces(cfg: Config, first: string, second: string) returns (moves: seq<Move>)
    requires cfg.tracing && first != "" && second != "" && Gate(first).Some? && Gate(second).Some?
    ensures
      var s := Reached(cfg, 1, {5}, moves);
      && AllClosed(s) && s.table.fdMap == map[]
      && |s.table.spans| == 2 && Overwritten(s, 0) && !Ended(s, 0) && Ended(s, 1)
      && !Alternates(s.log) && !NothingReplaced(s.log)
  {
    moves := TwoReadsMoves(first, second);
    TwoReads(cfg, first, second);
    var s := Reached(cfg, 1, {5}, moves);
    TwoStoresAreClosed(s);
    TwoStoresReplaceOne(s);
    CustodyIsExclusive(cfg, 1, {5}, moves, 0);
    CustodyIsExclusive(cfg, 1, {5}, moves, 1);
    StartInv(cfg, 1, {5});
    RunHistory(cfg, Start(1, {5}), moves);
    ReplacementIsExact(s);
    hide Inv, Gate, HistoryInv, Run, TwoReadsMoves;
    hide Held, Stored, Overwritten, Ended, Alternates, NothingReplaced, AllClosed;
  }
}
