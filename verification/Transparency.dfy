// The hooks of roll-dice/preload_tracer.cpp against the calls they stand in for.
module Transparency {
  import opened HttpText
  import opened RequestParsing
  import opened SpanTable
  import opened TracedThreads

  /** A thread of the same program without the library. */
  datatype PlainPc = PlainIdle | PlainCalling(call: RealCall) | PlainReturning(result: int)

  datatype Plain = Plain(world: World, pcs: seq<PlainPc>)

  function PlainStart(n: nat, open: set<int>): Plain {
    Plain(World(open, [], []), seq(n, i => PlainIdle))
  }

  function PlainApply(p: Plain, m: Move): Plain {
    match m
    case Open(fd) => p.(world := p.world.(open := p.world.open + {fd}))
    case Call(t, call) =>
      if t < |p.pcs| && p.pcs[t].PlainIdle? then p.(pcs := p.pcs[t := PlainCalling(call)]) else p
    case Answer(t, result, data) =>
      if t < |p.pcs| && p.pcs[t].PlainCalling? && KernelMay(p.world, p.pcs[t].call, result, data) then
        Plain(KernelDoes(p.world, t, p.pcs[t].call, result, data), p.pcs[t := PlainReturning(result)])
      else p
    case Return(t) =>
      if t < |p.pcs| && p.pcs[t].PlainReturning? then
        Plain(p.world.(returned := p.world.returned + [(t, p.pcs[t].result)]), p.pcs[t := PlainIdle])
      else p
    case Work(_) => p
  }

  function PlainRun(p: Plain, moves: seq<Move>): Plain
    decreases |moves|
  {
    if moves == [] then p else PlainRun(PlainApply(p, moves[0]), moves[1..])
  }

  /** What a hook's position looks like from outside. */
  function Seen(pc: Pc): PlainPc {
    match pc
    case Idle => PlainIdle
    case Calling(call) => PlainCalling(call)
    case CloseLock(fd) => PlainCalling(RealClose(fd))
    case ReadParse(_, data) => PlainReturning(|data|)
    case ReadStart(_, data, _) => PlainReturning(|data|)
    case ReadAnnotate(_, data, _) => PlainReturning(|data|)
    case ReadStore(_, data, _) => PlainReturning(|data|)
    case WriteLock(_, _, n) => PlainReturning(n)
    case AcceptSpan(fd) => PlainReturning(fd)
    case Returning(result) => PlainReturning(result)
  }

  function Outside(s: State): Plain {
    Plain(s.world, seq(|s.pcs|, i requires 0 <= i < |s.pcs| => Seen(s.pcs[i])))
  }

  /** Moves that reach beyond the hook: calls, kernel answers to real calls, returns. */
  predicate Visible(s: State, m: Move) {
    match m
    case Open(_) => true
    case Call(t, _) => t < |s.pcs| && s.pcs[t].Idle?
    case Answer(t, _, _) => t < |s.pcs| && s.pcs[t].Calling?
    case Return(t) => t < |s.pcs| && s.pcs[t].Returning?
    case Work(_) => false
  }

  lemma OutsideUpdate(s: State, s': State, t: nat)
    requires t < |s.pcs| == |s'.pcs| && s'.pcs == s.pcs[t := s'.pcs[t]]
    ensures Outside(s').pcs == Outside(s).pcs[t := Seen(s'.pcs[t])]
  {}

  /** Each move of the hooked program is one move of the plain program, or none. */
  lemma ApplySimulates(cfg: Config, s: State, m: Move)
    requires Inv(cfg, s)
    ensures Outside(Apply(cfg, s, m)) == if Visible(s, m) then PlainApply(Outside(s), m) else Outside(s)
  {
    hide Gate, RequestOps, ResponseOps, LastCall;
    var s' := Apply(cfg, s, m);
    if !m.Open? && m.t < |s.pcs| {
      OutsideUpdate(s, s', m.t);
      assert Outside(s).pcs[m.t := Seen(s.pcs[m.t])] == Outside(s).pcs;
    }
  }

  function VisibleMoves(cfg: Config, s: State, moves: seq<Move>): seq<Move>
    requires Inv(cfg, s)
    decreases |moves|
  {
    if moves == [] then []
    else
      ApplyInv(cfg, s, moves[0]);
      (if Visible(s, moves[0]) then [moves[0]] else []) + VisibleMoves(cfg, Apply(cfg, s, moves[0]), moves[1..])
  }

  lemma {:induction false} RunSimulates(cfg: Config, s: State, moves: seq<Move>)
    requires Inv(cfg, s)
    ensures Outside(Run(cfg, s, moves)) == PlainRun(Outside(s), VisibleMoves(cfg, s, moves))
    decreases |moves|
  {
    if moves != [] {
      var m := moves[0];
      ApplyInv(cfg, s, m);
      ApplySimulates(cfg, s, m);
      var s' := Apply(cfg, s, m);
      RunSimulates(cfg, s', moves[1..]);
      var rest := VisibleMoves(cfg, s', moves[1..]);
      if Visible(s, m) {
        assert ([m] + rest)[1..] == rest;
      } else {
        assert [] + rest == rest;
      }
    }
  }

  // ---- Hooks always get out ------------------------------------------------------

  /** Steps of its own a hook still has to take before it reaches the kernel or returns. */
  function Inside(pc: Pc): nat {
    match pc
    case ReadParse(_, _) => 4
    case ReadStart(_, _, _) => 3
    case ReadAnnotate(_, _, _) => 2
    case ReadStore(_, _, _) => 1
    case WriteLock(_, _, _) => 1
    case CloseLock(_) => 1
    case AcceptSpan(_) => 1
    case _ => 0
  }

  lemma WorkGetsOut(cfg: Config, s: State, t: nat)
    requires Inv(cfg, s) && t < |s.pcs|
    ensures
      var s' := Apply(cfg, s, Work(t));
      && (Inside(s.pcs[t]) > 0 ==> Inside(s'.pcs[t]) < Inside(s.pcs[t]))
      && (Inside(s.pcs[t]) == 0 ==> s' == s)
  {
    hide Gate, RequestOps, ResponseOps, LastCall;
  }

  /** Letting thread t work until it is at the kernel, at its return, or idle. */
  lemma {:induction false} Settle(cfg: Config, s: State, t: nat) returns (works: seq<Move>)
    requires Inv(cfg, s) && t < |s.pcs|
    ensures
      var s' := Run(cfg, s, works);
      Outside(s') == Outside(s) && |s'.pcs| == |s.pcs| && Inside(s'.pcs[t]) == 0
    decreases Inside(s.pcs[t])
  {
    if Inside(s.pcs[t]) == 0 {
      works := [];
    } else {
      WorkGetsOut(cfg, s, t);
      ApplyInv(cfg, s, Work(t));
      ApplySimulates(cfg, s, Work(t));
      assert |Outside(Apply(cfg, s, Work(t))).pcs| == |Outside(s).pcs|;
      var rest := Settle(cfg, Apply(cfg, s, Work(t)), t);
      works := [Work(t)] + rest;
      assert works[1..] == rest;
    }
  }

  /** A move of the plain program can always be followed by the hooked one. */
  lemma FollowOne(cfg: Config, s: State, m: Move) returns (moves: seq<Move>)
    requires Inv(cfg, s)
    ensures Outside(Run(cfg, s, moves)) == PlainApply(Outside(s), m)
  {
    if m.Work? || (!m.Open? && m.t >= |s.pcs|) {
      moves := [];
    } else {
      var works := [];
      if !m.Open? {
        works := Settle(cfg, s, m.t);
      }
      var s' := Run(cfg, s, works);
      assert |Outside(s').pcs| == |Outside(s).pcs|;
      ApplySimulates(cfg, s', m);
      RunAppend(cfg, s, works, [m]);
      moves := works + [m];
      ApplyInv(cfg, s', m);
      assert Run(cfg, s', [m]) == Apply(cfg, s', m);
      if !Visible(s', m) {
        InvisibleIsIdle(s', m);
      }
    }
  }

  lemma InvisibleIsIdle(s: State, m: Move)
    requires !Visible(s, m) && !m.Work? && !m.Open? && m.t < |s.pcs| && Inside(s.pcs[m.t]) == 0
    ensures PlainApply(Outside(s), m) == Outside(s)
  {
    assert Outside(s).pcs[m.t] == Seen(s.pcs[m.t]);
  }

  lemma {:induction false} Follow(cfg: Config, s: State, plain: seq<Move>) returns (moves: seq<Move>)
    requires Inv(cfg, s)
    ensures Outside(Run(cfg, s, moves)) == PlainRun(Outside(s), plain)
    decreases |plain|
  {
    if plain == [] {
      moves := [];
    } else {
      var one := FollowOne(cfg, s, plain[0]);
      var rest := Follow(cfg, Run(cfg, s, one), plain[1..]);
      RunAppend(cfg, s, one, rest);
      moves := one + rest;
    }
  }

  /** Tracing is transparent: on or off, whatever is in the span table, the hooked program
      can be seen doing exactly what the program without the library can be seen doing —
      the same real calls with the same arguments and answers, the same returns. */
  lemma HooksAreTransparent(cfg: Config, n: nat, open: set<int>, p: Plain)
    ensures (exists moves :: Outside(Reached(cfg, n, open, moves)) == p)
       <==> (exists plain :: PlainRun(PlainStart(n, open), plain) == p)
  {
    var s0 := Start(n, open);
    StartInv(cfg, n, open);
    assert Outside(s0) == PlainStart(n, open);
    if exists moves :: Outside(Reached(cfg, n, open, moves)) == p {
      var moves :| Outside(Reached(cfg, n, open, moves)) == p;
      RunSimulates(cfg, s0, moves);
      assert PlainRun(PlainStart(n, open), VisibleMoves(cfg, s0, moves)) == p;
    }
    if exists plain :: PlainRun(PlainStart(n, open), plain) == p {
      var plain :| PlainRun(PlainStart(n, open), plain) == p;
      var moves := Follow(cfg, s0, plain);
      assert Outside(Reached(cfg, n, open, moves)) == p;
    }
  }
}
