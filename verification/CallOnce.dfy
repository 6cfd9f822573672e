// One-time initialisation (absl/base/call_once.h): a control word stepped by any
// number of threads. A thread's program counter names its next shared-memory
// access, so every interleaving of those accesses is a sequence of moves.
module CallOnce {

  const ONCE_INIT: int := 0
  const ONCE_RUNNING: int := 0x65C2937B
  const ONCE_WAITER: int := 0x05A308D2
  const ONCE_DONE: int := 221

  datatype Transition = Transition(from: int, to: int, done: bool)

  const TRANS: seq<Transition> :=
    [Transition(ONCE_INIT, ONCE_RUNNING, true),
     Transition(ONCE_RUNNING, ONCE_WAITER, false),
     Transition(ONCE_DONE, ONCE_DONE, true)]

  /** The first row of the table that starts at `v`, or the table's length. */
  function FindRow(v: int): (row: nat)
    ensures row <= |TRANS|
  {
    if v == TRANS[0].from then 0
    else if v == TRANS[1].from then 1
    else if v == TRANS[2].from then 2
    else 3
  }

  datatype Pc =
    | Entry               // the caller's acquire load
    | DebugCheck          // the debug build's relaxed load
    | TryClaim            // the relaxed compare-exchange
    | WaitLoad            // SpinLockWait's acquire load
    | WaitCas(row: nat)   // SpinLockWait's compare-exchange along one row
    | Delay(seen: int)    // SpinLockDelay, called because no row starts at `seen`
    | Parked(seen: int)   // asleep inside SpinLockDelay
    | Invoke              // about to call fn
    | InFn                // fn is running
    | Publish             // the release exchange
    | Wake                // SpinLockWake
    | Returned
    | Fatal               // the debug check failed

  /** Which of the three accesses that could carry an ordering do carry it. */
  datatype Orders = Orders(entryAcquire: bool, waitAcquire: bool, publishRelease: bool)

  const SOURCE_ORDERS: Orders := Orders(true, true, true)

  /** `carries`: an acquire load of the word obtains fn's effects.
      `sees[t]`: fn's effects happen before whatever thread t does next.
      `runner`: the thread that claimed the word, or -1. */
  datatype State = State(word: int, carries: bool, pcs: seq<Pc>, sees: seq<bool>,
                         starts: nat, ends: nat, runner: int)

  function Start(n: nat): State {
    State(0, false, seq(n, i => Entry), seq(n, i => false), 0, 0, -1)
  }

  ghost predicate Shaped(s: State) {
    |s.sees| == |s.pcs|
  }

  function At(s: State, t: nat, pc: Pc): (s': State)
    requires t < |s.pcs|
  {
    s.(pcs := s.pcs[t := pc])
  }

  /** Thread t has loaded the word; an acquire load also obtains what it carries. */
  function Loaded(s: State, t: nat, acquire: bool): (s': State)
    requires Shaped(s) && t < |s.pcs|
    ensures Shaped(s')
  {
    s.(sees := s.sees[t := s.sees[t] || (acquire && s.carries)])
  }

  function Claim(s: State, t: nat): (s': State)
    requires t < |s.pcs|
  {
    At(s, t, Invoke).(word := ONCE_RUNNING, runner := t)
  }

  /** Where CallOnceImpl goes once SpinLockWait has returned `v`. */
  function AfterWait(v: int): Pc {
    if v == ONCE_INIT then Invoke else Returned
  }

  function WakeAll(pcs: seq<Pc>): (r: seq<Pc>)
    ensures |r| == |pcs|
    ensures forall i :: 0 <= i < |pcs| ==> r[i] == if pcs[i].Parked? then WaitLoad else pcs[i]
  {
    seq(|pcs|, i requires 0 <= i < |pcs| => if pcs[i].Parked? then WaitLoad else pcs[i])
  }

  /** Thread t performs the access its program counter names. */
  function Step(o: Orders, s: State, t: nat): (s': State)
    requires Shaped(s) && t < |s.pcs|
    ensures Shaped(s') && |s'.pcs| == |s.pcs|
  {
    match s.pcs[t]
    case Entry =>
      At(Loaded(s, t, o.entryAcquire), t, if s.word == ONCE_DONE then Returned else DebugCheck)
    case DebugCheck =>
      At(s, t, if s.word in {ONCE_INIT, ONCE_RUNNING, ONCE_WAITER, ONCE_DONE} then TryClaim else Fatal)
    case TryClaim =>
      if s.word == ONCE_INIT then Claim(s, t) else At(s, t, WaitLoad)
    case WaitLoad =>
      var row := FindRow(s.word);
      var l := Loaded(s, t, o.waitAcquire);
      if row == |TRANS| then At(l, t, Delay(s.word))
      else if TRANS[row].to == s.word && TRANS[row].done then At(l, t, AfterWait(s.word))
      else At(l, t, WaitCas(row))
    case WaitCas(row) =>
      if row >= |TRANS| || s.word != TRANS[row].from then At(s, t, WaitLoad)
      else
        var l := Loaded(s, t, o.waitAcquire);
        if !TRANS[row].done then At(l, t, WaitLoad).(word := TRANS[row].to)
        else if AfterWait(s.word) == Invoke then Claim(l, t)
        else At(l, t, Returned).(word := TRANS[row].to)
    case Delay(seen) =>
      At(s, t, if s.word == seen then Parked(seen) else WaitLoad)
    case Invoke =>
      At(s, t, InFn).(starts := s.starts + 1)
    case InFn =>
      At(s, t, Publish).(ends := s.ends + 1, sees := s.sees[t := true])
    case Publish =>
      At(s, t, if s.word == ONCE_WAITER then Wake else Returned)
        .(word := ONCE_DONE, carries := o.publishRelease && s.sees[t])
    case Wake =>
      s.(pcs := WakeAll(s.pcs)[t := Returned])
    case Parked(_) => s
    case Returned => s
    case Fatal => s
  }

  /** SpinLockDelay may also return without parking, and a sleep may end early. */
  function RouseThread(s: State, t: nat): (s': State)
    requires Shaped(s) && t < |s.pcs|
    ensures Shaped(s') && |s'.pcs| == |s.pcs|
  {
    if s.pcs[t].Delay? || s.pcs[t].Parked? then At(s, t, WaitLoad) else s
  }

  datatype Move = Go(t: nat) | Rouse(t: nat)

  function Apply(o: Orders, s: State, m: Move): (s': State)
    requires Shaped(s)
    ensures Shaped(s') && |s'.pcs| == |s.pcs|
  {
    if m.t >= |s.pcs| then s
    else if m.Go? then Step(o, s, m.t)
    else RouseThread(s, m.t)
  }

  function Run(o: Orders, s: State, moves: seq<Move>): (s': State)
    requires Shaped(s)
    ensures Shaped(s') && |s'.pcs| == |s.pcs|
    decreases |moves|
  {
    if moves == [] then s else Run(o, Apply(o, s, moves[0]), moves[1..])
  }

  // ---- Safety --------------------------------------------------------------

  ghost predicate Known(word: int) {
    word in {ONCE_INIT, ONCE_RUNNING, ONCE_WAITER, ONCE_DONE}
  }

  predicate IsRunning(pc: Pc) {
    pc.Invoke? || pc.InFn? || pc.Publish?
  }

  ghost predicate HasRunner(s: State) {
    0 <= s.runner < |s.pcs|
  }

  /** What one thread's program counter says about the rest of the state. */
  ghost predicate ThreadInv(s: State, i: nat)
    requires Shaped(s) && i < |s.pcs|
  {
    match s.pcs[i]
    case Entry => true
    case DebugCheck => true
    case TryClaim => true
    case WaitLoad => s.word != ONCE_INIT
    case WaitCas(row) => s.word != ONCE_INIT && row == 1
    case Delay(seen) => s.word != ONCE_INIT && seen == ONCE_WAITER
    case Parked(seen) => seen == ONCE_WAITER &&
      (s.word == ONCE_WAITER || (s.word == ONCE_DONE && HasRunner(s) && s.pcs[s.runner] == Wake))
    case Invoke => s.runner == i
    case InFn => s.runner == i
    case Publish => s.runner == i && s.sees[i]
    case Wake => s.runner == i && s.word == ONCE_DONE && s.sees[i]
    case Returned => s.word == ONCE_DONE && s.sees[i]
    case Fatal => false
  }

  ghost predicate RunnerInv(s: State)
    requires Shaped(s)
  {
    if s.word == ONCE_INIT then s.runner == -1 && s.starts == s.ends == 0
    else
      && HasRunner(s)
      && var pc := s.pcs[s.runner];
         if s.word == ONCE_DONE then
           (pc.Wake? || pc.Returned?) && s.starts == s.ends == 1 && s.carries
         else
           && IsRunning(pc)
           && s.starts == (if pc.Invoke? then 0 else 1)
           && s.ends == (if pc.Publish? then 1 else 0)
  }

  ghost predicate Inv(s: State) {
    && Shaped(s)
    && Known(s.word)
    && RunnerInv(s)
    && forall i :: 0 <= i < |s.pcs| ==> ThreadInv(s, i)
  }

  lemma StartInv(n: nat)
    ensures Inv(Start(n))
  {}

  /** What a step does to the word and to the runner's books. */
  lemma StepRunner(s: State, t: nat)
    requires Inv(s) && t < |s.pcs|
    ensures
      var s' := Step(SOURCE_ORDERS, s, t);
      Known(s'.word) && RunnerInv(s')
  {
    assert ThreadInv(s, t);
    assert s.word != ONCE_INIT ==> ThreadInv(s, s.runner);
  }

  /** What it leaves true of each thread. */
  lemma StepThread(s: State, t: nat, i: nat)
    requires Inv(s) && t < |s.pcs| && i < |s.pcs|
    ensures ThreadInv(Step(SOURCE_ORDERS, s, t), i)
  {
    assert ThreadInv(s, t) && ThreadInv(s, i);
    assert s.word != ONCE_INIT ==> ThreadInv(s, s.runner);
  }

  lemma StepInv(s: State, t: nat)
    requires Inv(s) && t < |s.pcs|
    ensures Inv(Step(SOURCE_ORDERS, s, t))
  {
    var s' := Step(SOURCE_ORDERS, s, t);
    StepRunner(s, t);
    forall i | 0 <= i < |s'.pcs| ensures ThreadInv(s', i) {
      StepThread(s, t, i);
    }
    hide Step, RunnerInv, ThreadInv;
  }

  lemma ApplyInv(s: State, m: Move)
    requires Inv(s)
    ensures Inv(Apply(SOURCE_ORDERS, s, m))
  {
    if m.t < |s.pcs| {
      if m.Go? {
        StepInv(s, m.t);
      } else {
        assert ThreadInv(s, m.t);
        var s' := RouseThread(s, m.t);
        forall i | 0 <= i < |s'.pcs| ensures ThreadInv(s', i) {
          assert ThreadInv(s, i);
        }
      }
    }
  }

  lemma {:induction false} RunInv(s: State, moves: seq<Move>)
    requires Inv(s)
    ensures Inv(Run(SOURCE_ORDERS, s, moves))
    decreases |moves|
  {
    if moves != [] {
      ApplyInv(s, moves[0]);
      RunInv(Apply(SOURCE_ORDERS, s, moves[0]), moves[1..]);
    }
  }

  /** The word only ever moves forward, and only along these edges. */
  ghost predicate Advances(a: int, b: int) {
    || a == b
    || (a == ONCE_INIT && b == ONCE_RUNNING)
    || (a == ONCE_RUNNING && (b == ONCE_WAITER || b == ONCE_DONE))
    || (a == ONCE_WAITER && b == ONCE_DONE)
  }

  lemma WordAdvances(n: nat, moves: seq<Move>, m: Move)
    ensures
      var s := Run(SOURCE_ORDERS, Start(n), moves);
      var s' := Apply(SOURCE_ORDERS, s, m);
      Advances(s.word, s'.word) && s.starts <= s'.starts && s.ends <= s'.ends
  {
    StartInv(n);
    RunInv(Start(n), moves);
    var s := Run(SOURCE_ORDERS, Start(n), moves);
    if m.t < n {
      assert ThreadInv(s, m.t);
    }
  }

  /** fn runs at most once, the debug check never fires, and a caller that has
      returned finds fn finished with its effects visible. */
  lemma OnlyOnce(n: nat, moves: seq<Move>)
    ensures
      var s := Run(SOURCE_ORDERS, Start(n), moves);
      && s.ends <= s.starts <= 1
      && (s.word == ONCE_DONE ==> s.ends == 1)
      && forall t :: 0 <= t < n ==>
           && !s.pcs[t].Fatal?
           && (s.pcs[t].Returned? ==> s.ends == 1 && s.word == ONCE_DONE && s.sees[t])
  {
    StartInv(n);
    RunInv(Start(n), moves);
    var s := Run(SOURCE_ORDERS, Start(n), moves);
    forall t | 0 <= t < n
      ensures !s.pcs[t].Fatal? && (s.pcs[t].Returned? ==> s.word == ONCE_DONE && s.sees[t])
    {
      assert ThreadInv(s, t);
    }
  }

  /** At most one thread ever stands between winning the word and publishing. */
  lemma OneRunner(n: nat, moves: seq<Move>, t: nat, u: nat)
    requires t < n && u < n
    ensures
      var s := Run(SOURCE_ORDERS, Start(n), moves);
      IsRunning(s.pcs[t]) && IsRunning(s.pcs[u]) ==> t == u
  {
    StartInv(n);
    RunInv(Start(n), moves);
    var s := Run(SOURCE_ORDERS, Start(n), moves);
    assert ThreadInv(s, t) && ThreadInv(s, u);
  }

  /** The inlined acquire load is only a short cut: once the word is Done, going
      through CallOnceImpl instead ends in exactly the same state. */
  lemma FastPathRefinesSlowPath(s: State, t: nat)
    requires Inv(s) && t < |s.pcs| && s.pcs[t] == Entry && s.word == ONCE_DONE
    ensures Step(SOURCE_ORDERS, s, t).pcs[t] == Returned
    ensures Run(SOURCE_ORDERS, At(s, t, DebugCheck), [Go(t), Go(t), Go(t)]) == Step(SOURCE_ORDERS, s, t)
  {
    var a := At(s, t, DebugCheck);
    var b := Step(SOURCE_ORDERS, a, t);
    assert b == At(s, t, TryClaim);
    var c := Step(SOURCE_ORDERS, b, t);
    assert c == At(s, t, WaitLoad);
    var d := Step(SOURCE_ORDERS, c, t);
    assert d == Step(SOURCE_ORDERS, s, t);
    RunThree(SOURCE_ORDERS, a, Go(t), Go(t), Go(t));
  }

  lemma RunThree(o: Orders, s: State, m1: Move, m2: Move, m3: Move)
    requires Shaped(s)
    ensures Run(o, s, [m1, m2, m3]) == Apply(o, Apply(o, Apply(o, s, m1), m2), m3)
  {
    var s1 := Apply(o, s, m1);
    var s2 := Apply(o, s1, m2);
    assert [m1, m2, m3][1..] == [m2, m3];
    assert [m2, m3][1..] == [m3];
    assert [m3][1..] == [];
    assert Run(o, s2, [m3]) == Run(o, Apply(o, s2, m3), []);
    assert Run(o, s1, [m2, m3]) == Run(o, s2, [m3]);
  }

  lemma {:induction false} RunAppend(o: Orders, s: State, a: seq<Move>, b: seq<Move>)
    requires Shaped(s)
    ensures Run(o, s, a + b) == Run(o, Run(o, s, a), b)
    decreases |a|
  {
    if a == [] {
      assert a + b == b;
    } else {
      assert (a + b)[0] == a[0] && (a + b)[1..] == a[1..] + b;
      RunAppend(o, Apply(o, s, a[0]), a[1..], b);
    }
  }

  // ---- The memory orders are needed ----------------------------------------

  /** Under these orders no caller of any run returns before fn's effects are visible to it. */
  ghost predicate NoBlindReturn(o: Orders) {
    forall n: nat, moves: seq<Move>, t: nat {:trigger Run(o, Start(n), moves).pcs[t]} :: t < n ==>
      var s := Run(o, Start(n), moves);
      s.pcs[t].Returned? ==> s.sees[t]
  }

  const THREE_OF_0: seq<Move> := [Go(0), Go(0), Go(0)]
  const THREE_OF_1: seq<Move> := [Go(1), Go(1), Go(1)]

  /** Two threads, thread 0 having claimed the word and thread 1 being at `pc`. */
  function Claimed(pc: Pc): State {
    State(ONCE_RUNNING, false, [Invoke, pc], [false, false], 0, 0, 0)
  }

  function Published(o: Orders, pc: Pc): State {
    State(ONCE_DONE, o.publishRelease, [Returned, pc], [true, false], 1, 1, 0)
  }

  lemma ClaimRun(o: Orders)
    ensures Run(o, Start(2), THREE_OF_0) == Claimed(Entry)
  {
    RunThree(o, Start(2), Go(0), Go(0), Go(0));
    var s := Run(o, Start(2), THREE_OF_0);
    assert s.pcs == [Invoke, Entry] && s.sees == [false, false];
  }

  lemma LoseRun(o: Orders)
    ensures Run(o, Claimed(Entry), THREE_OF_1) == Claimed(WaitLoad)
  {
    RunThree(o, Claimed(Entry), Go(1), Go(1), Go(1));
  }

  lemma PublishRun(o: Orders, pc: Pc)
    ensures
      var s := Run(o, Claimed(pc), [Go(0), Go(0)]);
      s.word == ONCE_RUNNING && s.pcs == [Publish, pc]
    ensures Run(o, Claimed(pc), THREE_OF_0) == Published(o, pc)
  {
    RunThree(o, Claimed(pc), Go(0), Go(0), Go(0));
    RunAppend(o, Claimed(pc), [Go(0)], [Go(0)]);
    assert [Go(0)] + [Go(0)] == [Go(0), Go(0)];
    assert Run(o, Claimed(pc), [Go(0)]) == Apply(o, Claimed(pc), Go(0));
  }

  /** A late caller: after `before`, thread 0 has published and returned and thread 1 has
      not made its first load, which is the next move. */
  lemma LateCaller(o: Orders) returns (before: seq<Move>)
    ensures
      var s := Run(o, Start(2), before);
      s.word == ONCE_DONE && s.pcs == [Returned, Entry]
    ensures
      var s := Run(o, Start(2), before + [Go(1)]);
      s.pcs[1] == Returned && s.sees[1] == (o.entryAcquire && o.publishRelease)
  {
    before := THREE_OF_0 + THREE_OF_0;
    RunAppend(o, Start(2), before, [Go(1)]);
    RunAppend(o, Start(2), THREE_OF_0, THREE_OF_0);
    ClaimRun(o);
    PublishRun(o, Entry);
    assert Run(o, Published(o, Entry), [Go(1)]) == Apply(o, Published(o, Entry), Go(1));
  }

  /** A waiting caller: after `before`, thread 0 is about to exchange the word and thread 1
      is inside SpinLockWait, about to load it; those are the next two moves. */
  lemma WaitingCaller(o: Orders) returns (before: seq<Move>)
    ensures
      var s := Run(o, Start(2), before);
      s.word == ONCE_RUNNING && s.pcs == [Publish, WaitLoad]
    ensures
      var s := Run(o, Start(2), before + [Go(0), Go(1)]);
      s.pcs[1] == Returned && s.sees[1] == (o.waitAcquire && o.publishRelease)
  {
    var claimed := THREE_OF_0 + THREE_OF_1;
    RunAppend(o, Start(2), THREE_OF_0, THREE_OF_1);
    ClaimRun(o);
    LoseRun(o);
    before := claimed + [Go(0), Go(0)];
    RunAppend(o, Start(2), claimed, [Go(0), Go(0)]);
    PublishRun(o, WaitLoad);
    assert before + [Go(0), Go(1)] == claimed + (THREE_OF_0 + [Go(1)]);
    RunAppend(o, Start(2), claimed, THREE_OF_0 + [Go(1)]);
    RunAppend(o, Claimed(WaitLoad), THREE_OF_0, [Go(1)]);
    assert Run(o, Published(o, WaitLoad), [Go(1)]) == Apply(o, Published(o, WaitLoad), Go(1));
  }

  /** Acquire on both loads and release on the exchange are exactly what is needed:
      weakening any one of the three lets some caller return blind. */
  lemma OrdersAreExact(o: Orders)
    ensures NoBlindReturn(o) <==> o == SOURCE_ORDERS
  {
    if o == SOURCE_ORDERS {
      forall n: nat, moves: seq<Move>, t: nat | t < n
        ensures
          var s := Run(o, Start(n), moves);
          s.pcs[t].Returned? ==> s.sees[t]
      {
        OnlyOnce(n, moves);
      }
    } else {
      var late := LateCaller(o);
      var waiting := WaitingCaller(o);
      assert !(Run(o, Start(2), late + [Go(1)]).sees[1] && Run(o, Start(2), waiting + [Go(0), Go(1)]).sees[1]);
    }
  }

  // ---- Progress ------------------------------------------------------------

  predicate Enabled(s: State, t: nat) {
    t < |s.pcs| && !s.pcs[t].Parked? && !s.pcs[t].Returned? && !s.pcs[t].Fatal?
  }

  /** No lost wakeup: a parked thread sleeps on Waiter, or the wake is still owed. */
  lemma NoLostWakeup(n: nat, moves: seq<Move>, t: nat)
    requires t < n && Run(SOURCE_ORDERS, Start(n), moves).pcs[t].Parked?
    ensures
      var s := Run(SOURCE_ORDERS, Start(n), moves);
      && HasRunner(s)
      && Enabled(s, s.runner)
      && (s.word == ONCE_WAITER || s.pcs[s.runner] == Wake)
  {
    StartInv(n);
    RunInv(Start(n), moves);
    assert ThreadInv(Run(SOURCE_ORDERS, Start(n), moves), t);
  }

  /** When no thread can move, every caller has returned, fn ran exactly once and
      every caller sees its effects. */
  lemma StuckMeansDone(n: nat, moves: seq<Move>)
    requires n > 0
    requires forall t: nat :: !Enabled(Run(SOURCE_ORDERS, Start(n), moves), t)
    ensures
      var s := Run(SOURCE_ORDERS, Start(n), moves);
      && s.starts == s.ends == 1
      && forall t :: 0 <= t < n ==> s.pcs[t].Returned? && s.sees[t]
  {
    StartInv(n);
    RunInv(Start(n), moves);
    var s := Run(SOURCE_ORDERS, Start(n), moves);
    forall t | 0 <= t < n ensures s.pcs[t].Returned? && s.sees[t] {
      assert ThreadInv(s, t);
      assert !Enabled(s, t);
      if s.pcs[t].Parked? {
        NoLostWakeup(n, moves, t);
      }
    }
    assert s.pcs[0].Returned? && ThreadInv(s, 0);
  }

  const MAX_RANK: nat := 8

  /** Steps a thread can still take before the word next changes; a compare-exchange
      or delay armed with a value the word no longer holds has one extra, to reload. */
  function Rank(word: int, pc: Pc): (r: nat)
    ensures r <= MAX_RANK
  {
    match pc
    case Entry => 8
    case DebugCheck => 7
    case TryClaim => 6
    case WaitLoad => 3
    case WaitCas(row) => if row < |TRANS| && TRANS[row].from == word then 2 else 4
    case Delay(seen) => if seen == word then 1 else 4
    case Parked(_) => 0
    case Invoke => 3
    case InFn => 2
    case Publish => 1
    case Wake => 1
    case Returned => 0
    case Fatal => 0
  }

  function Ranks(word: int, pcs: seq<Pc>): (r: nat)
    ensures r <= MAX_RANK * |pcs|
  {
    if pcs == [] then 0 else Rank(word, pcs[0]) + Ranks(word, pcs[1..])
  }

  lemma {:induction false} RanksUpdate(word: int, pcs: seq<Pc>, t: nat, pc: Pc)
    requires t < |pcs|
    ensures Ranks(word, pcs[t := pc]) == Ranks(word, pcs) - Rank(word, pcs[t]) + Rank(word, pc)
  {
    if t == 0 {
      assert pcs[0 := pc][1..] == pcs[1..];
    } else {
      assert pcs[t := pc][1..] == pcs[1..][t - 1 := pc];
      RanksUpdate(word, pcs[1..], t - 1, pc);
    }
  }

  /** Control-word changes still to come, plus one for a wake still owed. */
  ghost function Changes(s: State): nat {
    if s.word == ONCE_INIT then 4
    else if s.word == ONCE_RUNNING then 3
    else if s.word == ONCE_WAITER then 2
    else if HasRunner(s) && s.pcs[s.runner] == Wake then 1
    else 0
  }

  ghost function Measure(s: State): nat {
    Changes(s) * (MAX_RANK * |s.pcs| + 1) + Ranks(s.word, s.pcs)
  }

  lemma MeasureDrops(s: State, s': State)
    requires |s'.pcs| == |s.pcs| && Changes(s') < Changes(s)
    ensures Measure(s') < Measure(s)
  {
    var k := MAX_RANK * |s.pcs| + 1;
    assert (Changes(s') + 1) * k <= Changes(s) * k;
    assert (Changes(s') + 1) * k == Changes(s') * k + k;
  }

  /** A step that leaves the word alone brings the thread that takes it closer. */
  lemma StepLowersRank(s: State, t: nat)
    requires Inv(s) && Enabled(s, t) && !s.pcs[t].Wake?
    ensures
      var s' := Step(SOURCE_ORDERS, s, t);
      s'.word == s.word ==> s'.pcs == s.pcs[t := s'.pcs[t]] && Rank(s.word, s'.pcs[t]) < Rank(s.word, s.pcs[t])
  {
    assert ThreadInv(s, t);
  }

  /** Changes never grow, and drop whenever the word moves or the owed wake is paid. */
  lemma StepChanges(s: State, t: nat)
    requires Inv(s) && Enabled(s, t)
    ensures
      var s' := Step(SOURCE_ORDERS, s, t);
      if s'.word == s.word && !s.pcs[t].Wake? then Changes(s') == Changes(s) else Changes(s') < Changes(s)
  {
    assert ThreadInv(s, t);
    assert s.word != ONCE_INIT ==> ThreadInv(s, s.runner);
  }

  lemma StepMakesProgress(s: State, t: nat)
    requires Inv(s) && Enabled(s, t)
    ensures Measure(Step(SOURCE_ORDERS, s, t)) < Measure(s)
  {
    var s' := Step(SOURCE_ORDERS, s, t);
    StepChanges(s, t);
    if Changes(s') < Changes(s) {
      MeasureDrops(s, s');
    } else {
      StepLowersRank(s, t);
      RanksUpdate(s.word, s.pcs, t, s'.pcs[t]);
    }
  }

  lemma RouseCosts(s: State, t: nat)
    requires Inv(s) && t < |s.pcs|
    ensures Measure(RouseThread(s, t)) <= Measure(s) + 3
  {
    assert ThreadInv(s, t);
    var s' := RouseThread(s, t);
    RanksUpdate(s.word, s.pcs, t, s'.pcs[t]);
    assert s'.pcs == s.pcs[t := s'.pcs[t]];
    assert Changes(s') == Changes(s);
  }

  /** Every Go in the run is taken by a thread that could move. */
  ghost predicate Productive(s: State, moves: seq<Move>)
    requires Shaped(s)
    decreases |moves|
  {
    moves != [] ==>
      && (moves[0].Go? ==> Enabled(s, moves[0].t))
      && Productive(Apply(SOURCE_ORDERS, s, moves[0]), moves[1..])
  }

  function Gos(moves: seq<Move>): nat {
    if moves == [] then 0 else (if moves[0].Go? then 1 else 0) + Gos(moves[1..])
  }

  function Rouses(moves: seq<Move>): nat {
    if moves == [] then 0 else (if moves[0].Go? then 0 else 1) + Rouses(moves[1..])
  }

  lemma {:induction false} RunIsBounded(s: State, moves: seq<Move>)
    requires Inv(s) && Productive(s, moves)
    ensures Gos(moves) + Measure(Run(SOURCE_ORDERS, s, moves)) <= Measure(s) + 3 * Rouses(moves)
    decreases |moves|
  {
    if moves != [] {
      var m := moves[0];
      ApplyInv(s, m);
      if m.Go? {
        StepMakesProgress(s, m.t);
      } else if m.t < |s.pcs| {
        RouseCosts(s, m.t);
      }
      RunIsBounded(Apply(SOURCE_ORDERS, s, m), moves[1..]);
    }
  }

  lemma {:induction false} StartRanks(n: nat)
    ensures Ranks(ONCE_INIT, Start(n).pcs) == 8 * n
  {
    if n > 0 {
      assert Start(n).pcs[1..] == Start(n - 1).pcs;
      StartRanks(n - 1);
    }
  }

  /** n callers finish within 40n + 4 steps, plus three for every early return from a delay. */
  lemma CallersFinish(n: nat, moves: seq<Move>)
    requires Productive(Start(n), moves)
    ensures Gos(moves) <= 40 * n + 4 + 3 * Rouses(moves)
  {
    StartInv(n);
    StartRanks(n);
    RunIsBounded(Start(n), moves);
  }
}
