// What becomes of each request span, and of all of them together.
module SpanCustody {
  import opened HttpText
  import opened RequestParsing
  import opened ResponseParsing
  import opened SpanTable
  import opened TracedThreads
  import opened SpanHistory

  // ---- One span -----------------------------------------------------------------

  predicate IsHolding(pc: Pc) {
    pc.ReadAnnotate? || pc.ReadStore?
  }

  ghost predicate Held(s: State, id: nat) {
    exists t :: 0 <= t < |s.pcs| && IsHolding(s.pcs[t]) && s.pcs[t].ctx.span == id
  }

  ghost predicate Stored(s: State, id: nat) {
    exists fd :: fd in s.table.fdMap && s.table.fdMap[fd].span == id
  }

  ghost predicate Ended(s: State, id: nat)
    requires id < |s.table.spans|
  {
    End in s.table.spans[id].ops
  }

  /** A store found this span in the table and overwrote it. */
  ghost predicate Overwritten(s: State, id: nat) {
    exists k :: 0 <= k < |s.log| && s.log[k].DidStore? && s.log[k].replaced == Some(id)
  }

  /** The log names a span as overwritten exactly when its custody says so. */
  ghost predicate OverwrittenInv(s: State) {
    && |s.owner| == |s.table.spans|
    && forall id: nat :: Overwritten(s, id) <==> id < |s.owner| && s.owner[id].Replaced?
  }

  lemma ApplyOverwritten(cfg: Config, s: State, m: Move)
    requires Inv(cfg, s) && OverwrittenInv(s)
    ensures OverwrittenInv(Apply(cfg, s, m))
  {
    hide Gate, RequestOps, ResponseOps, LastCall;
    var s' := Apply(cfg, s, m);
    forall id: nat ensures Overwritten(s', id) <==> id < |s'.owner| && s'.owner[id].Replaced? {
      assert Overwritten(s, id) <==> id < |s.owner| && s.owner[id].Replaced?;
      if m.Work? && m.t < |s.pcs| {
        assert ThreadInv(s, m.t);
        if s.log != s'.log {
          var fd := s'.log[|s.log|].fd;
          if fd in s.table.fdMap {
            assert FdInv(s, fd);
          }
          assert forall k :: 0 <= k < |s.log| ==> s'.log[k] == s.log[k];
        }
      }
    }
  }

  lemma {:induction false} RunOverwritten(cfg: Config, s: State, moves: seq<Move>)
    requires Inv(cfg, s) && OverwrittenInv(s)
    ensures OverwrittenInv(Run(cfg, s, moves))
    decreases |moves|
  {
    if moves != [] {
      ApplyInv(cfg, s, moves[0]);
      ApplyOverwritten(cfg, s, moves[0]);
      RunOverwritten(cfg, Apply(cfg, s, moves[0]), moves[1..]);
    }
  }

  lemma EndComesLast(cfg: Config, line: RequestLine, data: string, buf: string, n: nat)
    requires n <= |buf|
    ensures End !in RequestOps(cfg, line, data)
    ensures
      var r := ResponseOps(buf, n);
      |r| > 0 && forall i :: 0 <= i < |r| ==> (r[i] == End <==> i == |r| - 1)
  {
    hide Headers, Status;
  }

  /** What the span's custody says about whether it has ended. */
  lemma EndedByCustody(cfg: Config, s: State, id: nat)
    requires Inv(cfg, s) && id < |s.table.spans|
    ensures Ended(s, id) <==> s.owner[id].EndedByWrite? || s.owner[id].EndedByClose?
    ensures forall i :: 0 <= i < |s.table.spans[id].ops| && s.table.spans[id].ops[i] == End
              ==> i == |s.table.spans[id].ops| - 1
  {
    hide Gate, RequestOps, ResponseOps, LastCall;
    assert SpanInv(cfg, s, id);
    var o := s.origin[id];
    var line := Gate(o.data).value;
    EndComesLast(cfg, line, o.data, "", 0);
    var request := RequestOps(cfg, line, o.data);
    var ops := s.table.spans[id].ops;
    assert forall i :: 0 <= i < |request| ==> request[i] != End;
    match s.owner[id]
    case EndedByWrite(buf, n) =>
      EndComesLast(cfg, line, o.data, buf, n);
      var r := ResponseOps(buf, n);
      assert ops[|ops| - 1] == r[|r| - 1];
      assert forall i :: |request| <= i < |ops| ==> ops[i] == r[i - |request|];
    case EndedByClose =>
      assert ops[|ops| - 1] == End;
    case _ =>
  }

  /** End is called on a span at most once, and nothing is done to it afterwards. */
  lemma NothingAfterEnd(cfg: Config, n: nat, open: set<int>, moves: seq<Move>, id: nat, i: nat)
    ensures
      var s := Reached(cfg, n, open, moves);
      id < |s.table.spans| && i < |s.table.spans[id].ops| && s.table.spans[id].ops[i] == End
      ==> i == |s.table.spans[id].ops| - 1
  {
    var s := Reached(cfg, n, open, moves);
    if id < |s.table.spans| {
      EndedByCustody(cfg, s, id);
    }
  }

  function One(b: bool): nat {
    if b then 1 else 0
  }

  /** In every interleaving each request span is in exactly one place: held by a read
      in flight, stored under a descriptor, ended, or overwritten. */
  lemma CustodyIsExclusive(cfg: Config, n: nat, open: set<int>, moves: seq<Move>, id: nat)
    ensures
      var s := Reached(cfg, n, open, moves);
      id < |s.table.spans| ==>
        One(Held(s, id)) + One(Stored(s, id)) + One(Ended(s, id)) + One(Overwritten(s, id)) == 1
  {
    hide Gate, RequestOps, ResponseOps, LastCall;
    RunOverwritten(cfg, Start(n, open), moves);
    var s := Reached(cfg, n, open, moves);
    if id < |s.table.spans| {
      EndedByCustody(cfg, s, id);
      HeldByCustody(cfg, s, id);
      StoredByCustody(cfg, s, id);
      assert Overwritten(s, id) <==> s.owner[id].Replaced?;
    }
  }

  lemma HeldByCustody(cfg: Config, s: State, id: nat)
    requires Inv(cfg, s) && id < |s.table.spans|
    ensures Held(s, id) <==> s.owner[id].HeldBy?
  {
    hide Gate, RequestOps, ResponseOps, LastCall;
    assert SpanInv(cfg, s, id);
    if Held(s, id) {
      var t :| 0 <= t < |s.pcs| && IsHolding(s.pcs[t]) && s.pcs[t].ctx.span == id;
      assert ThreadInv(s, t);
    }
  }

  lemma StoredByCustody(cfg: Config, s: State, id: nat)
    requires Inv(cfg, s) && id < |s.table.spans|
    ensures Stored(s, id) <==> s.owner[id].StoredUnder?
  {
    hide Gate, RequestOps, ResponseOps, LastCall;
    assert SpanInv(cfg, s, id);
    if Stored(s, id) {
      var fd :| fd in s.table.fdMap && s.table.fdMap[fd].span == id;
      assert FdInv(s, fd);
    }
  }

  predicate SameSpan(pc: Pc, qc: Pc) {
    IsHolding(pc) && IsHolding(qc) && pc.ctx.span == qc.ctx.span
  }

  /** No span is in two threads' hands or under two descriptors. */
  lemma CustodyIsUnshared(cfg: Config, n: nat, open: set<int>, moves: seq<Move>, t: nat, u: nat, fd: int, gd: int)
    ensures
      var s := Reached(cfg, n, open, moves);
      && (t < |s.pcs| && u < |s.pcs| && SameSpan(s.pcs[t], s.pcs[u]) ==> t == u)
      && (fd in s.table.fdMap && gd in s.table.fdMap && s.table.fdMap[fd].span == s.table.fdMap[gd].span ==> fd == gd)
  {
    hide Gate, RequestOps, ResponseOps, LastCall;
    var s := Reached(cfg, n, open, moves);
    if t < |s.pcs| && u < |s.pcs| {
      assert ThreadInv(s, t) && ThreadInv(s, u);
    }
    if fd in s.table.fdMap && gd in s.table.fdMap {
      assert FdInv(s, fd) && FdInv(s, gd);
    }
  }

  /** The verdict: a span is marked Error exactly when the write that ended it carried a
      status of 400 or more, and Ok exactly when it carried a smaller one. */
  lemma VerdictIsTheWrites(cfg: Config, n: nat, open: set<int>, moves: seq<Move>, id: nat)
    ensures
      var s := Reached(cfg, n, open, moves);
      id < |s.table.spans| ==>
        var ops := s.table.spans[id].ops;
        var code := if s.owner[id].EndedByWrite? && s.owner[id].n <= |s.owner[id].buf|
                    then Status(s.owner[id].buf, s.owner[id].n) else None;
        && ((exists i :: 0 <= i < |ops| && ops[i].SetError?) <==> code.Some? && code.value >= 400)
        && ((exists i :: 0 <= i < |ops| && ops[i].SetOk?) <==> code.Some? && code.value < 400)
  {
    hide Gate, RequestOps, ResponseOps, LastCall, Status;
    var s := Reached(cfg, n, open, moves);
    if id < |s.table.spans| {
      assert SpanInv(cfg, s, id);
      var o := s.origin[id];
      var line := Gate(o.data).value;
      var request := RequestOps(cfg, line, o.data);
      NoVerdictInRequest(cfg, line, o.data);
      match s.owner[id]
      case EndedByWrite(buf, m) =>
        VerdictInResponse(buf, m);
        VerdictAtTheEnd(request, ResponseOps(buf, m));
      case EndedByClose =>
        VerdictAtTheEnd(request, [End]);
      case _ =>
    }
  }

  /** Operations without a verdict leave it to those that follow. */
  lemma VerdictAtTheEnd(before: seq<SpanOp>, r: seq<SpanOp>)
    requires forall i :: 0 <= i < |before| ==> !before[i].SetError? && !before[i].SetOk?
    ensures
      var ops := before + r;
      && ((exists i :: 0 <= i < |ops| && ops[i].SetError?) <==> exists i :: 0 <= i < |r| && r[i].SetError?)
      && ((exists i :: 0 <= i < |ops| && ops[i].SetOk?) <==> exists i :: 0 <= i < |r| && r[i].SetOk?)
  {
    var ops := before + r;
    assert forall i :: 0 <= i < |r| ==> ops[|before| + i] == r[i];
    assert forall i :: |before| <= i < |ops| ==> ops[i] == r[i - |before|];
    assert forall i :: 0 <= i < |before| ==> ops[i] == before[i];
  }

  lemma NoVerdictInRequest(cfg: Config, line: RequestLine, data: string)
    ensures
      var r := RequestOps(cfg, line, data);
      forall i :: 0 <= i < |r| ==> !r[i].SetError? && !r[i].SetOk?
  {
    hide Headers;
  }

  lemma VerdictInResponse(buf: string, n: nat)
    requires n <= |buf|
    ensures
      var r := ResponseOps(buf, n);
      var code := Status(buf, n);
      && ((exists i :: 0 <= i < |r| && r[i].SetError?) <==> code.Some? && code.value >= 400)
      && ((exists i :: 0 <= i < |r| && r[i].SetOk?) <==> code.Some? && code.value < 400)
  {
    hide Status;
    var r := ResponseOps(buf, n);
    if Status(buf, n).Some? {
      assert r[2].SetError? || r[2].SetOk?;
    }
  }

  // ---- All spans -----------------------------------------------------------------

  function Holding(pcs: seq<Pc>): nat {
    if pcs == [] then 0 else One(IsHolding(pcs[0])) + Holding(pcs[1..])
  }

  lemma {:induction false} HoldingUpdate(pcs: seq<Pc>, t: nat, pc: Pc)
    requires t < |pcs|
    ensures Holding(pcs[t := pc]) == Holding(pcs) - One(IsHolding(pcs[t])) + One(IsHolding(pc))
  {
    if t == 0 {
      assert pcs[0 := pc][1..] == pcs[1..];
    } else {
      assert pcs[t := pc][1..] == pcs[1..][t - 1 := pc];
      HoldingUpdate(pcs[1..], t - 1, pc);
    }
  }

  lemma {:induction false} HoldingIdle(n: nat)
    ensures Holding(seq(n, i => Idle)) == 0
  {
    if n > 0 {
      assert seq(n, i => Idle)[1..] == seq(n - 1, i => Idle);
      HoldingIdle(n - 1);
    }
  }

  datatype Ledger = Ledger(byWrite: nat, byClose: nat, replaced: nat)

  /** How the spans that left the table left it. */
  function Left(log: seq<LockEvent>): Ledger {
    if log == [] then Ledger(0, 0, 0)
    else
      var before := Left(log[..|log| - 1]);
      match log[|log| - 1]
      case DidWrite(_, hit) => before.(byWrite := before.byWrite + One(hit.Some?))
      case DidClose(_, hit) => before.(byClose := before.byClose + One(hit.Some?))
      case DidStore(_, _, _, old') => before.(replaced := before.replaced + One(old'.Some?))
  }

  ghost predicate Balanced(s: State) {
    var l := Left(s.log);
    |s.table.spans| == l.byWrite + l.byClose + l.replaced + |s.table.fdMap| + Holding(s.pcs)
  }

  lemma RemoveSize(m: map<int, FdSpanContext>, fd: int)
    ensures |m - {fd}| == |m| - One(fd in m)
  {
    if fd in m {
      assert m == (m - {fd})[fd := m[fd]];
    } else {
      assert m - {fd} == m;
    }
  }

  lemma LeftSnoc(log: seq<LockEvent>, e: LockEvent)
    ensures
      var before := Left(log);
      Left(log + [e]) ==
        match e
        case DidWrite(_, hit) => before.(byWrite := before.byWrite + One(hit.Some?))
        case DidClose(_, hit) => before.(byClose := before.byClose + One(hit.Some?))
        case DidStore(_, _, _, old') => before.(replaced := before.replaced + One(old'.Some?))
  {
    assert (log + [e])[..|log|] == log;
  }

  lemma LockBalanced(cfg: Config, s: State, t: nat)
    requires Inv(cfg, s) && Balanced(s) && t < |s.pcs|
    requires s.pcs[t].ReadStore? || s.pcs[t].WriteLock? || s.pcs[t].CloseLock?
    ensures Balanced(DoWork(cfg, s, t))
  {
    hide Gate, RequestOps, ResponseOps, LastCall, Left;
    var s' := DoWork(cfg, s, t);
    HoldingUpdate(s.pcs, t, s'.pcs[t]);
    LeftSnoc(s.log, s'.log[|s.log|]);
    RemoveSize(s.table.fdMap, s.pcs[t].fd);
  }

  /** Outside the lock nothing leaves the table, and a span that starts is in hand. */
  lemma UnlockedSizes(cfg: Config, s: State, m: Move)
    requires Inv(cfg, s) && !m.Open? && m.t < |s.pcs|
    requires m.Work? ==> !s.pcs[m.t].ReadStore? && !s.pcs[m.t].WriteLock? && !s.pcs[m.t].CloseLock?
    ensures
      var s' := Apply(cfg, s, m);
      && s'.log == s.log && s'.table.fdMap == s.table.fdMap && s'.pcs == s.pcs[m.t := s'.pcs[m.t]]
      && |s'.table.spans| == |s.table.spans| - One(IsHolding(s.pcs[m.t])) + One(IsHolding(s'.pcs[m.t]))
  {
    hide Gate, RequestOps, ResponseOps, LastCall, ThreadInv, SpanInv, FdInv;
  }

  lemma ApplyBalanced(cfg: Config, s: State, m: Move)
    requires Inv(cfg, s) && Balanced(s)
    ensures Balanced(Apply(cfg, s, m))
  {
    hide Gate, RequestOps, ResponseOps, LastCall, Left, ThreadInv, SpanInv, FdInv;
    if !m.Open? && m.t < |s.pcs| {
      if m.Work? && (s.pcs[m.t].ReadStore? || s.pcs[m.t].WriteLock? || s.pcs[m.t].CloseLock?) {
        LockBalanced(cfg, s, m.t);
      } else {
        UnlockedSizes(cfg, s, m);
        HoldingUpdate(s.pcs, m.t, Apply(cfg, s, m).pcs[m.t]);
        hide Apply, Inv, Holding, IsHolding;
      }
    }
  }

  lemma {:induction false} RunBalanced(cfg: Config, s: State, moves: seq<Move>)
    requires Inv(cfg, s) && Balanced(s)
    ensures Balanced(Run(cfg, s, moves))
    decreases |moves|
  {
    if moves != [] {
      ApplyInv(cfg, s, moves[0]);
      ApplyBalanced(cfg, s, moves[0]);
      RunBalanced(cfg, Apply(cfg, s, moves[0]), moves[1..]);
    }
  }

  /** Request spans started = ended by a write + ended by a close + replaced by a later
      read + live in the table + held by a read in flight. */
  lemma SpansAreConserved(cfg: Config, n: nat, open: set<int>, moves: seq<Move>)
    ensures
      var s := Reached(cfg, n, open, moves);
      var l := Left(s.log);
      |s.table.spans| == l.byWrite + l.byClose + l.replaced + |s.table.fdMap| + Holding(s.pcs)
  {
    HoldingIdle(n);
    RunBalanced(cfg, Start(n, open), moves);
  }

  /** Every thread is outside the hooks and every descriptor used was closed last. */
  ghost predicate AllClosed(s: State) {
    && (forall t :: 0 <= t < |s.pcs| ==> s.pcs[t].Idle?)
    && forall fd :: LastOn(s.log, fd).Some? ==> LastOn(s.log, fd).value.DidClose?
  }

  /** When everything has been closed the table is empty, and every span was ended (once)
      exactly if no descriptor saw two HTTP-like reads without a write or close between. */
  lemma EverySpanEnds(cfg: Config, n: nat, open: set<int>, moves: seq<Move>)
    requires AllClosed(Reached(cfg, n, open, moves))
    ensures
      var s := Reached(cfg, n, open, moves);
      && s.table.fdMap == map[]
      && ((forall id :: 0 <= id < |s.table.spans| ==> Ended(s, id)) <==> Alternates(s.log))
  {
    hide Gate, RequestOps, ResponseOps, LastCall;
    var s := Reached(cfg, n, open, moves);
    RunHistory(cfg, Start(n, open), moves);
    RunOverwritten(cfg, Start(n, open), moves);
    ReplacementIsExact(s);
    forall fd ensures fd !in s.table.fdMap {
      assert EntryFits(s, fd);
    }
    forall id | 0 <= id < |s.table.spans| ensures Ended(s, id) <==> !Overwritten(s, id) {
      EndedByCustody(cfg, s, id);
      assert SpanInv(cfg, s, id);
      assert Overwritten(s, id) <==> s.owner[id].Replaced?;
    }
    OverwrittenMeansReplaced(s);
  }

  lemma OverwrittenMeansReplaced(s: State)
    requires OverwrittenInv(s)
    ensures NothingReplaced(s.log) <==> forall id :: 0 <= id < |s.table.spans| ==> !Overwritten(s, id)
  {
    if forall id :: 0 <= id < |s.table.spans| ==> !Overwritten(s, id) {
      forall k | 0 <= k < |s.log| && s.log[k].DidStore? ensures s.log[k].replaced.None? {
        if s.log[k].replaced.Some? {
          assert Overwritten(s, s.log[k].replaced.value);
        }
      }
    }
  }
}
