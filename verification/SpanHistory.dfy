// The descriptor table against the history of what happened under the lock.
module SpanHistory {
  import opened HttpText
  import opened RequestParsing
  import opened SpanTable
  import opened TracedThreads

  /** The last event on one descriptor. */
  function LastOn(log: seq<LockEvent>, fd: int): Option<LockEvent> {
    if log == [] then None
    else if log[|log| - 1].fd == fd then Some(log[|log| - 1])
    else LastOn(log[..|log| - 1], fd)
  }

  /** The span an event on this descriptor would find in the table. */
  function Pending(log: seq<LockEvent>, fd: int): Option<nat> {
    match LastOn(log, fd)
    case Some(DidStore(_, _, ctx, _)) => Some(ctx.span)
    case _ => None
  }

  function Found(e: LockEvent): Option<nat> {
    if e.DidStore? then e.replaced else e.hit
  }

  ghost predicate EntryFits(s: State, fd: int) {
    match LastOn(s.log, fd)
    case Some(DidStore(_, data, ctx, _)) =>
      fd in s.table.fdMap && s.table.fdMap[fd] == ctx && Gate(data) == Some(LineOf(ctx))
    case _ => fd !in s.table.fdMap
  }

  ghost predicate EventFits(s: State, k: nat)
    requires k < |s.log|
  {
    Found(s.log[k]) == Pending(s.log[..k], s.log[k].fd)
  }

  ghost predicate HistoryInv(s: State) {
    && (forall fd :: EntryFits(s, fd))
    && (forall k :: 0 <= k < |s.log| ==> EventFits(s, k))
  }

  lemma LastOnSnoc(log: seq<LockEvent>, e: LockEvent, fd: int)
    ensures LastOn(log + [e], fd) == if e.fd == fd then Some(e) else LastOn(log, fd)
  {
    assert (log + [e])[..|log|] == log;
  }

  /** Appending an event that found what the table held, and left in the table what it says. */
  lemma HistorySnoc(s: State, s': State, e: LockEvent)
    requires HistoryInv(s) && s'.log == s.log + [e] && Found(e) == Hit(s.table, e.fd)
    requires forall fd :: fd != e.fd ==>
      && (fd in s'.table.fdMap <==> fd in s.table.fdMap)
      && (fd in s.table.fdMap ==> s'.table.fdMap[fd] == s.table.fdMap[fd])
    requires
      if e.DidStore? then e.fd in s'.table.fdMap && s'.table.fdMap[e.fd] == e.ctx && Gate(e.data) == Some(LineOf(e.ctx))
      else e.fd !in s'.table.fdMap
    ensures HistoryInv(s')
  {
    hide Gate;
    forall fd ensures EntryFits(s', fd) {
      LastOnSnoc(s.log, e, fd);
      assert EntryFits(s, fd);
    }
    forall k | 0 <= k < |s'.log| ensures EventFits(s', k) {
      assert s'.log[..k] == s.log[..k];
      if k < |s.log| {
        assert EventFits(s, k);
      } else {
        assert s.log[..k] == s.log;
        assert EntryFits(s, e.fd);
      }
    }
  }

  lemma ApplyHistory(cfg: Config, s: State, m: Move)
    requires Inv(cfg, s) && HistoryInv(s)
    ensures HistoryInv(Apply(cfg, s, m))
  {
    hide Gate, RequestOps, ResponseOps, LastCall;
    var s' := Apply(cfg, s, m);
    if m.Work? && m.t < |s.pcs| && (s.pcs[m.t].ReadStore? || s.pcs[m.t].WriteLock? || s.pcs[m.t].CloseLock?) {
      assert ThreadInv(s, m.t);
      HistorySnoc(s, s', s'.log[|s.log|]);
    } else {
      assert s'.log == s.log && s'.table.fdMap == s.table.fdMap;
      forall fd ensures EntryFits(s', fd) {
        assert EntryFits(s, fd);
      }
      forall k | 0 <= k < |s'.log| ensures EventFits(s', k) {
        assert EventFits(s, k);
      }
    }
  }

  lemma {:induction false} RunHistory(cfg: Config, s: State, moves: seq<Move>)
    requires Inv(cfg, s) && HistoryInv(s)
    ensures HistoryInv(Run(cfg, s, moves))
    decreases |moves|
  {
    if moves != [] {
      ApplyInv(cfg, s, moves[0]);
      ApplyHistory(cfg, s, moves[0]);
      RunHistory(cfg, Apply(cfg, s, moves[0]), moves[1..]);
    }
  }

  /** In every run, a descriptor is in the table exactly when the last thing that
      happened to it under the lock was a store, and its entry is that store's. */
  lemma TableIsHistory(cfg: Config, n: nat, open: set<int>, moves: seq<Move>, fd: int)
    ensures
      var s := Reached(cfg, n, open, moves);
      match LastOn(s.log, fd)
      case Some(DidStore(_, data, ctx, _)) =>
        fd in s.table.fdMap && s.table.fdMap[fd] == ctx && Gate(data) == Some(LineOf(ctx))
      case _ => fd !in s.table.fdMap
  {
    RunHistory(cfg, Start(n, open), moves);
    assert EntryFits(Reached(cfg, n, open, moves), fd);
  }

  /** A write or close ends, and a store replaces, exactly the span of the store that
      came last on the same descriptor. */
  lemma EventsFindTheLastStore(cfg: Config, n: nat, open: set<int>, moves: seq<Move>, k: nat)
    ensures
      var log := Reached(cfg, n, open, moves).log;
      k < |log| ==> Found(log[k]) == Pending(log[..k], log[k].fd)
  {
    RunHistory(cfg, Start(n, open), moves);
    var s := Reached(cfg, n, open, moves);
    if k < |s.log| {
      assert EventFits(s, k);
    }
  }

  /** A move changes at most the entry of the descriptor its thread is working on. */
  lemma OtherDescriptorsUntouched(cfg: Config, s: State, m: Move, fd: int)
    requires Inv(cfg, s)
    requires m.Work? && m.t < |s.pcs| ==>
      match s.pcs[m.t]
      case ReadStore(g, _, _) => g != fd
      case WriteLock(g, _, _) => g != fd
      case CloseLock(g) => g != fd
      case _ => true
    ensures
      var s' := Apply(cfg, s, m);
      && (fd in s'.table.fdMap <==> fd in s.table.fdMap)
      && (fd in s.table.fdMap ==> s'.table.fdMap[fd] == s.table.fdMap[fd])
  {
    hide Gate, RequestOps, ResponseOps, LastCall;
  }

  // ---- When nothing is replaced ------------------------------------------------------

  ghost predicate NothingReplaced(log: seq<LockEvent>) {
    forall k :: 0 <= k < |log| && log[k].DidStore? ==> log[k].replaced.None?
  }

  /** Between two stores on one descriptor there is a write or a close on it. */
  ghost predicate Alternates(log: seq<LockEvent>) {
    forall i, j :: 0 <= i < j < |log| && log[i].DidStore? && log[j].DidStore? && log[i].fd == log[j].fd ==>
      exists k :: i < k < j && log[k].fd == log[i].fd && !log[k].DidStore?
  }

  lemma {:induction false} LastOnIndex(log: seq<LockEvent>, fd: int) returns (k: nat)
    requires LastOn(log, fd).Some?
    ensures k < |log| && log[k].fd == fd && LastOn(log, fd) == Some(log[k])
    ensures forall j :: k < j < |log| ==> log[j].fd != fd
  {
    if log[|log| - 1].fd == fd {
      k := |log| - 1;
    } else {
      k := LastOnIndex(log[..|log| - 1], fd);
    }
  }

  lemma LastBefore(log: seq<LockEvent>, j: nat, fd: int) returns (k: nat)
    requires j <= |log| && LastOn(log[..j], fd).Some?
    ensures k < j && log[k].fd == fd && LastOn(log[..j], fd) == Some(log[k])
    ensures forall i :: k < i < j ==> log[i].fd != fd
  {
    k := LastOnIndex(log[..j], fd);
    assert forall i :: k <= i < j ==> log[..j][i] == log[i];
  }

  lemma {:induction false} LastOnExists(log: seq<LockEvent>, fd: int, i: nat)
    requires i < |log| && log[i].fd == fd
    ensures LastOn(log, fd).Some?
  {
    if log[|log| - 1].fd != fd {
      LastOnExists(log[..|log| - 1], fd, i);
    }
  }

  lemma ReplacementIsExact(s: State)
    requires HistoryInv(s)
    ensures Alternates(s.log) <==> NothingReplaced(s.log)
  {
    var log := s.log;
    if Alternates(log) {
      forall j | 0 <= j < |log| && log[j].DidStore? ensures log[j].replaced.None? {
        assert EventFits(s, j);
        if log[j].replaced.Some? {
          var i := LastBefore(log, j, log[j].fd);
        }
      }
    }
    if NothingReplaced(log) {
      forall i, j | 0 <= i < j < |log| && log[i].DidStore? && log[j].DidStore? && log[i].fd == log[j].fd
        ensures exists k :: i < k < j && log[k].fd == log[i].fd && !log[k].DidStore?
      {
        assert EventFits(s, j);
        assert log[..j][i] == log[i];
        LastOnExists(log[..j], log[j].fd, i);
        var k := LastBefore(log, j, log[j].fd);
        assert i < k < j && log[k].fd == log[i].fd && !log[k].DidStore?;
      }
    }
  }
}
