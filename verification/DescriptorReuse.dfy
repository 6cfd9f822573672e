// Descriptor numbers are reused: exactly when an entry of the table outlives the
// connection whose request it describes.
module DescriptorReuse {
  import opened HttpText
  import opened RequestParsing
  import opened SpanTable
  import opened TracedThreads
  import opened SpanHistory
  import opened OpenEntries

  /** A close of the descriptor was completed after the call at position `at`. */
  ghost predicate ClosedSince(w: World, fd: int, at: nat) {
    exists k :: at < k < |w.calls| && w.calls[k].call == RealClose(fd)
  }

  /** No entry has seen its descriptor closed since the read that made it. */
  ghost predicate Fresh(s: State) {
    forall fd :: fd in s.table.fdMap ==>
      s.table.fdMap[fd].span < |s.origin| && !ClosedSince(s.world, fd, s.origin[s.table.fdMap[fd].span].at)
  }

  // ---- Where a span's read stands among the real calls ----------------------------------

  /** The call at `at` read `data` from the descriptor, which is open unless closed since. */
  ghost predicate ReadAt(w: World, fd: int, data: string, at: nat) {
    && at < |w.calls| && w.calls[at].call.RealRead? && w.calls[at].call.fd == fd && w.calls[at].data == data
    && (fd in w.open || ClosedSince(w, fd, at))
  }

  ghost predicate ReadKnown(s: State, t: nat)
    requires t < |s.pcs|
  {
    match s.pcs[t]
    case ReadParse(fd, data) => ReadAt(s.world, fd, data, LastCall(s.world.calls, t))
    case ReadStart(fd, data, _) => ReadAt(s.world, fd, data, LastCall(s.world.calls, t))
    case _ => true
  }

  ghost predicate OriginKnown(s: State, id: nat)
    requires id < |s.origin|
  {
    ReadAt(s.world, s.origin[id].fd, s.origin[id].data, s.origin[id].at)
  }

  ghost predicate OriginInv(s: State) {
    && (forall t :: 0 <= t < |s.pcs| ==> ReadKnown(s, t))
    && (forall id :: 0 <= id < |s.origin| ==> OriginKnown(s, id))
  }

  lemma LastCallSnoc(calls: seq<Completed>, c: Completed, t: nat)
    ensures LastCall(calls + [c], t) == if c.t == t then |calls| else LastCall(calls, t)
  {
    assert (calls + [c])[..|calls|] == calls;
  }

  /** The world moves on, one real call at most; a descriptor is closed by a RealClose. */
  ghost predicate WorldStep(w: World, w': World) {
    || (w'.calls == w.calls && w.open <= w'.open)
    || (exists c ::
          w'.calls == w.calls + [c] && forall fd :: fd in w.open && fd !in w'.open ==> c.call == RealClose(fd))
  }

  lemma ReadAtStays(w: World, w': World, fd: int, data: string, at: nat)
    requires WorldStep(w, w') && ReadAt(w, fd, data, at)
    ensures ReadAt(w', fd, data, at)
  {
    if ClosedSince(w, fd, at) {
      var k :| at < k < |w.calls| && w.calls[k].call == RealClose(fd);
      assert w'.calls[k] == w.calls[k];
    } else if fd !in w'.open {
      assert w'.calls[|w.calls|].call == RealClose(fd);
    }
  }

  lemma ApplyWorld(cfg: Config, s: State, m: Move)
    requires Inv(cfg, s)
    ensures WorldStep(s.world, Apply(cfg, s, m).world)
  {
    hide Gate, RequestOps, ResponseOps, LastCall;
    var s' := Apply(cfg, s, m);
    if s'.world.calls != s.world.calls {
      assert s'.world.calls == s.world.calls + [s'.world.calls[|s.world.calls|]];
    }
  }

  lemma ApplyReadKnown(cfg: Config, s: State, m: Move, t: nat)
    requires Inv(cfg, s) && OriginInv(s) && t < |Apply(cfg, s, m).pcs|
    ensures ReadKnown(Apply(cfg, s, m), t)
  {
    hide Gate, RequestOps, ResponseOps, LastCall;
    var s' := Apply(cfg, s, m);
    ApplyWorld(cfg, s, m);
    assert ReadKnown(s, t);
    if s'.world.calls != s.world.calls {
      LastCallSnoc(s.world.calls, s'.world.calls[|s.world.calls|], t);
    }
    if s.pcs[t].ReadParse? || s.pcs[t].ReadStart? {
      ReadAtStays(s.world, s'.world, s.pcs[t].fd, s.pcs[t].data, LastCall(s.world.calls, t));
    }
    hide ClosedSince, WorldStep;
  }

  lemma ApplyOrigin(cfg: Config, s: State, m: Move)
    requires Inv(cfg, s) && OriginInv(s)
    ensures OriginInv(Apply(cfg, s, m))
  {
    hide Gate, RequestOps, ResponseOps, LastCall;
    var s' := Apply(cfg, s, m);
    ApplyWorld(cfg, s, m);
    forall t | 0 <= t < |s'.pcs| ensures ReadKnown(s', t) {
      ApplyReadKnown(cfg, s, m, t);
    }
    forall id | 0 <= id < |s'.origin| ensures OriginKnown(s', id) {
      if id < |s.origin| {
        assert OriginKnown(s, id);
        ReadAtStays(s.world, s'.world, s.origin[id].fd, s.origin[id].data, s.origin[id].at);
      } else {
        assert ReadKnown(s, m.t);
      }
    }
    hide ReadAt, WorldStep;
  }

  lemma {:induction false} RunOrigin(cfg: Config, s: State, moves: seq<Move>)
    requires Inv(cfg, s) && OriginInv(s)
    ensures OriginInv(Run(cfg, s, moves))
    decreases |moves|
  {
    if moves != [] {
      ApplyInv(cfg, s, moves[0]);
      ApplyOrigin(cfg, s, moves[0]);
      RunOrigin(cfg, Apply(cfg, s, moves[0]), moves[1..]);
    }
  }

  /** An entry that has not outlived its connection belongs to an open descriptor. */
  lemma FreshIsOpen(cfg: Config, s: State)
    requires Inv(cfg, s) && OriginInv(s) && Fresh(s)
    ensures EntriesOpen(s)
  {
    hide Gate, RequestOps, ResponseOps, LastCall;
    forall fd | fd in s.table.fdMap ensures fd in s.world.open {
      var id := s.table.fdMap[fd].span;
      assert FdInv(s, fd) && SpanInv(cfg, s, id) && OriginKnown(s, id);
    }
  }

  // ---- Exactly when an entry outlives its connection -------------------------------------

  /** A read is about to store its span, but its descriptor was closed after the real read,
      whether or not the number has been handed out again by now. */
  ghost predicate StoresLate(s: State, m: Move) {
    && m.Work? && m.t < |s.pcs| && s.pcs[m.t].ReadStore? && s.pcs[m.t].ctx.span < |s.origin|
    && ClosedSince(s.world, s.pcs[m.t].fd, s.origin[s.pcs[m.t].ctx.span].at)
  }

  lemma OneMoveIsFresh(cfg: Config, s: State, m: Move)
    requires Inv(cfg, s) && HistoryInv(s) && OriginInv(s) && Fresh(s)
    ensures Fresh(Apply(cfg, s, m)) <==> !StoresLate(s, m) && !ClosesLate(s, m)
  {
    hide Gate, RequestOps, ResponseOps, LastCall;
    var s' := Apply(cfg, s, m);
    if m.Answer? && m.t < |s.pcs| && s.pcs[m.t].Calling? && KernelMay(s.world, s.pcs[m.t].call, m.result, m.data) {
      AnswerIsFresh(cfg, s, m);
    } else if m.Work? && m.t < |s.pcs| && s.pcs[m.t].ReadStore? {
      assert ThreadInv(s, m.t);
      assert s.pcs[m.t].fd in s'.table.fdMap;
    }
  }

  lemma AnswerIsFresh(cfg: Config, s: State, m: Move)
    requires Inv(cfg, s) && HistoryInv(s) && OriginInv(s) && Fresh(s)
    requires m.Answer? && m.t < |s.pcs| && s.pcs[m.t].Calling? && KernelMay(s.world, s.pcs[m.t].call, m.result, m.data)
    ensures Fresh(Apply(cfg, s, m)) <==> !ClosesLate(s, m)
  {
    hide Gate, RequestOps, ResponseOps, LastCall;
    var s' := Apply(cfg, s, m);
    var n, call := |s.world.calls|, s.pcs[m.t].call;
    assert s'.table == s.table && s'.origin == s.origin;
    assert s'.world.calls == s.world.calls + [Completed(m.t, call, m.result, m.data)];
    forall fd | fd in s.table.fdMap
      ensures var at := s.origin[s.table.fdMap[fd].span].at; ClosedSince(s'.world, fd, at) <==> call == RealClose(fd)
    {
      var id := s.table.fdMap[fd].span;
      assert OriginKnown(s, id) && s'.world.calls[n].call == call;
      assert forall k :: 0 <= k < n ==> s'.world.calls[k] == s.world.calls[k];
    }
    if call.RealClose? {
      assert EntryFits(s, call.fd);
    }
    hide Apply, Inv;
  }

  ghost predicate AlwaysFresh(cfg: Config, n: nat, open: set<int>, moves: seq<Move>) {
    forall k :: 0 <= k <= |moves| ==> Fresh(Reached(cfg, n, open, moves[..k]))
  }

  ghost predicate NothingLate(cfg: Config, n: nat, open: set<int>, moves: seq<Move>) {
    forall k :: 0 <= k < |moves| ==>
      var s := Reached(cfg, n, open, moves[..k]);
      !StoresLate(s, moves[k]) && !ClosesLate(s, moves[k])
  }

  /** In every run: no entry ever outlives the connection it was read from if and only if no
      read stores its span after a close of its descriptor, and no close completes after
      a store that followed its removal of the entry. */
  lemma FreshIsExact(cfg: Config, n: nat, open: set<int>, moves: seq<Move>)
    ensures AlwaysFresh(cfg, n, open, moves) <==> NothingLate(cfg, n, open, moves)
  {
    if AlwaysFresh(cfg, n, open, moves) {
      forall k | 0 <= k < |moves|
        ensures
          var s := Reached(cfg, n, open, moves[..k]);
          !StoresLate(s, moves[k]) && !ClosesLate(s, moves[k])
      {
        NextIsFresh(cfg, n, open, moves, k);
        assert Fresh(Reached(cfg, n, open, moves[..k + 1]));
      }
    }
    if NothingLate(cfg, n, open, moves) {
      forall k | 0 <= k <= |moves| ensures Fresh(Reached(cfg, n, open, moves[..k])) {
        FreshUpTo(cfg, n, open, moves, k);
      }
    }
  }

  lemma KnownAt(cfg: Config, n: nat, open: set<int>, moves: seq<Move>)
    ensures HistoryInv(Reached(cfg, n, open, moves)) && OriginInv(Reached(cfg, n, open, moves))
  {
    StartInv(cfg, n, open);
    RunHistory(cfg, Start(n, open), moves);
    RunOrigin(cfg, Start(n, open), moves);
  }

  lemma NextIsFresh(cfg: Config, n: nat, open: set<int>, moves: seq<Move>, k: nat)
    requires k < |moves| && Fresh(Reached(cfg, n, open, moves[..k]))
    ensures
      var s := Reached(cfg, n, open, moves[..k]);
      Fresh(Reached(cfg, n, open, moves[..k + 1])) <==> !StoresLate(s, moves[k]) && !ClosesLate(s, moves[k])
  {
    KnownAt(cfg, n, open, moves[..k]);
    NextReached(cfg, n, open, moves, k);
    OneMoveIsFresh(cfg, Reached(cfg, n, open, moves[..k]), moves[k]);
  }

  lemma {:induction false} FreshUpTo(cfg: Config, n: nat, open: set<int>, moves: seq<Move>, k: nat)
    requires NothingLate(cfg, n, open, moves) && k <= |moves|
    ensures Fresh(Reached(cfg, n, open, moves[..k]))
  {
    if k == 0 {
      assert Reached(cfg, n, open, moves[..0]) == Start(n, open);
    } else {
      FreshUpTo(cfg, n, open, moves, k - 1);
      NextIsFresh(cfg, n, open, moves, k - 1);
    }
  }

  // ---- A discipline that suffices ------------------------------------------------------

  /** The descriptor a thread is inside `read` on, until its span is stored. */
  function Reading(pc: Pc): Option<int> {
    match pc
    case Calling(RealRead(fd, _)) => Some(fd)
    case ReadParse(fd, _) => Some(fd)
    case ReadStart(fd, _, _) => Some(fd)
    case ReadAnnotate(fd, _, _) => Some(fd)
    case ReadStore(fd, _, _) => Some(fd)
    case _ => None
  }

  /** The descriptor a thread is inside `close` on, until the real close is done. */
  function Closing(pc: Pc): Option<int> {
    match pc
    case CloseLock(fd) => Some(fd)
    case Calling(RealClose(fd)) => Some(fd)
    case _ => None
  }

  /** No read is called on a descriptor that is being closed, and no close on one that is
      being read. Everything else may overlap. */
  ghost predicate Polite(s: State, m: Move) {
    match m
    case Call(_, RealRead(fd, _)) => forall u :: 0 <= u < |s.pcs| ==> Closing(s.pcs[u]) != Some(fd)
    case Call(_, RealClose(fd)) => forall u :: 0 <= u < |s.pcs| ==> Reading(s.pcs[u]) != Some(fd)
    case _ => true
  }

  ghost predicate PoliteRun(cfg: Config, n: nat, open: set<int>, moves: seq<Move>) {
    forall k :: 0 <= k < |moves| ==> Polite(Reached(cfg, n, open, moves[..k]), moves[k])
  }

  ghost predicate SpanUnclosed(s: State, fd: int, id: nat) {
    id < |s.origin| && !ClosedSince(s.world, fd, s.origin[id].at)
  }

  /** The descriptor has not been closed since the read a thread is still inside; a thread
      about to make the real close has already emptied its entry. */
  ghost predicate PlaceInv(s: State, t: nat)
    requires t < |s.pcs|
  {
    match s.pcs[t]
    case ReadParse(fd, _) => !ClosedSince(s.world, fd, LastCall(s.world.calls, t))
    case ReadStart(fd, _, _) => !ClosedSince(s.world, fd, LastCall(s.world.calls, t))
    case ReadAnnotate(fd, _, ctx) => SpanUnclosed(s, fd, ctx.span)
    case ReadStore(fd, _, ctx) => SpanUnclosed(s, fd, ctx.span)
    case Calling(RealClose(fd)) => fd !in s.table.fdMap
    case _ => true
  }

  /** No descriptor is being read and closed at once. */
  ghost predicate Exclusive(s: State) {
    forall t, u :: 0 <= t < |s.pcs| && 0 <= u < |s.pcs| && Reading(s.pcs[t]).Some? ==>
      Reading(s.pcs[t]) != Closing(s.pcs[u])
  }

  ghost predicate PoliteInv(s: State) {
    Exclusive(s) && forall t :: 0 <= t < |s.pcs| ==> PlaceInv(s, t)
  }

  /** Only a call takes a thread to a descriptor. */
  lemma StaysOnDescriptor(cfg: Config, s: State, m: Move)
    requires Inv(cfg, s) && !m.Open? && m.t < |s.pcs|
    ensures
      var s' := Apply(cfg, s, m);
      && s'.pcs == s.pcs[m.t := s'.pcs[m.t]]
      && (Reading(s'.pcs[m.t]).Some? ==>
            || Reading(s'.pcs[m.t]) == Reading(s.pcs[m.t])
            || (m.Call? && m.call.RealRead? && Some(m.call.fd) == Reading(s'.pcs[m.t])))
      && (Closing(s'.pcs[m.t]).Some? ==>
            || Closing(s'.pcs[m.t]) == Closing(s.pcs[m.t])
            || (m.Call? && m.call.RealClose? && Some(m.call.fd) == Closing(s'.pcs[m.t])))
  {
    hide Gate, RequestOps, ResponseOps, LastCall;
  }

  lemma ApplyExclusive(cfg: Config, s: State, m: Move)
    requires Inv(cfg, s) && Exclusive(s) && Polite(s, m)
    ensures Exclusive(Apply(cfg, s, m))
  {
    hide Gate, RequestOps, ResponseOps, LastCall, Reading, Closing;
    if !m.Open? && m.t < |s.pcs| {
      StaysOnDescriptor(cfg, s, m);
      NotBoth(Apply(cfg, s, m).pcs[m.t]);
      hide Apply, Inv;
    }
  }

  lemma NotBoth(pc: Pc)
    ensures Reading(pc).None? || Closing(pc).None?
  {}

  /** A descriptor that is not being closed by the thread that moves stays unclosed. */
  lemma StaysUnclosed(cfg: Config, s: State, m: Move, fd: int, at: nat)
    requires Inv(cfg, s) && !ClosedSince(s.world, fd, at)
    requires !m.Open? && m.t < |s.pcs| ==> Closing(s.pcs[m.t]) != Some(fd)
    ensures !ClosedSince(Apply(cfg, s, m).world, fd, at)
  {
    hide Gate, RequestOps, ResponseOps, LastCall;
    var s' := Apply(cfg, s, m);
    assert forall k :: 0 <= k < |s.world.calls| ==> s'.world.calls[k] == s.world.calls[k];
  }

  /** The threads that do not move stay in place. */
  lemma OtherPlace(cfg: Config, s: State, m: Move, t: nat)
    requires Inv(cfg, s) && PoliteInv(s) && t < |s.pcs| && (m.Open? || m.t != t)
    ensures PlaceInv(Apply(cfg, s, m), t)
  {
    hide Gate, RequestOps, ResponseOps, LastCall, ClosedSince, ThreadInv, SpanInv, FdInv;
    var s' := Apply(cfg, s, m);
    assert PlaceInv(s, t);
    if !m.Open? && m.t < |s.pcs| {
      assert Reading(s.pcs[t]).Some? ==> Reading(s.pcs[t]) != Closing(s.pcs[m.t]);
      assert Reading(s.pcs[m.t]).Some? ==> Reading(s.pcs[m.t]) != Closing(s.pcs[t]);
    }
    if s'.world.calls != s.world.calls {
      LastCallSnoc(s.world.calls, s'.world.calls[|s.world.calls|], t);
    }
    match s.pcs[t]
    case ReadParse(fd, _) => StaysUnclosed(cfg, s, m, fd, LastCall(s.world.calls, t));
    case ReadStart(fd, _, _) => StaysUnclosed(cfg, s, m, fd, LastCall(s.world.calls, t));
    case ReadAnnotate(fd, _, ctx) => StaysUnclosed(cfg, s, m, fd, s.origin[ctx.span].at);
    case ReadStore(fd, _, ctx) => StaysUnclosed(cfg, s, m, fd, s.origin[ctx.span].at);
    case _ =>
  }

  /** The thread that moves takes what it knows along. */
  lemma MoverPlace(cfg: Config, s: State, m: Move)
    requires Inv(cfg, s) && PoliteInv(s) && !m.Open? && m.t < |s.pcs|
    ensures PlaceInv(Apply(cfg, s, m), m.t)
  {
    hide Gate, RequestOps, ResponseOps, LastCall, ThreadInv, SpanInv, FdInv;
    var s' := Apply(cfg, s, m);
    assert PlaceInv(s, m.t);
    if m.Answer? && s'.world.calls != s.world.calls {
      LastCallSnoc(s.world.calls, s'.world.calls[|s.world.calls|], m.t);
    }
  }

  lemma ApplyPlace(cfg: Config, s: State, m: Move, t: nat)
    requires Inv(cfg, s) && PoliteInv(s) && t < |Apply(cfg, s, m).pcs|
    ensures PlaceInv(Apply(cfg, s, m), t)
  {
    if !m.Open? && m.t == t && t < |s.pcs| {
      MoverPlace(cfg, s, m);
    } else {
      OtherPlace(cfg, s, m, t);
    }
    hide Inv, PlaceInv, PoliteInv;
  }

  lemma {:induction false} PoliteUpTo(cfg: Config, n: nat, open: set<int>, moves: seq<Move>, k: nat)
    requires PoliteRun(cfg, n, open, moves) && k <= |moves|
    ensures PoliteInv(Reached(cfg, n, open, moves[..k]))
  {
    if k == 0 {
      assert Reached(cfg, n, open, moves[..0]) == Start(n, open);
    } else {
      PoliteUpTo(cfg, n, open, moves, k - 1);
      NextReached(cfg, n, open, moves, k - 1);
      var s, m := Reached(cfg, n, open, moves[..k - 1]), moves[k - 1];
      ApplyExclusive(cfg, s, m);
      forall t | 0 <= t < |Apply(cfg, s, m).pcs| ensures PlaceInv(Apply(cfg, s, m), t) {
        ApplyPlace(cfg, s, m, t);
      }
    }
  }

  lemma PlacedIsNotLate(s: State, m: Move)
    requires HistoryInv(s) && PoliteInv(s)
    ensures !StoresLate(s, m) && !ClosesLate(s, m)
  {
    hide Gate;
    if (m.Work? || m.Answer?) && m.t < |s.pcs| {
      assert PlaceInv(s, m.t);
      if s.pcs[m.t].Calling? && s.pcs[m.t].call.RealClose? {
        assert EntryFits(s, s.pcs[m.t].call.fd);
      }
    }
  }

  /** Then nothing is ever late. */
  lemma PoliteIsNeverLate(cfg: Config, n: nat, open: set<int>, moves: seq<Move>)
    requires PoliteRun(cfg, n, open, moves)
    ensures NothingLate(cfg, n, open, moves)
  {
    hide StoresLate, ClosesLate;
    forall k | 0 <= k < |moves|
      ensures
        var s := Reached(cfg, n, open, moves[..k]);
        !StoresLate(s, moves[k]) && !ClosesLate(s, moves[k])
    {
      PoliteUpTo(cfg, n, open, moves, k);
      KnownAt(cfg, n, open, moves[..k]);
      PlacedIsNotLate(Reached(cfg, n, open, moves[..k]), moves[k]);
    }
  }

  /** If no descriptor is read and closed at once, no entry outlives its connection, every
      entry belongs to an open descriptor, and the number accept hands out next has none. */
  lemma EntriesAreOpen(cfg: Config, n: nat, open: set<int>, moves: seq<Move>)
    requires PoliteRun(cfg, n, open, moves)
    ensures
      var s := Reached(cfg, n, open, moves);
      && Fresh(s) && EntriesOpen(s)
      && (forall sockfd, fd :: fd != -1 && KernelMay(s.world, RealAccept(sockfd), fd, "") ==> fd !in s.table.fdMap)
  {
    PoliteIsNeverLate(cfg, n, open, moves);
    FreshIsExact(cfg, n, open, moves);
    assert moves[..|moves|] == moves;
    KnownAt(cfg, n, open, moves);
    FreshIsOpen(cfg, Reached(cfg, n, open, moves));
  }

  // ---- Both ways to be late happen -----------------------------------------------------

  /** Thread 0 has started and described a span for `data` on descriptor 5, thread 1 is idle. */
  ghost predicate ReadyToStore(s: State, data: string) {
    && |s.pcs| == 2 && s.pcs[0].ReadStore? && s.pcs[0].fd == 5 && s.pcs[0].data == data
    && s.pcs[1].Idle? && s.table.fdMap == map[] && s.world.open == {5}
    && s.world.calls == [Completed(0, RealRead(5, |data|), |data|, data)]
    && s.pcs[0].ctx.span < |s.origin| && s.origin[s.pcs[0].ctx.span].at == 0
  }

  lemma ReadUpToParse(cfg: Config, data: string) returns (moves: seq<Move>)
    requires cfg.tracing && data != ""
    ensures
      var s := Reached(cfg, 2, {5}, moves);
      && s.pcs == [ReadParse(5, data), Idle] && s.table.fdMap == map[] && s.world.open == {5}
      && s.world.calls == [Completed(0, RealRead(5, |data|), |data|, data)]
  {
    hide Gate, RequestOps, ResponseOps, LastCall;
    var s0 := Start(2, {5});
    moves := [] + [Call(0, RealRead(5, |data|))];
    RunSnoc(cfg, s0, [], Call(0, RealRead(5, |data|)));
    assert Run(cfg, s0, moves).pcs == [Calling(RealRead(5, |data|)), Idle];
    RunSnoc(cfg, s0, moves, Answer(0, |data|, data));
    moves := moves + [Answer(0, |data|, data)];
  }

  lemma ReadUpToStore(cfg: Config, data: string) returns (moves: seq<Move>)
    requires cfg.tracing && data != "" && Gate(data).Some?
    ensures ReadyToStore(Reached(cfg, 2, {5}, moves), data)
  {
    hide Gate, RequestOps, ResponseOps, LastCall;
    var s0 := Start(2, {5});
    moves := ReadUpToParse(cfg, data);
    var c := Completed(0, RealRead(5, |data|), |data|, data);
    LastCallSnoc([], c, 0);
    assert [] + [c] == [c];
    RunSnoc(cfg, s0, moves, Work(0));
    moves := moves + [Work(0)];
    assert Run(cfg, s0, moves).pcs == [ReadStart(5, data, Gate(data).value), Idle];
    RunSnoc(cfg, s0, moves, Work(0));
    moves := moves + [Work(0)];
    var s := Run(cfg, s0, moves);
    assert s.pcs[0].ReadAnnotate? && s.pcs[0].fd == 5 && s.pcs[1].Idle? && s.origin[s.pcs[0].ctx.span].at == 0;
    RunSnoc(cfg, s0, moves, Work(0));
    moves := moves + [Work(0)];
  }

  /** Thread 1 closes descriptor 5 and accepts a connection that gets the number back. */
  lemma CloseAndAccept(cfg: Config, s: State, data: string) returns (moves: seq<Move>)
    requires Inv(cfg, s) && ReadyToStore(s, data)
    ensures
      var s' := Run(cfg, s, moves);
      && |s'.pcs| == 2 && s'.pcs[0] == s.pcs[0] && s'.origin == s.origin
      && s'.table.fdMap == map[] && 5 in s'.world.open
      && s'.world.calls == s.world.calls + [Completed(1, RealClose(5), 0, ""), Completed(1, RealAccept(3), 5, "")]
  {
    hide Gate, RequestOps, ResponseOps, LastCall;
    RunSnoc(cfg, s, [], Call(1, RealClose(5)));
    moves := [] + [Call(1, RealClose(5))];
    assert Run(cfg, s, moves).pcs == [s.pcs[0], CloseLock(5)];
    RunSnoc(cfg, s, moves, Work(1));
    moves := moves + [Work(1)];
    assert Run(cfg, s, moves).pcs == [s.pcs[0], Calling(RealClose(5))];
    RunSnoc(cfg, s, moves, Answer(1, 0, ""));
    moves := moves + [Answer(1, 0, "")];
    assert Run(cfg, s, moves).pcs == [s.pcs[0], Returning(0)];
    RunSnoc(cfg, s, moves, Return(1));
    moves := moves + [Return(1)];
    assert Run(cfg, s, moves).pcs == [s.pcs[0], Idle];
    RunSnoc(cfg, s, moves, Call(1, RealAccept(3)));
    moves := moves + [Call(1, RealAccept(3))];
    assert Run(cfg, s, moves).pcs == [s.pcs[0], Calling(RealAccept(3))];
    RunSnoc(cfg, s, moves, Answer(1, 5, ""));
    moves := moves + [Answer(1, 5, "")];
  }

  /** Thread 1 removes the entry for its close, then thread 0 stores its span. */
  function StoreInsideClose(): seq<Move> {
    [Call(1, RealClose(5))] + [Work(1)] + [Work(0)]
  }

  lemma StoredInsideClose(cfg: Config, s: State, data: string)
    requires Inv(cfg, s) && ReadyToStore(s, data)
    ensures
      var s' := Run(cfg, s, StoreInsideClose());
      && |s'.pcs| == 2 && s'.pcs[1] == Calling(RealClose(5)) && s'.world == s.world && s'.origin == s.origin
      && 5 in s'.table.fdMap && s'.table.fdMap[5].span == s.pcs[0].ctx.span
      && s'.log != [] && s'.log[|s'.log| - 1].DidStore? && s'.log[|s'.log| - 1].fd == 5
  {
    hide Gate, RequestOps, ResponseOps, LastCall;
    var call, close, store := [Call(1, RealClose(5))], [Work(1)], [Work(0)];
    RunSnoc(cfg, s, [], Call(1, RealClose(5)));
    assert [] + call == call;
    RunSnoc(cfg, s, call, Work(1));
    assert Run(cfg, s, call + close).pcs == [s.pcs[0], Calling(RealClose(5))];
    RunSnoc(cfg, s, call + close, Work(0));
  }

  /** One way to be late: the span is stored after `close` removed the entry and
      before its real close, so the entry is left under a closed descriptor. */
  lemma EntryOutlivesClose(cfg: Config, data: string) returns (moves: seq<Move>)
    requires cfg.tracing && data != "" && Gate(data).Some?
    ensures
      var s := Reached(cfg, 2, {5}, moves);
      && s.world.calls == [Completed(0, RealRead(5, |data|), |data|, data), Completed(1, RealClose(5), 0, "")]
      && 5 in s.table.fdMap && 5 !in s.world.open && !Fresh(s)
      && moves != [] && ClosesLate(Reached(cfg, 2, {5}, moves[..|moves| - 1]), moves[|moves| - 1])
  {
    hide Gate, RequestOps, ResponseOps, LastCall;
    var s0 := Start(2, {5});
    var first := ReadUpToStore(cfg, data);
    var s1 := Run(cfg, s0, first);
    var before := first + StoreInsideClose();
    RunAppend(cfg, s0, first, StoreInsideClose());
    StoredInsideClose(cfg, s1, data);
    RunSnoc(cfg, s0, before, Answer(1, 0, ""));
    moves := before + [Answer(1, 0, "")];
    assert moves[..|moves| - 1] == before;
    assert Run(cfg, s0, moves).world.calls[1].call == RealClose(5);
  }

  /** A span stored under a descriptor that is closed at that moment. */
  lemma StoreUnderClosed(cfg: Config, data: string) returns (moves: seq<Move>)
    requires cfg.tracing && data != "" && Gate(data).Some?
    ensures
      var s := Reached(cfg, 2, {5}, moves);
      && s.world.calls == [Completed(0, RealRead(5, |data|), |data|, data), Completed(1, RealClose(5), 0, "")]
      && 5 in s.table.fdMap && 5 !in s.world.open
      && moves != [] && StoresUnderClosed(Reached(cfg, 2, {5}, moves[..|moves| - 1]), moves[|moves| - 1])
  {
    hide Gate, RequestOps, ResponseOps, LastCall;
    var s0 := Start(2, {5});
    moves := ReadUpToStore(cfg, data);
    RunSnoc(cfg, s0, moves, Call(1, RealClose(5)));
    moves := moves + [Call(1, RealClose(5))];
    RunSnoc(cfg, s0, moves, Work(1));
    moves := moves + [Work(1)];
    assert Run(cfg, s0, moves).pcs[1] == Calling(RealClose(5));
    RunSnoc(cfg, s0, moves, Answer(1, 0, ""));
    var before := moves + [Answer(1, 0, "")];
    RunSnoc(cfg, s0, before, Work(0));
    moves := before + [Work(0)];
    assert moves[..|moves| - 1] == before;
  }

  /** Whatever the request: a read that has not stored its span when another thread closes
      the descriptor stores it under the next connection's. */
  lemma StaleEntry(cfg: Config, data: string) returns (moves: seq<Move>)
    requires cfg.tracing && data != "" && Gate(data).Some?
    ensures
      var s := Reached(cfg, 2, {5}, moves);
      && s.world.calls == [Completed(0, RealRead(5, |data|), |data|, data),
                           Completed(1, RealClose(5), 0, ""), Completed(1, RealAccept(3), 5, "")]
      && 5 in s.table.fdMap && 5 in s.world.open && LineOf(s.table.fdMap[5]) == Gate(data).value && !Fresh(s)
      && moves != [] && StoresLate(Reached(cfg, 2, {5}, moves[..|moves| - 1]), moves[|moves| - 1])
  {
    hide Gate, RequestOps, ResponseOps, LastCall;
    var s0 := Start(2, {5});
    var first := ReadUpToStore(cfg, data);
    var s1 := Run(cfg, s0, first);
    var after := CloseAndAccept(cfg, s1, data);
    var s2 := Run(cfg, s1, after);
    assert ThreadInv(s1, 0);
    RunAppend(cfg, s0, first, after);
    RunSnoc(cfg, s0, first + after, Work(0));
    moves := first + after + [Work(0)];
    assert moves[..|moves| - 1] == first + after;
    assert Run(cfg, s0, moves).world.calls[1].call == RealClose(5);
  }
}
