// When the entries of the descriptor table belong to descriptors that are open, whichever
// connection has the number now.
module OpenEntries {
  import opened HttpText
  import opened RequestParsing
  import opened SpanTable
  import opened TracedThreads
  import opened SpanHistory

  /** Every entry of the table belongs to an open descriptor. */
  ghost predicate EntriesOpen(s: State) {
    forall fd :: fd in s.table.fdMap ==> fd in s.world.open
  }

  /** A read is about to store its span, and its descriptor is closed at this moment. */
  ghost predicate StoresUnderClosed(s: State, m: Move) {
    m.Work? && m.t < |s.pcs| && s.pcs[m.t].ReadStore? && s.pcs[m.t].fd !in s.world.open
  }

  /** The real close completes, but some read has stored a span since the entry was removed. */
  ghost predicate ClosesLate(s: State, m: Move) {
    && m.Answer? && m.t < |s.pcs| && s.pcs[m.t].Calling? && s.pcs[m.t].call.RealClose?
    && KernelMay(s.world, s.pcs[m.t].call, m.result, m.data)
    && var last := LastOn(s.log, s.pcs[m.t].call.fd);
       last.Some? && last.value.DidStore?
  }

  lemma OneMoveIsExact(cfg: Config, s: State, m: Move)
    requires Inv(cfg, s) && HistoryInv(s) && EntriesOpen(s)
    ensures EntriesOpen(Apply(cfg, s, m)) <==> !StoresUnderClosed(s, m) && !ClosesLate(s, m)
  {
    hide Gate, RequestOps, ResponseOps, LastCall;
    var s' := Apply(cfg, s, m);
    if m.Work? && m.t < |s.pcs| && s.pcs[m.t].ReadStore? {
      assert s.pcs[m.t].fd in s'.table.fdMap;
    } else if m.Answer? && m.t < |s.pcs| && s.pcs[m.t].Calling? && s.pcs[m.t].call.RealClose? {
      assert EntryFits(s, s.pcs[m.t].call.fd);
    }
  }

  ghost predicate AlwaysOpen(cfg: Config, n: nat, open: set<int>, moves: seq<Move>) {
    forall k :: 0 <= k <= |moves| ==> EntriesOpen(Reached(cfg, n, open, moves[..k]))
  }

  ghost predicate NothingMisses(cfg: Config, n: nat, open: set<int>, moves: seq<Move>) {
    forall k :: 0 <= k < |moves| ==>
      var s := Reached(cfg, n, open, moves[..k]);
      !StoresUnderClosed(s, moves[k]) && !ClosesLate(s, moves[k])
  }

  /** In every run: all entries belong to open descriptors throughout if and only if no read
      stores under a descriptor closed at that moment and no close completes after a store
      that followed its removal of the entry. */
  lemma OpenIsExact(cfg: Config, n: nat, open: set<int>, moves: seq<Move>)
    ensures AlwaysOpen(cfg, n, open, moves) <==> NothingMisses(cfg, n, open, moves)
  {
    if AlwaysOpen(cfg, n, open, moves) {
      forall k | 0 <= k < |moves|
        ensures
          var s := Reached(cfg, n, open, moves[..k]);
          !StoresUnderClosed(s, moves[k]) && !ClosesLate(s, moves[k])
      {
        NextIsExact(cfg, n, open, moves, k);
        assert EntriesOpen(Reached(cfg, n, open, moves[..k + 1]));
      }
    }
    if NothingMisses(cfg, n, open, moves) {
      forall k | 0 <= k <= |moves| ensures EntriesOpen(Reached(cfg, n, open, moves[..k])) {
        OpenUpTo(cfg, n, open, moves, k);
      }
    }
  }

  lemma NextIsExact(cfg: Config, n: nat, open: set<int>, moves: seq<Move>, k: nat)
    requires k < |moves| && EntriesOpen(Reached(cfg, n, open, moves[..k]))
    ensures
      var s := Reached(cfg, n, open, moves[..k]);
      EntriesOpen(Reached(cfg, n, open, moves[..k + 1])) <==>
        !StoresUnderClosed(s, moves[k]) && !ClosesLate(s, moves[k])
  {
    StartInv(cfg, n, open);
    RunHistory(cfg, Start(n, open), moves[..k]);
    NextReached(cfg, n, open, moves, k);
    OneMoveIsExact(cfg, Reached(cfg, n, open, moves[..k]), moves[k]);
  }

  lemma {:induction false} OpenUpTo(cfg: Config, n: nat, open: set<int>, moves: seq<Move>, k: nat)
    requires NothingMisses(cfg, n, open, moves) && k <= |moves|
    ensures EntriesOpen(Reached(cfg, n, open, moves[..k]))
  {
    if k == 0 {
      assert Reached(cfg, n, open, moves[..0]) == Start(n, open);
    } else {
      OpenUpTo(cfg, n, open, moves, k - 1);
      NextIsExact(cfg, n, open, moves, k - 1);
    }
  }
}
