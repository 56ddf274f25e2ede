/** The activity test of two-phase borrows in terms of the temporary that holds the borrow: while the test says that the
    borrow is not active, the temporary has not been used on any run since the borrow was last reserved. */
module TwoPhaseUses {
  import opened Mir
  import opened PlacesConflict
  import opened BorrowSets
  import opened VisitEvents
  import opened Activations
  import opened TwoPhaseBorrows

  // ---------------------------------------------------------------- the order of the visit

  /** A preorder traversal comes to the blocks that can be reached, and to each after the blocks that dominate it. */
  ghost predicate PreorderOf(body: Body, blocks: seq<BasicBlock>) {
    && BlocksInRange(body, blocks) && DistinctBlocks(blocks)
    && (forall b: nat :: b in blocks <==> Reachable(body, Location(b, 0)))
    && forall i, j :: 0 <= i < |blocks| && 0 <= j < |blocks| && BlockDominates(body, blocks[i], blocks[j]) ==> i <= j
  }

  lemma {:induction false} OrderConcat(body: Body, a: seq<BasicBlock>, b: seq<BasicBlock>)
    requires BlocksInRange(body, a) && BlocksInRange(body, b)
    ensures BlocksInRange(body, a + b) && VisitOrder(body, a + b) == VisitOrder(body, a) + VisitOrder(body, b)
    decreases |a|
  {
    if a == [] {
      assert a + b == b;
    } else {
      assert (a + b)[1..] == a[1..] + b;
      OrderConcat(body, a[1..], b);
    }
  }

  /** Where the visit comes to the point with index `k` of the block `blocks[i]`. */
  function PositionOf(body: Body, blocks: seq<BasicBlock>, i: nat, k: nat): nat
    requires BlocksInRange(body, blocks) && i < |blocks|
  {
    |VisitOrder(body, blocks[..i])| + k
  }

  lemma PositionIs(body: Body, blocks: seq<BasicBlock>, i: nat, k: nat)
    requires BlocksInRange(body, blocks) && i < |blocks| && IsPoint(body, Location(blocks[i], k))
    ensures PositionOf(body, blocks, i, k) < |VisitOrder(body, blocks)|
    ensures VisitOrder(body, blocks)[PositionOf(body, blocks, i, k)] == Location(blocks[i], k)
  {
    assert blocks == blocks[..i] + blocks[i..];
    OrderConcat(body, blocks[..i], blocks[i..]);
    assert VisitOrder(body, blocks[i..]) == BlockPoints(body, blocks[i], 0) + VisitOrder(body, blocks[i..][1..]);
  }

  lemma PositionGrows(body: Body, blocks: seq<BasicBlock>, i: nat, j: nat, k: nat)
    requires BlocksInRange(body, blocks) && i < j < |blocks| && IsPoint(body, Location(blocks[i], k))
    ensures PositionOf(body, blocks, i, k) <= PositionOf(body, blocks, j, 0)
  {
    var front := blocks[..j];
    PositionIs(body, front, i, k);
    assert front[..i] == blocks[..i];
  }

  lemma BlockEntryReachable(body: Body, p: Location)
    requires Reachable(body, p)
    ensures Reachable(body, Location(p.block, 0)) && IsPoint(body, p)
  {
    var run :| IsRun(body, run, p);
    PathPoints(body, run, |run| - 1);
    var k := ThroughBlock(body, run, p, 0);
    PathSlice(body, run, 0, k + 1);
    assert IsRun(body, run[..k + 1], Location(p.block, 0));
  }

  lemma PointReachable(body: Body, p: Location)
    requires Reachable(body, Location(p.block, 0)) && IsPoint(body, p)
    ensures Reachable(body, p)
  {
    var run :| IsRun(body, run, Location(p.block, 0));
    var rest := BlockPath(body, p.block, 0, p.index);
    PathJoin(body, run, rest);
    assert IsRun(body, run + rest[1..], p);
  }

  /** The visit comes to a point after the points that dominate it. */
  lemma DominatorVisitedFirst(body: Body, blocks: seq<BasicBlock>, r: Location, p: Location)
    requires PreorderOf(body, blocks)
    requires Reachable(body, p) && IsPoint(body, r) && PointDominates(body, r, p)
    ensures NotBefore(VisitOrder(body, blocks), r, p)
  {
    BlockEntryReachable(body, p);
    var j: nat :| j < |blocks| && blocks[j] == p.block;
    if r.block == p.block {
      if r.index > p.index {
        LaterInBlock(body, r, p);
      }
      InVisitOrder(body, blocks, j, r, j, p);
    } else {
      DominatorBlock(body, r, p);
      BlockEntryReachable(body, r);
      var i: nat :| i < |blocks| && blocks[i] == r.block;
      InVisitOrder(body, blocks, i, r, j, p);
    }
  }

  lemma InVisitOrder(body: Body, blocks: seq<BasicBlock>, i: nat, r: Location, j: nat, p: Location)
    requires BlocksInRange(body, blocks) && i < |blocks| && j < |blocks|
    requires IsPoint(body, r) && r.block == blocks[i] && IsPoint(body, p) && p.block == blocks[j]
    requires i < j || (i == j && r.index <= p.index)
    ensures NotBefore(VisitOrder(body, blocks), r, p)
  {
    PositionIs(body, blocks, i, r.index);
    PositionIs(body, blocks, j, p.index);
    if i < j {
      PositionGrows(body, blocks, i, j, r.index);
    }
  }

  lemma DominatorBlock(body: Body, r: Location, p: Location)
    requires Reachable(body, p) && IsPoint(body, p) && r.block != p.block && PointDominates(body, r, p)
    ensures BlockDominates(body, r.block, p.block) && Reachable(body, r)
  {
    forall run: seq<Location> | IsRun(body, run, Location(p.block, 0))
      ensures exists k :: 0 <= k < |run| && run[k].block == r.block
    {
      DominatorVisited(body, r, p, run);
    }
    var run :| IsRun(body, run, p);
    var k :| 0 <= k < |run| && run[k] == r;
    PathSlice(body, run, 0, k + 1);
    assert IsRun(body, run[..k + 1], r);
  }

  // ---------------------------------------------------------------- uses of the temporary on runs

  /** The temporary is used only where the reservation has been passed, and nothing leaves a use and comes back to where
      the borrow is reserved unless it passes the reservation. */
  ghost predicate TwoPhaseShape(w: BodyView, body: Body, loan: BorrowData) {
    && !UsesTemporary(w, loan, loan.reserveLocation)
    && forall a :: Reachable(body, a) && UsesTemporary(w, loan, a) ==>
         PointDominates(body, loan.reserveLocation, a) && NoReentry(body, loan.reserveLocation, a)
  }

  /** Every use of the temporary on the run came before the borrow was last reserved. */
  ghost predicate UnusedSinceReserved(w: BodyView, loan: BorrowData, run: seq<Location>) {
    forall m :: 0 <= m < |run| && UsesTemporary(w, loan, run[m]) ==>
      exists k :: m < k < |run| && run[k] == SuccessorWithinBlock(loan.reserveLocation)
  }

  /** The run has left the reservation, and has not used the temporary since. */
  ghost predicate ReservedAndUnused(w: BodyView, loan: BorrowData, run: seq<Location>) {
    exists k :: 0 <= k < |run| && run[k] == SuccessorWithinBlock(loan.reserveLocation) && UnusedFrom(w, loan, run, k)
  }

  ghost predicate UnusedFrom(w: BodyView, loan: BorrowData, run: seq<Location>, k: nat) {
    forall j :: k <= j < |run| ==> !UsesTemporary(w, loan, run[j])
  }

  /** The two-phase loan as it was gathered from the body. */
  ghost predicate GatheredLoan(w: BodyView, body: Body, blocks: seq<BasicBlock>, loan: BorrowData) {
    && PreorderOf(body, blocks)
    && ActivationIsUse(w, VisitOrder(body, blocks), loan)
    && IsPoint(body, loan.reserveLocation) && !IsTerminatorPoint(body, loan.reserveLocation)
    && (forall p :: UsesTemporary(w, loan, p) ==> IsPoint(body, p))
  }

  /** The uses that runs can come to are the recorded activation. */
  lemma UseIsActivation(w: BodyView, body: Body, blocks: seq<BasicBlock>, loan: BorrowData, a: Location)
    requires GatheredLoan(w, body, blocks, loan) && TwoPhaseShape(w, body, loan)
    ensures Reachable(body, a) && UsesTemporary(w, loan, a) <==> loan.activation == ActivatedAt(a)
  {
    var order := VisitOrder(body, blocks);
    if Reachable(body, a) && UsesTemporary(w, loan, a) {
      DominatorVisitedFirst(body, blocks, loan.reserveLocation, a);
      assert UsesAfter(w, order, loan, a);
    }
    if loan.activation == ActivatedAt(a) {
      assert UsesAfter(w, order, loan, a);
      OrderPoints(body, blocks);
      assert a in order;
      PointReachable(body, a);
    }
  }

  lemma ActivationIsProper(w: BodyView, body: Body, blocks: seq<BasicBlock>, loan: BorrowData)
    requires GatheredLoan(w, body, blocks, loan) && TwoPhaseShape(w, body, loan) && loan.activation.ActivatedAt?
    ensures ProperActivation(body, loan) && NoReentry(body, loan.reserveLocation, loan.activation.location)
  {
    UseIsActivation(w, body, blocks, loan, loan.activation.location);
  }

  lemma OnRun(w: BodyView, body: Body, blocks: seq<BasicBlock>, loan: BorrowData, run: seq<Location>, p: Location,
              m: nat)
    requires GatheredLoan(w, body, blocks, loan) && TwoPhaseShape(w, body, loan)
    requires IsRun(body, run, p) && m < |run|
    ensures UsesTemporary(w, loan, run[m]) <==> loan.activation == ActivatedAt(run[m])
  {
    PathSlice(body, run, 0, m + 1);
    assert IsRun(body, run[..m + 1], run[m]);
    UseIsActivation(w, body, blocks, loan, run[m]);
  }

  /** On a run, having reserved the borrow last is having reserved it and not used the temporary since. */
  lemma ReservedLastIsUnused(w: BodyView, body: Body, blocks: seq<BasicBlock>, loan: BorrowData, run: seq<Location>,
                             p: Location)
    requires GatheredLoan(w, body, blocks, loan) && TwoPhaseShape(w, body, loan) && loan.activation.ActivatedAt?
    requires IsRun(body, run, p)
    ensures ReservedLast(run, SuccessorWithinBlock(loan.reserveLocation), loan.activation.location) <==>
              ReservedAndUnused(w, loan, run)
  {
    var s, a := SuccessorWithinBlock(loan.reserveLocation), loan.activation.location;
    forall m: nat | m < |run|
      ensures UsesTemporary(w, loan, run[m]) <==> run[m] == a
    {
      OnRun(w, body, blocks, loan, run, p, m);
    }
    if ReservedLast(run, s, a) {
      var k: nat :| k < |run| && run[k] == s && Avoids(run, a, k, |run|);
      assert UnusedFrom(w, loan, run, k);
    }
    if ReservedAndUnused(w, loan, run) {
      var k: nat :| k < |run| && run[k] == s && UnusedFrom(w, loan, run, k);
      assert Avoids(run, a, k, |run|);
    }
  }

  /** The test is exact: if runs can use the temporary at all, the borrow is inactive at a reachable point exactly if
      every run to it has reserved the borrow and not used the temporary since. */
  lemma InactiveExactlyUnused(w: BodyView, body: Body, blocks: seq<BasicBlock>, dominators: Dominators,
                              loan: BorrowData, p: Location)
    requires GatheredLoan(w, body, blocks, loan) && TwoPhaseShape(w, body, loan)
    requires loan.activation != NotTwoPhase
    requires DominatorsOf(body, dominators) && Reachable(body, p)
    ensures if exists a :: Reachable(body, a) && UsesTemporary(w, loan, a) then
              !IsActive(dominators, loan, p) <==> forall run :: IsRun(body, run, p) ==> ReservedAndUnused(w, loan, run)
            else !IsActive(dominators, loan, p)
  {
    if a :| Reachable(body, a) && UsesTemporary(w, loan, a) {
      UseIsActivation(w, body, blocks, loan, a);
      ActivationIsProper(w, body, blocks, loan);
      InactiveExactly(body, dominators, loan, p);
      forall run | IsRun(body, run, p)
        ensures ReservedLast(run, SuccessorWithinBlock(loan.reserveLocation), loan.activation.location) <==>
                  ReservedAndUnused(w, loan, run)
      {
        ReservedLastIsUnused(w, body, blocks, loan, run, p);
      }
    } else if loan.activation.ActivatedAt? {
      UseIsActivation(w, body, blocks, loan, loan.activation.location);
    }
  }

  /** What safety needs of it: while the borrow is inactive, the temporary has not been used since it was last
      reserved. */
  lemma InactiveIsUnused(w: BodyView, body: Body, blocks: seq<BasicBlock>, dominators: Dominators, loan: BorrowData,
                         p: Location, run: seq<Location>)
    requires GatheredLoan(w, body, blocks, loan) && TwoPhaseShape(w, body, loan)
    requires loan.activation != NotTwoPhase
    requires DominatorsOf(body, dominators) && Reachable(body, p) && !IsActive(dominators, loan, p)
    requires IsRun(body, run, p)
    ensures UnusedSinceReserved(w, loan, run)
  {
    InactiveExactlyUnused(w, body, blocks, dominators, loan, p);
    forall m: nat | m < |run| && UsesTemporary(w, loan, run[m])
      ensures exists k :: m < k < |run| && run[k] == SuccessorWithinBlock(loan.reserveLocation)
    {
      PathSlice(body, run, 0, m + 1);
      assert IsRun(body, run[..m + 1], run[m]);
      assert ReservedAndUnused(w, loan, run);
      var k: nat :| k < |run| && run[k] == SuccessorWithinBlock(loan.reserveLocation) && UnusedFrom(w, loan, run, k);
    }
  }

  // ---------------------------------------------------------------- post-dominance is not enough

  /** Every path from `r` to a point without successors passes `a`. */
  ghost predicate PostDominates(body: Body, a: Location, r: Location) {
    forall path :: IsPath(body, path) && path[0] == r && Final(body, path[|path| - 1]) ==> a in path
  }

  ghost predicate Final(body: Body, p: Location) {
    forall q :: !Edge(body, p, q)
  }

  /** A body with a loop around the use of the temporary `t`, which holds a two-phase borrow of `x`: 0 to 1, 1 to 2, and
      from 2, which looks at what `t` refers to, back to 1 or on to 3. */
  function LoopBody(t: Local, x: Local, region: RegionVid): Body {
    Body([BlockData([Reserve(t, x, region)], Terminator(Goto(1), 0)),
          BlockData([], Terminator(Goto(2), 0)),
          BlockData([], Terminator(SwitchInt(Copy(Place(t, [Deref])), [1, 3]), 0)),
          BlockData([], Terminator(Return, 0))])
  }

  function LoopLoan(t: Local, x: Local, region: RegionVid): BorrowData {
    NewLoan(LocalPlace(t), Ref(region, Mut(TwoPhaseBorrow), LocalPlace(x)),
            START).(activation := ActivatedAt(Location(2, 0)))
  }

  lemma LoopEdges(t: Local, x: Local, region: RegionVid)
    ensures var body := LoopBody(t, x, region);
            && Edge(body, START, Location(0, 1)) && Edge(body, Location(0, 1), Location(1, 0))
            && Edge(body, Location(1, 0), Location(2, 0)) && Edge(body, Location(2, 0), Location(1, 0))
            && (forall q :: Edge(body, START, q) ==> q == Location(0, 1))
            && (forall q :: Edge(body, Location(0, 1), q) ==> q == Location(1, 0))
            && (forall q :: Edge(body, Location(1, 0), q) ==> q == Location(2, 0))
  {
    var body := LoopBody(t, x, region);
    assert Successors(body.blocks[0].terminator.kind) == [1];
    assert Successors(body.blocks[1].terminator.kind) == [2];
    assert 1 in Successors(body.blocks[2].terminator.kind);
  }

  /** As long as a path from the start has not met the activation, it is before it. */
  lemma {:induction false} BeforeActivation(t: Local, x: Local, region: RegionVid, path: seq<Location>, k: nat)
    requires IsPath(LoopBody(t, x, region), path) && path[0] == START && k < |path|
    requires Location(2, 0) !in path
    ensures path[k] in {START, Location(0, 1), Location(1, 0)}
  {
    if k > 0 {
      BeforeActivation(t, x, region, path, k - 1);
      LoopEdges(t, x, region);
      assert Edge(LoopBody(t, x, region), path[k - 1], path[k - 1 + 1]);
      assert path[k] in path;
    }
  }

  lemma FirstBlockVisited(tcx: TyCtxt, exit: LocalsStateAtExit, g: GatherState, h: GatherState, body: Body,
                          b: BasicBlock, rest: seq<BasicBlock>)
    requires BlocksInRange(body, rest) && b < |body.blocks|
    requires VisitBlock(tcx, exit, g, body, b, 0) == Running(h)
    ensures BlocksInRange(body, [b] + rest)
            && VisitBlocks(tcx, exit, g, body, [b] + rest) == VisitBlocks(tcx, exit, h, body, rest)
  {
    assert ([b] + rest)[1..] == rest;
  }

  /** The loop first reserves the borrow. */
  lemma LoopReserves(tcx: TyCtxt, t: Local, x: Local, region: RegionVid, g: GatherState)
    requires t != x
    requires InsertLoan(EmptyState, LoopLoan(t, x, region).(activation := NotTwoPhase)) == Running(g)
    ensures VisitBlock(tcx, AllAreInvalidated, EmptyState, LoopBody(t, x, region), 0, 0) == Running(g)
  {
    var body := LoopBody(t, x, region);
    NothingVisited(g, StatementUses(body.blocks[0].statements[0].kind), START);
    assert VisitBlock(tcx, AllAreInvalidated, g, body, 0, 1) == Running(g);
  }

  /** Gathering the loans of the body yields that loan. */
  lemma LoopIsGathered(tcx: TyCtxt, t: Local, x: Local, region: RegionVid)
    requires t != 0 && t != x
    ensures var gathered := VisitBlocks(tcx, AllAreInvalidated, EmptyState, LoopBody(t, x, region), [0, 1, 2, 3]);
            gathered.Running? && gathered.state.loans == [LoopLoan(t, x, region)]
  {
    var body, exit := LoopBody(t, x, region), AllAreInvalidated;
    var g := InsertLoan(EmptyState, LoopLoan(t, x, region).(activation := NotTwoPhase)).state;
    var h := VisitLocal(g, LocalUse(t, OtherUse), Location(2, 0)).state;
    LoopReserves(tcx, t, x, region, g);
    FirstBlockVisited(tcx, exit, EmptyState, g, body, 0, [1, 2, 3]);
    FirstBlockVisited(tcx, exit, g, g, body, 1, [2, 3]);
    LoopActivates(tcx, t, x, region, g, h);
    FirstBlockVisited(tcx, exit, g, h, body, 2, [3]);
    LoopReturns(tcx, t, x, region, h);
    assert [0] + [1, 2, 3] == [0, 1, 2, 3] && [1] + [2, 3] == [1, 2, 3] && [2] + [3] == [2, 3];
  }

  lemma LoopReturns(tcx: TyCtxt, t: Local, x: Local, region: RegionVid, h: GatherState)
    requires 0 !in h.pending
    ensures VisitBlocks(tcx, AllAreInvalidated, h, LoopBody(t, x, region), [3]) == Running(h)
  {
    var body := LoopBody(t, x, region);
    NothingVisited(h, TerminatorUses(Return), Location(3, 0));
    FirstBlockVisited(tcx, AllAreInvalidated, h, h, body, 3, []);
    assert [3] + [] == [3];
  }

  /** And then uses the temporary. */
  lemma LoopActivates(tcx: TyCtxt, t: Local, x: Local, region: RegionVid, g: GatherState, h: GatherState)
    requires VisitLocal(g, LocalUse(t, OtherUse), Location(2, 0)) == Running(h)
    ensures VisitBlock(tcx, AllAreInvalidated, g, LoopBody(t, x, region), 2, 0) == Running(h)
  {
    var body, p := LoopBody(t, x, region), Location(2, 0);
    var uses := TerminatorUses(body.blocks[2].terminator.kind);
    assert uses == [LocalUse(t, OtherUse)] && uses[1..] == [];
    assert VisitUses(g, uses, p) == VisitUses(h, uses[1..], p);
    assert VisitUses(h, [], p) == Running(h);
    assert |body.blocks[2].statements| == 0;
  }

  /** In a body whose gathered loan has a reservation that dominates its activation, and an activation that
      post-dominates its reservation, the activation is still left and the diamond entered again without passing the
      reservation: the borrow is taken to be merely reserved at a point of the loop that is only reached again after the
      temporary was used. */
  lemma PostDominanceAllowsReentry(tcx: TyCtxt, t: Local, x: Local, region: RegionVid, dominators: Dominators)
    requires t != 0 && t != x
    requires DominatorsOf(LoopBody(t, x, region), dominators)
    ensures var body, loan := LoopBody(t, x, region), LoopLoan(t, x, region);
            && VisitBlocks(tcx, AllAreInvalidated, EmptyState, body, [0, 1, 2, 3]).Running?
            && VisitBlocks(tcx, AllAreInvalidated, EmptyState, body, [0, 1, 2, 3]).state.loans == [loan]
            && ProperActivation(body, loan)
            && PostDominates(body, Location(2, 0), START)
            && !NoReentry(body, START, Location(2, 0))
            && !(forall p :: Reachable(body, p) ==> ExactAt(body, dominators, loan, p))
  {
    LoopIsGathered(tcx, t, x, region);
    LoopReenters(t, x, region, dominators);
  }

  lemma LoopReenters(t: Local, x: Local, region: RegionVid, dominators: Dominators)
    requires DominatorsOf(LoopBody(t, x, region), dominators)
    ensures var body, loan := LoopBody(t, x, region), LoopLoan(t, x, region);
            && ProperActivation(body, loan)
            && PostDominates(body, Location(2, 0), START)
            && !NoReentry(body, START, Location(2, 0))
            && !(forall p :: Reachable(body, p) ==> ExactAt(body, dominators, loan, p))
  {
    var body, loan, a, d := LoopBody(t, x, region), LoopLoan(t, x, region), Location(2, 0), Location(1, 0);
    LoopEdges(t, x, region);
    forall path | IsPath(body, path) && path[0] == START && Final(body, path[|path| - 1])
      ensures a in path
    {
      if a !in path {
        BeforeActivation(t, x, region, path, |path| - 1);
      }
    }
    var toDiamond := [START, Location(0, 1), d];
    assert IsRun(body, toDiamond, d);
    assert IsRun(body, toDiamond + [a], a) by {
      PathExtend(body, toDiamond, a);
    }
    assert ProperActivation(body, loan) by {
      forall run | IsRun(body, run, a)
        ensures START in run
      {
        assert run[0] == START;
      }
    }
    forall run | IsRun(body, run, d)
      ensures Location(0, 1) in run
    {
      assert Edge(body, run[0], run[0 + 1]);
    }
    assert InDiamond(body, START, a, d);
    assert IsPath(body, [a, d]);
    assert [a, d][0] == a && [a, d][|[a, d]| - 1] == d && START !in [a, d];
    ExactEverywhereIffNoReentry(body, dominators, loan);
  }
}
