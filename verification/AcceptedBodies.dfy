/** What acceptance means access by access, along paths on which a loan stays in scope, and what it means that the
    dataflow ends a loan. */
module AcceptedBodies {
  import opened Mir
  import opened PlacesConflict
  import opened Footprint
  import opened OverlapSoundness
  import opened OverlapExactness
  import opened BorrowSets
  import opened VisitEvents
  import opened Activations
  import opened GatherBorrows
  import opened LoanScopes
  import opened PoloniusScopes
  import opened LoanFlow
  import opened TwoPhaseBorrows
  import opened TwoPhaseUses
  import opened Accesses
  import opened BorrowChecks
  import opened Permissions

  ghost predicate NeverIntersect(tcx: TyCtxt, borrow: Place, kind: BorrowKind, access: Place, depth: AccessDepth) {
    forall len, bi, ai :: Fits(len, bi, borrow) && Fits(len, ai, access) ==>
      !Intersect(tcx, len, bi, ai, borrow, kind, access, depth)
  }

  /** The access and the loan are permitted together, or they have no storage in common. */
  ghost predicate MeetSafely(cx: CheckCx, i: BorrowIndex, access: Access, p: Location)
    requires i < |cx.borrowSet.loans|
  {
    var loan := cx.borrowSet.loans[i];
    || PermittedTogether(cx, access.rw, i, p)
    || NeverIntersect(cx.tcx, loan.borrowedPlace, loan.kind, access.place, access.depth)
  }

  /** The inputs belong together: one body, its loans, their regions, and the least solution for them. */
  ghost predicate Analysed(cx: CheckCx, borrows: Borrows, regions: RegionValues, entries: Entries,
                           preorder: seq<BasicBlock>) {
    && borrows.tcx == cx.tcx && borrows.body == cx.body && borrows.borrowSet == cx.borrowSet
    && PreorderOf(cx.body, preorder) && SetOfBody(cx.tcx, cx.body, preorder, cx.borrowSet)
    && ValidBorrows(borrows)
    && KillsOf(borrows, regions) && RegionsHoldAtIssue(borrows, regions)
    && LeastSolution(borrows, entries)
    && DominatorsOf(cx.body, cx.dominators)
  }

  /** The visit of the blocks has reported nothing. */
  ghost predicate Accepted(cx: CheckCx, borrows: Borrows, entries: Entries, blocks: seq<BasicBlock>)
    requires borrows.body == cx.body && |entries| == |cx.body.blocks|
  {
    BlocksInRange(cx.body, blocks) && Quiet(CheckBlocks(cx, borrows, entries, CleanState, blocks))
  }

  lemma PointsOfAccepted(cx: CheckCx, borrows: Borrows, entries: Entries, blocks: seq<BasicBlock>, p: Location)
    requires LocalMapAgrees(cx.borrowSet.loans, cx.borrowSet.localMap)
    requires borrows.body == cx.body && |entries| == |cx.body.blocks|
    requires Accepted(cx, borrows, entries, blocks)
    requires IsPoint(cx.body, p) && p.block in blocks
    ensures PointClean(cx, borrows, entries, p)
    ensures IsTerminatorPoint(cx.body, p) && LeavesFunction(cx.body.blocks[p.block].terminator.kind) ==>
              ExitClean(cx, AfterPoint(borrows, entries, p), |cx.borrowSet.loans|)
  {
    SilenceExactly(cx, borrows, entries, blocks);
    var j :| 0 <= j < |blocks| && blocks[j] == p.block;
    assert BlockClean(cx, borrows, entries, blocks[j]);
    assert Location(p.block, p.index) == p;
  }

  /** A path from the issue of a loan goes through points that runs can come to. */
  lemma PathReachable(cx: CheckCx, preorder: seq<BasicBlock>, i: BorrowIndex, path: seq<Location>, p: Location)
    requires PreorderOf(cx.body, preorder) && SetOfBody(cx.tcx, cx.body, preorder, cx.borrowSet)
    requires i < |cx.borrowSet.loans| && IsPathFromTo(cx.body, path, cx.borrowSet.loans[i].reserveLocation, p)
    ensures Reachable(cx.body, p)
  {
    var r := cx.borrowSet.loans[i].reserveLocation;
    PointReachable(cx.body, r);
    var run :| IsRun(cx.body, run, r);
    PathJoin(cx.body, run, path);
    assert IsRun(cx.body, run + path[1..], p);
  }

  /** Safety of accepted bodies. Take any path from the issue of a loan to a point of an accepted body on which the
      region of the loan holds throughout and what it borrows is not overwritten. Every access at that point either
      is permitted together with the loan or touches no storage that the loan protects, whatever the index locals
      hold and however long the slices are. */
  lemma AcceptedIsSafe(cx: CheckCx, borrows: Borrows, regions: RegionValues, entries: Entries,
                       preorder: seq<BasicBlock>, blocks: seq<BasicBlock>, i: BorrowIndex, path: seq<Location>,
                       p: Location, access: Access)
    requires Analysed(cx, borrows, regions, entries, preorder)
    requires Accepted(cx, borrows, entries, blocks)
    requires IsPoint(cx.body, p) && p.block in blocks
    requires InScopePath(borrows, regions, i, path, p)
    requires access in AccessesAt(cx, p)
    requires ShapedLoan(cx, cx.borrowSet.loans[i])
    requires SubsliceLast(cx.borrowSet.loans[i].borrowedPlace) && SubsliceLast(access.place)
    ensures MeetSafely(cx, i, access, p)
  {
    var loan := cx.borrowSet.loans[i];
    InScopeExactly(borrows, regions, entries, i, p);
    PointsOfAccepted(cx, borrows, entries, blocks, p);
    var k :| 0 <= k < |AccessesAt(cx, p)| && AccessesAt(cx, p)[k] == access;
    assert Clean(cx, access, p, InScopeAt(borrows, entries, p));
    assert CleanAgainst(cx, access, p, i);
    if BorrowConflictsWithPlace(cx.tcx, loan.borrowedPlace, loan.kind, access.place, access.depth, BiasOverlap) ==
        Conflicts(true) {
      PathReachable(cx, preorder, i, path, p);
      CompatibleExactly(cx, preorder, access.rw, i, p);
    } else {
      ApartInEveryValuation(cx.tcx, loan.borrowedPlace, loan.kind, access.place, access.depth);
    }
  }

  lemma ApartInEveryValuation(tcx: TyCtxt, borrow: Place, kind: BorrowKind, access: Place, depth: AccessDepth)
    requires SubsliceLast(borrow) && SubsliceLast(access)
    requires BorrowConflictsWithPlace(tcx, borrow, kind, access, depth, BiasOverlap) == Conflicts(false)
    ensures NeverIntersect(tcx, borrow, kind, access, depth)
  {
    forall len, bi, ai | Fits(len, bi, borrow) && Fits(len, ai, access)
      ensures !Intersect(tcx, len, bi, ai, borrow, kind, access, depth)
    {
      OverlapSound(tcx, len, bi, ai, borrow, kind, access, depth);
    }
  }

  // ---------------------------------------------------------------- what is killed is overwritten

  lemma {:induction false} AsmOutputsAreMutated(operands: seq<InlineAsmOperand>, span: Span, q: Place)
    requires q in OverwrittenByAsm(operands)
    ensures MutateAccess(q, span, Shallow(None)) in AsmAccesses(operands, span)
  {
    if AsmOutputOf(operands[0]) != Some(q) {
      AsmOutputsAreMutated(operands[1..], span, q);
    }
  }

  /** A kill hides nothing: whatever a point overwrites, as far as loans are concerned, is checked there as a write. */
  lemma OverwritingIsChecked(cx: CheckCx, borrows: Borrows, p: Location, q: Place)
    requires borrows.body == cx.body && IsPoint(cx.body, p)
    requires q in Overwritten(borrows, p)
    ensures exists access :: access in AccessesAt(cx, p) && access.place == q && access.rw.Write?
  {
    if IsTerminatorPoint(cx.body, p) {
      var term := cx.body.blocks[p.block].terminator;
      AsmOutputsAreMutated(term.kind.asmOperands, term.span, q);
      assert MutateAccess(q, term.span, Shallow(None)) in TerminatorAccesses(term);
      assert MutateAccess(q, term.span, Shallow(None)) in AccessesAt(cx, p);
    } else {
      var stmt := cx.body.blocks[p.block].statements[p.index];
      var access := match stmt.kind
        case StorageDead(local) => Access(LocalPlace(local), stmt.span, Shallow(None), Write(StorageDeadOrDrop),
                                          MutationAllowed)
        case _ => MutateAccess(q, stmt.span, Shallow(None));
      assert access in StatementAccesses(stmt);
      assert access in AccessesAt(cx, p);
    }
  }

  /** Overwriting a whole local conflicts with every tracked borrow from it. */
  lemma WholeLocalAnswer(tcx: TyCtxt, exit: LocalsStateAtExit, borrow: Place, bias: Bias)
    requires !IgnoreBorrow(tcx, exit, borrow) && borrow.local !in tcx.threadLocalRefs
    ensures PlacesConflictAnswer(tcx, borrow, LocalPlace(borrow.local), bias) == Conflicts(true)
  {
    WholeLocalConflicts(tcx, borrow, 0);
    RemainderNeverMismatched(tcx, borrow, Deep, 0);
    BehindSharedReferenceExactly(tcx, exit, borrow, Mut(TwoPhaseBorrow), LocalPlace(borrow.local), Deep, bias);
    if borrow.projection != [] && borrow.projection[0].Deref? {
      assert borrow.projection[..0] == [];
      TrackedDerefs(tcx, borrow, 0, 0);
    }
  }

  /** A place whose elements are those of patterns that can match, with a subslice at most at its end. */
  ghost predicate Matchable(place: Place) {
    SubsliceLast(place) && AllSane(place)
  }

  /** A kill is right for certain, in every valuation, if and only if the elements of the two places are definite,
      below different fields of a union each on its own. */
  lemma KillIsCertainExactly(borrows: Borrows, i: BorrowIndex, q: Place)
    requires ValidBorrows(borrows) && i < |borrows.borrowSet.loans| && KilledByPlace(borrows, q, i)
    requires PlainLoan(borrows, i) && Matchable(q)
    ensures PlacesConflictAnswer(borrows.tcx, borrows.borrowSet.loans[i].borrowedPlace, q, BiasNoOverlap) ==
              Conflicts(true)
    ensures CertainOverlap(borrows.tcx, borrows.borrowSet.loans[i].borrowedPlace, q) <==>
              Settled(borrows.tcx, borrows.borrowSet.loans[i].borrowedPlace, q)
  {
    var loan := borrows.borrowSet.loans[i];
    assert IssuedBy(borrows.tcx, borrows.borrowSet.localsStateAtExit, borrows.body, loan);
    if q.projection == [] {
      LoansOfLocalAre(borrows.borrowSet.loans, q.local);
      assert LoansOn(borrows.borrowSet.localMap, q.local) == LoansOfLocal(borrows.borrowSet.loans, q.local);
      WholeLocalAnswer(borrows.tcx, borrows.borrowSet.localsStateAtExit, loan.borrowedPlace, BiasNoOverlap);
    }
    CertainExactly(borrows.tcx, loan.borrowedPlace, q);
  }

  /** The elements of the two places are definite, apart from index locals compared with other elements, which the bias
      against overlap never takes to be equal. */
  ghost predicate CountAlike(tcx: TyCtxt, borrow: Place, q: Place) {
    forall j: nat :: CountAlikeAt(borrow, q, Parting(tcx, borrow, q, BiasNoOverlap, 0), j)
  }

  predicate CountAlikeAt(borrow: Place, q: Place, parting: Option<nat>, j: nat) {
    || (&& j < |borrow.projection| && j < |q.projection| && (parting.Some? ==> j < parting.value)
        && (borrow.projection[j].Index? || q.projection[j].Index?))
    || SettledAt(borrow, q, parting, j)
  }

  /** No index local is left of places that conflict under the bias against overlap. */
  lemma AlikeIsSettled(tcx: TyCtxt, borrow: Place, q: Place)
    requires PlacesConflictAnswer(tcx, borrow, q, BiasNoOverlap) == Conflicts(true) && CountAlike(tcx, borrow, q)
    ensures Settled(tcx, borrow, q)
  {
    var parting := Parting(tcx, borrow, q, BiasNoOverlap, 0);
    assert PlaceComponentsConflict(tcx, borrow, Mut(TwoPhaseBorrow), q, Deep, BiasNoOverlap, 0) == Conflicts(true);
    PartingIs(tcx, borrow, q, BiasNoOverlap, 0);
    if parting.None? {
      PositiveAnswer(tcx, borrow, Mut(TwoPhaseBorrow), q, Deep, BiasNoOverlap, 0);
    }
    forall j: nat
      ensures SettledAt(borrow, q, parting, j)
    {
      assert CountAlikeAt(borrow, q, parting, j);
      if j < |borrow.projection| && j < |q.projection| && (parting.Some? ==> j < parting.value) {
        assert PlaceProjectionConflict(KindOf(tcx, borrow.local, borrow.projection[..j]), borrow.projection[j],
                                       q.projection[j], BiasNoOverlap) == EqualOrDisjoint;
      }
    }
  }

  /** The places that the loan borrows and that `q` denotes can be compared for certain. */
  ghost predicate Comparable(borrows: Borrows, i: BorrowIndex, q: Place)
    requires i < |borrows.borrowSet.loans|
  {
    Matchable(q) && CountAlike(borrows.tcx, borrows.borrowSet.loans[i].borrowedPlace, q)
  }

  /** The places overwritten at `p` that kill the loan, if any, can be compared with what it borrows. */
  ghost predicate KillersComparable(borrows: Borrows, i: BorrowIndex, p: Location)
    requires i < |borrows.borrowSet.loans|
  {
    forall q :: q in Overwritten(borrows, p) && KilledByPlace(borrows, q, i) ==> Comparable(borrows, i, q)
  }

  /** The borrowed place has the shape of a pattern that can match; a reference to a thread-local static counts as one
      to a static. */
  ghost predicate PlainLoan(borrows: Borrows, i: BorrowIndex)
    requires i < |borrows.borrowSet.loans|
  {
    var place := borrows.borrowSet.loans[i].borrowedPlace;
    && Matchable(place)
    && (place.local in borrows.tcx.threadLocalRefs ==> place.local in borrows.tcx.staticRefs)
  }

  /** The dataflow kills a loan at `p` only if `p` overwrites a place that overlaps the borrowed one for certain, as
      long as the places that kill it can be compared with it. */
  lemma KilledIsOverwritten(borrows: Borrows, i: BorrowIndex, p: Location)
    requires ValidBorrows(borrows) && i < |borrows.borrowSet.loans|
    requires PlaceKills(borrows, p, i) && PlainLoan(borrows, i) && KillersComparable(borrows, i, p)
    ensures exists q ::
              q in Overwritten(borrows, p) && CertainOverlap(borrows.tcx, borrows.borrowSet.loans[i].borrowedPlace, q)
  {
    var q :| q in Overwritten(borrows, p) && KilledByPlace(borrows, q, i);
    assert Comparable(borrows, i, q);
    KillIsCertainExactly(borrows, i, q);
    AlikeIsSettled(borrows.tcx, borrows.borrowSet.loans[i].borrowedPlace, q);
  }

  lemma {:induction false} WholeLocalConflicts(tcx: TyCtxt, borrow: Place, j: nat)
    requires j <= |borrow.projection|
    ensures RemainderConflict(tcx, borrow, Deep, j) != Conflicts(false)
    decreases |borrow.projection| - j
  {
    if j < |borrow.projection| {
      WholeLocalConflicts(tcx, borrow, j + 1);
    }
  }

  /** A path on which the region of the loan holds and nothing that is overwritten overlaps the borrowed place for
      certain. */
  ghost predicate NotOverwrittenPath(borrows: Borrows, regions: RegionValues, i: BorrowIndex, path: seq<Location>,
                                     p: Location) {
    && i < |borrows.borrowSet.loans|
    && IsPathFromTo(borrows.body, path, borrows.borrowSet.loans[i].reserveLocation, p) && |path| >= 2
    && (forall k :: 1 <= k < |path| ==> RegionContains(regions, borrows.borrowSet.loans[i].region, path[k]))
    && (forall k :: 0 <= k < |path| - 1 ==> KillersComparable(borrows, i, path[k]))
    && (forall k, q :: 0 <= k < |path| - 1 && q in Overwritten(borrows, path[k]) ==>
          !CertainOverlap(borrows.tcx, borrows.borrowSet.loans[i].borrowedPlace, q))
  }

  lemma NotOverwrittenInScope(borrows: Borrows, regions: RegionValues, i: BorrowIndex, path: seq<Location>, p: Location)
    requires ValidBorrows(borrows)
    requires NotOverwrittenPath(borrows, regions, i, path, p) && PlainLoan(borrows, i)
    ensures InScopePath(borrows, regions, i, path, p)
  {
    forall k | 0 <= k < |path| - 1
      ensures !PlaceKills(borrows, path[k], i)
    {
      if PlaceKills(borrows, path[k], i) {
        KilledIsOverwritten(borrows, i, path[k]);
      }
    }
  }

  /** Safety in terms of storage alone: as long as the region of a loan holds and nothing certain to overlap what it
      borrows has been overwritten, accesses in an accepted body meet the loan safely. */
  lemma AcceptedIsSafeUntilOverwritten(cx: CheckCx, borrows: Borrows, regions: RegionValues, entries: Entries,
                                       preorder: seq<BasicBlock>, blocks: seq<BasicBlock>, i: BorrowIndex,
                                       path: seq<Location>, p: Location, access: Access)
    requires Analysed(cx, borrows, regions, entries, preorder)
    requires Accepted(cx, borrows, entries, blocks)
    requires IsPoint(cx.body, p) && p.block in blocks
    requires NotOverwrittenPath(borrows, regions, i, path, p) && PlainLoan(borrows, i)
    requires access in AccessesAt(cx, p)
    requires ShapedLoan(cx, cx.borrowSet.loans[i])
    requires SubsliceLast(access.place)
    ensures MeetSafely(cx, i, access, p)
  {
    NotOverwrittenInScope(borrows, regions, i, path, p);
    AcceptedIsSafe(cx, borrows, regions, entries, preorder, blocks, i, path, p, access);
  }
}
