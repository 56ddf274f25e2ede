/** Where loans end, read off the body: what a point writes, which borrows end with it, and the paths on which a loan
    lives. The dataflow ends loans exactly there. */
module LoanEnds {
  import opened Mir
  import opened PlacesConflict
  import opened Footprint
  import opened OverlapSoundness
  import opened OverlapExactness
  import opened Occurrences
  import opened BorrowSets
  import opened GatherBorrows
  import opened LoanScopes
  import opened LoanFlow

  // ---------------------------------------------------------------- what a point writes

  /** The point stores to the place, or the place goes out of storage there. A statement that takes a borrow which
      cannot be invalidated is passed over. */
  ghost predicate WrittenAt(tcx: TyCtxt, exit: LocalsStateAtExit, body: Body, p: Location, place: Place) {
    && IsPoint(body, p)
    && if IsTerminatorPoint(body, p) then WrittenByAsm(body.blocks[p.block].terminator.kind, place)
       else
         var kind := body.blocks[p.block].statements[p.index].kind;
         || (&& kind.Assign? && kind.lhs == place
             && !(kind.rhs.Ref? && CannotBeInvalidated(tcx, exit, kind.rhs.place)))
         || (kind.StorageDead? && place == LocalPlace(kind.local))
  }

  /** Writing the place ends a borrow: the whole local was written, which does not hold for a reference to a static,
      or the part that was written conflicts with what is borrowed even under the bias against overlap. */
  predicate EndedBy(tcx: TyCtxt, borrowed: Place, place: Place) {
    && place.local == borrowed.local
    && if place.projection == [] then place.local !in tcx.staticRefs
       else PlacesConflictAnswer(tcx, borrowed, place, BiasNoOverlap) == Conflicts(true)
  }

  ghost predicate EndsAt(tcx: TyCtxt, exit: LocalsStateAtExit, body: Body, loan: BorrowData, p: Location) {
    exists place :: WrittenAt(tcx, exit, body, p, place) && EndedBy(tcx, loan.borrowedPlace, place)
  }

  lemma {:induction false} AsmWritesExactly(operands: seq<InlineAsmOperand>, place: Place)
    ensures place in OverwrittenByAsm(operands) <==> exists k :: 0 <= k < |operands| && AsmWrites(operands[k], place)
  {
    if operands != [] {
      AsmWritesExactly(operands[1..], place);
      if k :| 0 <= k < |operands| && AsmWrites(operands[k], place) {
        assert k > 0 ==> AsmWrites(operands[1..][k - 1], place);
      }
      if k :| 0 <= k < |operands[1..]| && AsmWrites(operands[1..][k], place) {
        assert AsmWrites(operands[k + 1], place);
      }
      assert AsmOutputOf(operands[0]) == Some(place) <==> AsmWrites(operands[0], place);
    }
  }

  lemma WrittenExactly(cx: Borrows, p: Location, place: Place)
    ensures place in Overwritten(cx, p) <==> WrittenAt(cx.tcx, cx.borrowSet.localsStateAtExit, cx.body, p, place)
  {
    if IsPoint(cx.body, p) {
      if IsTerminatorPoint(cx.body, p) {
        var kind := cx.body.blocks[p.block].terminator.kind;
        if kind.InlineAsm? {
          AsmWritesExactly(kind.asmOperands, place);
        }
      } else {
        var kind := cx.body.blocks[p.block].statements[p.index].kind;
        if kind.Assign? && kind.rhs.Ref? {
          IgnoredExactly(cx.tcx, cx.borrowSet.localsStateAtExit, kind.rhs.place);
        }
      }
    }
  }

  lemma EndedExactly(cx: Borrows, i: BorrowIndex, place: Place)
    requires LocalMapAgrees(cx.borrowSet.loans, cx.borrowSet.localMap) && i < |cx.borrowSet.loans|
    ensures KilledByPlace(cx, place, i) <==> EndedBy(cx.tcx, cx.borrowSet.loans[i].borrowedPlace, place)
  {
    LoansOfLocalAre(cx.borrowSet.loans, place.local);
    assert LoansOn(cx.borrowSet.localMap, place.local) == LoansOfLocal(cx.borrowSet.loans, place.local);
  }

  /** The points that kill a loan are those that write something whose writing ends it. */
  lemma KillsExactly(cx: Borrows, i: BorrowIndex, p: Location)
    requires LocalMapAgrees(cx.borrowSet.loans, cx.borrowSet.localMap) && i < |cx.borrowSet.loans|
    ensures PlaceKills(cx, p, i) <==>
              EndsAt(cx.tcx, cx.borrowSet.localsStateAtExit, cx.body, cx.borrowSet.loans[i], p)
  {
    var loan, exit := cx.borrowSet.loans[i], cx.borrowSet.localsStateAtExit;
    if place :| place in Overwritten(cx, p) && KilledByPlace(cx, place, i) {
      WrittenExactly(cx, p, place);
      EndedExactly(cx, i, place);
      assert WrittenAt(cx.tcx, exit, cx.body, p, place) && EndedBy(cx.tcx, loan.borrowedPlace, place);
    }
    if EndsAt(cx.tcx, exit, cx.body, loan, p) {
      var place :| WrittenAt(cx.tcx, exit, cx.body, p, place) && EndedBy(cx.tcx, loan.borrowedPlace, place);
      WrittenExactly(cx, p, place);
      EndedExactly(cx, i, place);
    }
  }

  /** The effect of a point: a loan is in the state after it if and only if it was in scope or is issued there, and
      nothing that the point writes ends it. */
  lemma AfterPointExactly(cx: Borrows, entries: Entries, i: BorrowIndex, p: Location)
    requires ValidBorrows(cx) && IsPointOf(cx, entries, p) && i < |cx.borrowSet.loans|
    ensures i in AfterPoint(cx, entries, p) <==>
              && (i in InScopeAt(cx, entries, p) || cx.borrowSet.loans[i].reserveLocation == p)
              && !EndsAt(cx.tcx, cx.borrowSet.localsStateAtExit, cx.body, cx.borrowSet.loans[i], p)
  {
    KillsExactly(cx, i, p);
    ValidGenerates(cx);
    PrimaryMember(cx, InScopeAt(cx, entries, p), p, i);
  }

  // ---------------------------------------------------------------- sure overlap ends a loan

  /** Without index locals the two biases give the same answer. */
  lemma {:induction false} BiasDoesNotMatter(tcx: TyCtxt, borrow: Place, kind: BorrowKind, access: Place,
                                             depth: AccessDepth, j: nat)
    requires IndexFree(borrow) && IndexFree(access)
    requires j <= |borrow.projection| && j <= |access.projection|
    ensures PlaceComponentsConflict(tcx, borrow, kind, access, depth, BiasNoOverlap, j)
         == PlaceComponentsConflict(tcx, borrow, kind, access, depth, BiasOverlap, j)
    decreases |borrow.projection| - j
  {
    if j < |borrow.projection| && j < |access.projection| {
      BiasDoesNotMatter(tcx, borrow, kind, access, depth, j + 1);
      assert !borrow.projection[j].Index? && !access.projection[j].Index?;
    }
  }

  /** A part is written that shares storage with a tracked borrow in some valuation: its loan is not in the state after
      the point. */
  lemma OverlapEndsLoan(cx: Borrows, entries: Entries, i: BorrowIndex, p: Location, place: Place, len: Lengths,
                        bi: Indices, ai: Indices)
    requires ValidBorrows(cx) && IsPointOf(cx, entries, p) && i < |cx.borrowSet.loans|
    requires WrittenAt(cx.tcx, cx.borrowSet.localsStateAtExit, cx.body, p, place) && place.projection != []
    requires var borrowed := cx.borrowSet.loans[i].borrowedPlace;
             && WellTyped(cx.tcx, borrowed) && WellTyped(cx.tcx, place)
             && SubsliceLast(borrowed) && SubsliceLast(place) && IndexFree(borrowed) && IndexFree(place)
             && borrowed.local !in cx.tcx.threadLocalRefs
             && Fits(len, bi, borrowed) && Fits(len, ai, place)
             && Intersect(cx.tcx, len, bi, ai, borrowed, Mut(TwoPhaseBorrow), place, Deep)
    ensures i !in AfterPoint(cx, entries, p)
  {
    var borrowed, exit := cx.borrowSet.loans[i].borrowedPlace, cx.borrowSet.localsStateAtExit;
    assert IssuedBy(cx.tcx, exit, cx.body, cx.borrowSet.loans[i]);
    AlwaysAnswers(cx.tcx, exit, borrowed, Mut(TwoPhaseBorrow), place, Deep, BiasOverlap);
    if PlacesConflictAnswer(cx.tcx, borrowed, place, BiasOverlap) == Conflicts(false) {
      OverlapSound(cx.tcx, len, bi, ai, borrowed, Mut(TwoPhaseBorrow), place, Deep);
    }
    BiasDoesNotMatter(cx.tcx, borrowed, Mut(TwoPhaseBorrow), place, Deep, 0);
    assert EndedBy(cx.tcx, borrowed, place);
    AfterPointExactly(cx, entries, i, p);
  }

  // ---------------------------------------------------------------- the paths on which a loan lives

  /** The path leads from the borrow to `p`, stays within the region of the loan, and writes nothing that ends it. */
  ghost predicate LivesAlong(tcx: TyCtxt, exit: LocalsStateAtExit, body: Body, regions: RegionValues, loan: BorrowData,
                             path: seq<Location>, p: Location) {
    && IsPathFromTo(body, path, loan.reserveLocation, p) && |path| >= 2
    && (forall k :: 1 <= k < |path| ==> RegionContains(regions, loan.region, path[k]))
    && (forall k :: 0 <= k < |path| - 1 ==> !EndsAt(tcx, exit, body, loan, path[k]))
  }

  lemma LivesExactly(cx: Borrows, regions: RegionValues, i: BorrowIndex, path: seq<Location>, p: Location)
    requires LocalMapAgrees(cx.borrowSet.loans, cx.borrowSet.localMap) && i < |cx.borrowSet.loans|
    ensures InScopePath(cx, regions, i, path, p) <==>
              LivesAlong(cx.tcx, cx.borrowSet.localsStateAtExit, cx.body, regions, cx.borrowSet.loans[i], path, p)
  {
    forall k | 0 <= k < |path| - 1
      ensures PlaceKills(cx, path[k], i) <==>
                EndsAt(cx.tcx, cx.borrowSet.localsStateAtExit, cx.body, cx.borrowSet.loans[i], path[k])
    {
      KillsExactly(cx, i, path[k]);
    }
  }

  /** The loan lives at `p`. */
  ghost predicate LivesAt(tcx: TyCtxt, exit: LocalsStateAtExit, body: Body, regions: RegionValues, loan: BorrowData,
                          p: Location) {
    exists path :: LivesAlong(tcx, exit, body, regions, loan, path, p)
  }

  /** The least solution of the dataflow has a loan in scope exactly where it lives. */
  lemma InScopeIsLiving(cx: Borrows, regions: RegionValues, entries: Entries, i: BorrowIndex, p: Location)
    requires ValidBorrows(cx) && KillsOf(cx, regions) && RegionsHoldAtIssue(cx, regions)
    requires LeastSolution(cx, entries) && IsPoint(cx.body, p) && i < |cx.borrowSet.loans|
    ensures i in InScopeAt(cx, entries, p) <==>
              LivesAt(cx.tcx, cx.borrowSet.localsStateAtExit, cx.body, regions, cx.borrowSet.loans[i], p)
  {
    InScopeExactly(cx, regions, entries, i, p);
    var loan, exit := cx.borrowSet.loans[i], cx.borrowSet.localsStateAtExit;
    if path :| InScopePath(cx, regions, i, path, p) {
      LivesExactly(cx, regions, i, path, p);
      assert LivesAlong(cx.tcx, exit, cx.body, regions, loan, path, p);
    }
    if path :| LivesAlong(cx.tcx, exit, cx.body, regions, loan, path, p) {
      LivesExactly(cx, regions, i, path, p);
      assert InScopePath(cx, regions, i, path, p);
    }
  }
}
