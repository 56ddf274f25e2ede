/** Which deeds may be done to storage that a loan protects, and that the compatibility table of the checks lets through
    exactly those. */
module Permissions {
  import opened Mir
  import opened PlacesConflict
  import opened BorrowSets
  import opened VisitEvents
  import opened Activations
  import opened GatherBorrows
  import opened TwoPhaseBorrows
  import opened TwoPhaseUses
  import opened Accesses
  import opened Effects
  import opened AccessEffects

  /** What the gathering of loans sees of the body. */
  function Seen(cx: CheckCx): BodyView {
    BodyViewOf(Visit(cx.tcx, cx.borrowSet.localsStateAtExit, cx.body))
  }

  /** The borrow is two-phase and not in use: runs never use its temporary, or every run to `p` has reserved it and not
      used the temporary since. */
  ghost predicate OnlyReserved(w: BodyView, body: Body, loan: BorrowData, p: Location) {
    && AllowTwoPhaseBorrow(loan.kind)
    && (|| (forall a :: Reachable(body, a) ==> !UsesTemporary(w, loan, a))
        || (forall run :: IsRun(body, run, p) ==> ReservedAndUnused(w, loan, run)))
  }

  /** What may be done at `p` to storage that loan `i` protects: to activate the loan itself, to look at the shape of a
      place, to read or reserve what is borrowed for reading only, to move out of what is borrowed for its shape only,
      and to read what is mutably borrowed as long as it is only reserved. */
  ghost predicate Permitted(w: BodyView, body: Body, i: BorrowIndex, loan: BorrowData, deed: Deed, p: Location) {
    || deed == Activates(i)
    || deed == Looks
    || (!loan.kind.Mut? && (deed == Reads || deed == Reserves))
    || (loan.kind == Fake(ShallowFake) && deed == MovesOut)
    || (deed == Reads && OnlyReserved(w, body, loan, p))
  }

  ghost predicate PermittedTogether(cx: CheckCx, rw: ReadOrWrite, i: BorrowIndex, p: Location)
    requires i < |cx.borrowSet.loans|
  {
    Permitted(Seen(cx), cx.body, i, cx.borrowSet.loans[i], DeedOf(rw), p)
  }

  /** The temporary of a two-phase borrow is used in the shape that the activity test assumes. */
  ghost predicate ShapedLoan(cx: CheckCx, loan: BorrowData) {
    AllowTwoPhaseBorrow(loan.kind) ==> TwoPhaseShape(Seen(cx), cx.body, loan)
  }

  lemma LoanIsGathered(cx: CheckCx, preorder: seq<BasicBlock>, i: BorrowIndex)
    requires PreorderOf(cx.body, preorder) && SetOfBody(cx.tcx, cx.body, preorder, cx.borrowSet)
    requires i < |cx.borrowSet.loans| && AllowTwoPhaseBorrow(cx.borrowSet.loans[i].kind)
    ensures GatheredLoan(Seen(cx), cx.body, preorder, cx.borrowSet.loans[i])
    ensures cx.borrowSet.loans[i].activation != NotTwoPhase
  {
    assert ActivationIsUse(Seen(cx), VisitOrder(cx.body, preorder), cx.borrowSet.loans[i]);
    assert IssuedBy(cx.tcx, cx.borrowSet.localsStateAtExit, cx.body, cx.borrowSet.loans[i]);
  }

  /** The activity test says exactly when a loan is only reserved. */
  lemma InactiveIsReserved(cx: CheckCx, preorder: seq<BasicBlock>, i: BorrowIndex, p: Location)
    requires PreorderOf(cx.body, preorder) && SetOfBody(cx.tcx, cx.body, preorder, cx.borrowSet)
    requires i < |cx.borrowSet.loans| && ShapedLoan(cx, cx.borrowSet.loans[i])
    requires DominatorsOf(cx.body, cx.dominators) && Reachable(cx.body, p)
    ensures !IsActive(cx.dominators, cx.borrowSet.loans[i], p) <==>
              OnlyReserved(Seen(cx), cx.body, cx.borrowSet.loans[i], p)
  {
    var loan := cx.borrowSet.loans[i];
    if AllowTwoPhaseBorrow(loan.kind) {
      LoanIsGathered(cx, preorder, i);
      InactiveExactlyUnused(Seen(cx), cx.body, preorder, cx.dominators, loan, p);
    }
  }

  /** The table lets an access go on in spite of a conflicting loan if and only if its deed is permitted. */
  lemma CompatibleExactly(cx: CheckCx, preorder: seq<BasicBlock>, rw: ReadOrWrite, i: BorrowIndex, p: Location)
    requires PreorderOf(cx.body, preorder) && SetOfBody(cx.tcx, cx.body, preorder, cx.borrowSet)
    requires i < |cx.borrowSet.loans| && ShapedLoan(cx, cx.borrowSet.loans[i])
    requires DominatorsOf(cx.body, cx.dominators) && Reachable(cx.body, p)
    ensures Compatible(cx.dominators, rw, i, cx.borrowSet.loans[i], p) <==> PermittedTogether(cx, rw, i, p)
  {
    InactiveIsReserved(cx, preorder, i, p);
  }

  /** Two readers never stop each other: not a read, nor the reservation of a two-phase borrow, at a loan that only
      reads. */
  lemma ReadersGoOn(dominators: Dominators, rw: ReadOrWrite, i: BorrowIndex, loan: BorrowData, p: Location)
    requires (rw.Read? || rw.Reservation?) && !loan.kind.Mut?
    ensures Compatible(dominators, rw, i, loan, p)
  {
  }

  /** A writer always stops at a loan, but for a move out of what is borrowed for its shape only. */
  lemma WritersStop(dominators: Dominators, rw: ReadOrWrite, i: BorrowIndex, loan: BorrowData, p: Location)
    requires rw.Write?
    ensures Compatible(dominators, rw, i, loan, p) <==> rw == Write(MoveOut) && loan.kind == Fake(ShallowFake)
  {
  }

  /** What is read of a mutable borrow has not been written through it: no run to the point has used the temporary since
      the borrow was last reserved. */
  lemma ReservedIsUnused(w: BodyView, body: Body, loan: BorrowData, p: Location, run: seq<Location>)
    requires OnlyReserved(w, body, loan, p) && IsRun(body, run, p)
    ensures UnusedSinceReserved(w, loan, run)
  {
    forall m: nat | m < |run| && UsesTemporary(w, loan, run[m])
      ensures exists k :: m < k < |run| && run[k] == SuccessorWithinBlock(loan.reserveLocation)
    {
      PathSlice(body, run, 0, m + 1);
      assert IsRun(body, run[..m + 1], run[m]);
      assert ReservedAndUnused(w, loan, run);
      var k: nat :| k < |run| && run[k] == SuccessorWithinBlock(loan.reserveLocation) && UnusedFrom(w, loan, run, k);
    }
  }
}
