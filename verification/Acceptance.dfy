/** What acceptance means, both ways: a body is accepted exactly if nothing that its points do to storage, and nothing
    that goes away where it ends, interferes with a loan that still lives there. */
module Acceptance {
  import opened Mir
  import opened PlacesConflict
  import opened Footprint
  import opened OverlapSoundness
  import opened OverlapExactness
  import opened Occurrences
  import opened BorrowSets
  import opened GatherBorrows
  import opened LoanScopes
  import opened PoloniusScopes
  import opened LoanFlow
  import opened LoanEnds
  import opened TwoPhaseBorrows
  import opened TwoPhaseUses
  import opened Accesses
  import opened BorrowChecks
  import opened Effects
  import opened AccessEffects
  import opened Permissions
  import opened AcceptedBodies

  // ---------------------------------------------------------------- safety, in terms of storage

  /** Node `n`, to which the point does something, shares storage with a node that the loan protects. */
  ghost predicate Meeting(cx: CheckCx, i: BorrowIndex, p: Location, v: Valuation, bi: Indices, deed: Deed, m: Node,
                          n: Node)
    requires i < |cx.borrowSet.loans|
  {
    var loan := cx.borrowSet.loans[i];
    && Fits(v.len, bi, loan.borrowedPlace) && InBorrow(v.len, bi, loan.borrowedPlace, loan.kind, m)
    && PointDoes(cx.tcx, v, cx.body, cx.borrowSet.loans, p, deed, n) && SameStorage(cx.tcx, m, n)
  }

  /** Whatever the point does to storage that the loan protects is permitted, however long slices are and whatever index
      locals hold. */
  ghost predicate SafeDeeds(cx: CheckCx, i: BorrowIndex, p: Location)
    requires i < |cx.borrowSet.loans|
  {
    forall v, bi, deed, m, n :: Meeting(cx, i, p, v, bi, deed, m, n) ==>
      Permitted(Seen(cx), cx.body, i, cx.borrowSet.loans[i], deed, p)
  }

  ghost predicate LeftHanging(cx: CheckCx, i: BorrowIndex, len: Lengths, bi: Indices, m: Node, n: Node)
    requires i < |cx.borrowSet.loans|
  {
    var loan := cx.borrowSet.loans[i];
    && Fits(len, bi, loan.borrowedPlace) && InBorrow(len, bi, loan.borrowedPlace, loan.kind, m)
    && GoesAway(cx.tcx, cx.localsAreInvalidatedAtExit, n) && SameStorage(cx.tcx, m, n)
  }

  /** Nothing that the loan protects goes away with the frame. */
  ghost predicate SafeEnd(cx: CheckCx, i: BorrowIndex)
    requires i < |cx.borrowSet.loans|
  {
    forall len, bi, m, n :: !LeftHanging(cx, i, len, bi, m, n)
  }

  ghost predicate EndsFrameAt(body: Body, p: Location) {
    IsPoint(body, p) && IsTerminatorPoint(body, p) && EndsFrame(body.blocks[p.block].terminator.kind)
  }

  ghost predicate Lives(cx: CheckCx, regions: RegionValues, i: BorrowIndex, p: Location) {
    && i < |cx.borrowSet.loans|
    && LivesAt(cx.tcx, cx.borrowSet.localsStateAtExit, cx.body, regions, cx.borrowSet.loans[i], p)
  }

  /** A subslice comes last in whatever the point acts on. */
  ghost predicate PlainAt(cx: CheckCx, p: Location) {
    forall place :: ActedOn(cx.body, cx.borrowSet.loans, p, place) ==> SubsliceLast(place)
  }

  /** Nothing interferes with loan `i` at `p`. */
  ghost predicate SafeAt(cx: CheckCx, i: BorrowIndex, p: Location)
    requires i < |cx.borrowSet.loans|
  {
    SubsliceLast(cx.borrowSet.loans[i].borrowedPlace) ==>
      && (PlainAt(cx, p) && ShapedLoan(cx, cx.borrowSet.loans[i]) ==> SafeDeeds(cx, i, p))
      && (EndsFrameAt(cx.body, p) ==> SafeEnd(cx, i))
  }

  /** Nothing interferes with a loan while it lives. */
  ghost predicate SafeBody(cx: CheckCx, regions: RegionValues) {
    forall i: nat, p :: Lives(cx, regions, i, p) ==> SafeAt(cx, i, p)
  }

  // ---------------------------------------------------------------- what the checks decide

  /** The access may go on: it does not conflict with the loan, or is permitted together with it. */
  ghost predicate GoesOn(cx: CheckCx, access: Access, i: BorrowIndex, p: Location)
    requires i < |cx.borrowSet.loans|
  {
    var loan := cx.borrowSet.loans[i];
    var answer := BorrowConflictsWithPlace(cx.tcx, loan.borrowedPlace, loan.kind, access.place, access.depth,
                                           BiasOverlap);
    answer == Conflicts(false) || (answer == Conflicts(true) && PermittedTogether(cx, access.rw, i, p))
  }

  /** The loan may live on beyond the frame: the local that is borrowed from goes away, if locals do, or whatever lies
      behind it, if it refers to a thread-local static. */
  ghost predicate MayOutlive(cx: CheckCx, i: BorrowIndex)
    requires i < |cx.borrowSet.loans|
  {
    var loan := cx.borrowSet.loans[i];
    var l := loan.borrowedPlace.local;
    if l in cx.tcx.threadLocalRefs then
      BorrowConflictsWithPlace(cx.tcx, loan.borrowedPlace, loan.kind, Place(l, [ProjectionElem.Deref]), Deep,
                               BiasOverlap) == Conflicts(false)
    else
      cx.localsAreInvalidatedAtExit ==>
        BorrowConflictsWithPlace(cx.tcx, loan.borrowedPlace, loan.kind, LocalPlace(l), Shallow(None), BiasOverlap)
        == Conflicts(false)
  }

  ghost predicate GoesOnAt(cx: CheckCx, i: BorrowIndex, p: Location)
    requires i < |cx.borrowSet.loans| && IsPoint(cx.body, p)
  {
    && (forall access :: access in AccessesAt(cx, p) ==> GoesOn(cx, access, i, p))
    && (EndsFrameAt(cx.body, p) ==> MayOutlive(cx, i))
  }

  /** Every access that runs can come to is permitted by mutability. */
  ghost predicate MutabilityPermits(cx: CheckCx) {
    forall p, access :: Reachable(cx.body, p) && IsPoint(cx.body, p) && access in AccessesAt(cx, p) ==>
      !cx.permissionError(access, p)
  }

  ghost predicate AllGoesOn(cx: CheckCx, regions: RegionValues) {
    forall i: nat, p :: Lives(cx, regions, i, p) && IsPoint(cx.body, p) ==> GoesOnAt(cx, i, p)
  }

  ghost predicate AllShaped(cx: CheckCx) {
    forall i :: 0 <= i < |cx.borrowSet.loans| ==> ShapedLoan(cx, cx.borrowSet.loans[i])
  }

  // ---------------------------------------------------------------- leaving the function

  /** The exits are checked exactly where the frame ends. */
  lemma FrameEndsExactly(kind: TerminatorKind)
    ensures EndsFrame(kind) <==> LeavesFunction(kind)
  {
  }

  lemma ExitExactly(cx: CheckCx, i: BorrowIndex)
    requires i < |cx.borrowSet.loans|
    ensures ExitConflict(cx, cx.borrowSet.loans[i]) == Conflicts(false) <==> MayOutlive(cx, i)
  {
  }

  /** A terminator that ends the frame ends no loan before the exits are checked. */
  lemma StaysInScope(cx: CheckCx, borrows: Borrows, entries: Entries, i: BorrowIndex, p: Location)
    requires ValidBorrows(borrows) && IsPointOf(borrows, entries, p) && borrows.body == cx.body
    requires borrows.borrowSet == cx.borrowSet && i < |cx.borrowSet.loans| && EndsFrameAt(cx.body, p)
    ensures i in AfterPoint(borrows, entries, p) <==> i in InScopeAt(borrows, entries, p)
  {
    AfterPointExactly(borrows, entries, i, p);
    assert IssuedBy(borrows.tcx, borrows.borrowSet.localsStateAtExit, borrows.body, cx.borrowSet.loans[i]);
    assert forall place :: !WrittenAt(borrows.tcx, borrows.borrowSet.localsStateAtExit, borrows.body, p, place);
  }

  // ---------------------------------------------------------------- acceptance, access by access

  lemma CleanAgainstExactly(cx: CheckCx, preorder: seq<BasicBlock>, access: Access, i: BorrowIndex, p: Location)
    requires PreorderOf(cx.body, preorder) && SetOfBody(cx.tcx, cx.body, preorder, cx.borrowSet)
    requires i < |cx.borrowSet.loans| && ShapedLoan(cx, cx.borrowSet.loans[i])
    requires DominatorsOf(cx.body, cx.dominators) && Reachable(cx.body, p)
    ensures CleanAgainst(cx, access, p, i) <==> GoesOn(cx, access, i, p)
  {
    CompatibleExactly(cx, preorder, access.rw, i, p);
  }

  lemma CleanExactly(cx: CheckCx, borrows: Borrows, regions: RegionValues, entries: Entries, preorder: seq<BasicBlock>,
                     access: Access, p: Location)
    requires Analysed(cx, borrows, regions, entries, preorder) && AllShaped(cx)
    requires IsPoint(cx.body, p) && Reachable(cx.body, p)
    ensures Clean(cx, access, p, InScopeAt(borrows, entries, p)) <==>
              && !cx.permissionError(access, p)
              && forall i :: Lives(cx, regions, i, p) ==> GoesOn(cx, access, i, p)
  {
    forall i | 0 <= i < |cx.borrowSet.loans|
      ensures i in InScopeAt(borrows, entries, p) <==> Lives(cx, regions, i, p)
      ensures CleanAgainst(cx, access, p, i) <==> GoesOn(cx, access, i, p)
    {
      InScopeIsLiving(borrows, regions, entries, i, p);
      CleanAgainstExactly(cx, preorder, access, i, p);
    }
  }

  lemma PointExactlyClean(cx: CheckCx, borrows: Borrows, regions: RegionValues, entries: Entries,
                          preorder: seq<BasicBlock>, p: Location)
    requires Analysed(cx, borrows, regions, entries, preorder) && AllShaped(cx)
    requires IsPoint(cx.body, p) && Reachable(cx.body, p)
    ensures PointClean(cx, borrows, entries, p) <==>
              forall access :: access in AccessesAt(cx, p) ==>
                && !cx.permissionError(access, p)
                && forall i :: Lives(cx, regions, i, p) ==> GoesOn(cx, access, i, p)
  {
    forall access
      ensures Clean(cx, access, p, InScopeAt(borrows, entries, p)) <==>
                && !cx.permissionError(access, p)
                && forall i :: Lives(cx, regions, i, p) ==> GoesOn(cx, access, i, p)
    {
      CleanExactly(cx, borrows, regions, entries, preorder, access, p);
    }
    assert forall k :: 0 <= k < |AccessesAt(cx, p)| ==> AccessesAt(cx, p)[k] in AccessesAt(cx, p);
  }

  lemma EndExactlyClean(cx: CheckCx, borrows: Borrows, regions: RegionValues, entries: Entries,
                        preorder: seq<BasicBlock>, p: Location)
    requires Analysed(cx, borrows, regions, entries, preorder)
    requires IsPoint(cx.body, p) && EndsFrameAt(cx.body, p)
    ensures ExitClean(cx, AfterPoint(borrows, entries, p), |cx.borrowSet.loans|) <==>
              forall i :: Lives(cx, regions, i, p) ==> MayOutlive(cx, i)
  {
    forall i | 0 <= i < |cx.borrowSet.loans|
      ensures i in AfterPoint(borrows, entries, p) <==> Lives(cx, regions, i, p)
      ensures ExitConflict(cx, cx.borrowSet.loans[i]) == Conflicts(false) <==> MayOutlive(cx, i)
    {
      StaysInScope(cx, borrows, entries, i, p);
      InScopeIsLiving(borrows, regions, entries, i, p);
      ExitExactly(cx, i);
    }
  }

  lemma LivesReachable(cx: CheckCx, regions: RegionValues, preorder: seq<BasicBlock>, i: BorrowIndex, p: Location)
    requires PreorderOf(cx.body, preorder) && SetOfBody(cx.tcx, cx.body, preorder, cx.borrowSet)
    requires Lives(cx, regions, i, p)
    ensures Reachable(cx.body, p) && IsPoint(cx.body, p) && Reachable(cx.body, Location(p.block, 0))
  {
    var path :| LivesAlong(cx.tcx, cx.borrowSet.localsStateAtExit, cx.body, regions, cx.borrowSet.loans[i], path, p);
    PathReachable(cx, preorder, i, path, p);
    BlockEntryReachable(cx.body, p);
  }

  /** The blocks are those that runs come to. */
  ghost predicate ReachableBlocks(body: Body, blocks: seq<BasicBlock>) {
    BlocksInRange(body, blocks) && forall b: nat :: b in blocks <==> Reachable(body, Location(b, 0))
  }

  lemma AcceptedGoesOn(cx: CheckCx, borrows: Borrows, regions: RegionValues, entries: Entries,
                       preorder: seq<BasicBlock>, blocks: seq<BasicBlock>, p: Location)
    requires Analysed(cx, borrows, regions, entries, preorder) && AllShaped(cx)
    requires ReachableBlocks(cx.body, blocks) && Accepted(cx, borrows, entries, blocks)
    requires IsPoint(cx.body, p) && Reachable(cx.body, p)
    ensures forall access :: access in AccessesAt(cx, p) ==> !cx.permissionError(access, p)
    ensures forall i :: Lives(cx, regions, i, p) ==> GoesOnAt(cx, i, p)
  {
    BlockEntryReachable(cx.body, p);
    PointsOfAccepted(cx, borrows, entries, blocks, p);
    PointExactlyClean(cx, borrows, regions, entries, preorder, p);
    if EndsFrameAt(cx.body, p) {
      FrameEndsExactly(cx.body.blocks[p.block].terminator.kind);
      EndExactlyClean(cx, borrows, regions, entries, preorder, p);
    }
  }

  lemma GoesOnClean(cx: CheckCx, borrows: Borrows, regions: RegionValues, entries: Entries, preorder: seq<BasicBlock>,
                    b: BasicBlock)
    requires Analysed(cx, borrows, regions, entries, preorder) && AllShaped(cx)
    requires b < |cx.body.blocks| && Reachable(cx.body, Location(b, 0))
    requires MutabilityPermits(cx) && AllGoesOn(cx, regions)
    ensures BlockClean(cx, borrows, entries, b)
  {
    var last := Location(b, |cx.body.blocks[b].statements|);
    forall k | 0 <= k <= |cx.body.blocks[b].statements|
      ensures PointClean(cx, borrows, entries, Location(b, k))
    {
      var p := Location(b, k);
      PointReachable(cx.body, p);
      forall i | Lives(cx, regions, i, p)
        ensures GoesOnAt(cx, i, p)
      {
      }
      PointExactlyClean(cx, borrows, regions, entries, preorder, p);
    }
    FrameEndsExactly(cx.body.blocks[b].terminator.kind);
    if EndsFrameAt(cx.body, last) {
      forall i | Lives(cx, regions, i, last)
        ensures MayOutlive(cx, i)
      {
        assert GoesOnAt(cx, i, last);
      }
      EndExactlyClean(cx, borrows, regions, entries, preorder, last);
    }
  }

  /** A body is accepted if and only if mutability permits every access, every access may go on in spite of every loan
      that lives there, and every loan that lives where the frame ends may outlive it. Nothing else is checked. */
  lemma AcceptedExactly(cx: CheckCx, borrows: Borrows, regions: RegionValues, entries: Entries,
                        preorder: seq<BasicBlock>, blocks: seq<BasicBlock>)
    requires Analysed(cx, borrows, regions, entries, preorder) && AllShaped(cx)
    requires ReachableBlocks(cx.body, blocks)
    ensures Accepted(cx, borrows, entries, blocks) <==> MutabilityPermits(cx) && AllGoesOn(cx, regions)
  {
    if Accepted(cx, borrows, entries, blocks) {
      forall p | Reachable(cx.body, p) && IsPoint(cx.body, p)
        ensures forall access :: access in AccessesAt(cx, p) ==> !cx.permissionError(access, p)
        ensures forall i: nat :: Lives(cx, regions, i, p) ==> GoesOnAt(cx, i, p)
      {
        AcceptedGoesOn(cx, borrows, regions, entries, preorder, blocks, p);
      }
      forall i: nat, p | Lives(cx, regions, i, p) && IsPoint(cx.body, p)
        ensures GoesOnAt(cx, i, p)
      {
        LivesReachable(cx, regions, preorder, i, p);
      }
    }
    if MutabilityPermits(cx) && AllGoesOn(cx, regions) {
      forall k | 0 <= k < |blocks|
        ensures BlockClean(cx, borrows, entries, blocks[k])
      {
        assert blocks[k] in blocks;
        GoesOnClean(cx, borrows, regions, entries, preorder, blocks[k]);
      }
      SilenceExactly(cx, borrows, entries, blocks);
    }
  }

  // ---------------------------------------------------------------- accepted bodies are safe

  /** Accesses that meet the loan safely do nothing to its storage that is not permitted. */
  lemma SafeAccessesDo(cx: CheckCx, i: BorrowIndex, p: Location)
    requires ValidSet(cx.borrowSet) && i < |cx.borrowSet.loans| && IsPoint(cx.body, p)
    requires forall access :: access in AccessesAt(cx, p) ==> MeetSafely(cx, i, access, p)
    ensures SafeDeeds(cx, i, p)
  {
    var loan := cx.borrowSet.loans[i];
    forall v, bi, deed, m, n | Meeting(cx, i, p, v, bi, deed, m, n)
      ensures Permitted(Seen(cx), cx.body, i, loan, deed, p)
    {
      EffectsExactly(cx, v, p, deed, n);
      var access :| access in AccessesAt(cx, p) && AccessDoes(cx.tcx, v, access, deed, n);
      assert Meets(cx.tcx, v.len, bi, v.indices, loan.borrowedPlace, loan.kind, access.place, access.depth, m, n);
      assert Intersect(cx.tcx, v.len, bi, v.indices, loan.borrowedPlace, loan.kind, access.place, access.depth);
    }
  }

  /** The place of the storage that goes away, for a loan on its local. */
  lemma GoneIsAccessed(cx: CheckCx, len: Lengths, l: Local, n: Node)
    ensures Fits(len, ZeroIndices(), LocalPlace(l)) && Fits(len, ZeroIndices(), Place(l, [ProjectionElem.Deref]))
    ensures n.local == l && GoesAway(cx.tcx, cx.localsAreInvalidatedAtExit, n) <==>
              if l in cx.tcx.threadLocalRefs then
                InAccess(cx.tcx, len, ZeroIndices(), Place(l, [ProjectionElem.Deref]), Deep, n)
              else
                cx.localsAreInvalidatedAtExit && InAccess(cx.tcx, len, ZeroIndices(), LocalPlace(l), Shallow(None), n)
  {
    var deref := Place(l, [ProjectionElem.Deref]);
    assert deref.projection[..0] == [];
    assert ViewOf(len, ZeroIndices(), l, []) == Some(Whole([]));
    assert ViewOf(len, ZeroIndices(), l, deref.projection) == Some(Whole([] + [SDeref]));
    WholeLocal(Valuation(len, ZeroIndices()), l, n);
    if n.path != [] {
      assert n.path[..1] == [n.path[0]];
    }
  }

  /** A loan that may outlive the frame leaves nothing hanging. */
  lemma OutlivingIsSafe(cx: CheckCx, i: BorrowIndex)
    requires i < |cx.borrowSet.loans| && MayOutlive(cx, i) && SubsliceLast(cx.borrowSet.loans[i].borrowedPlace)
    ensures SafeEnd(cx, i)
  {
    var loan := cx.borrowSet.loans[i];
    var l := loan.borrowedPlace.local;
    var thread := l in cx.tcx.threadLocalRefs;
    var place, depth := if thread then Place(l, [ProjectionElem.Deref]) else LocalPlace(l),
                        if thread then Deep else Shallow(None);
    forall len, bi, m, n
      ensures !LeftHanging(cx, i, len, bi, m, n)
    {
      if Fits(len, bi, loan.borrowedPlace) && InBorrow(len, bi, loan.borrowedPlace, loan.kind, m)
         && GoesAway(cx.tcx, cx.localsAreInvalidatedAtExit, n) && n.local == l {
        GoneIsAccessed(cx, len, l, n);
        OverlapSound(cx.tcx, len, bi, ZeroIndices(), loan.borrowedPlace, loan.kind, place, depth);
        assert !Meets(cx.tcx, len, bi, ZeroIndices(), loan.borrowedPlace, loan.kind, place, depth, m, n);
      }
    }
  }

  /** Where control leaves an accepted body, no loan that lives protects storage that goes away. */
  lemma AcceptedEndsAreSafe(cx: CheckCx, borrows: Borrows, regions: RegionValues, entries: Entries,
                            preorder: seq<BasicBlock>, blocks: seq<BasicBlock>, i: BorrowIndex, p: Location)
    requires Analysed(cx, borrows, regions, entries, preorder)
    requires ReachableBlocks(cx.body, blocks) && Accepted(cx, borrows, entries, blocks)
    requires Lives(cx, regions, i, p) && EndsFrameAt(cx.body, p)
    requires SubsliceLast(cx.borrowSet.loans[i].borrowedPlace)
    ensures SafeEnd(cx, i)
  {
    LivesReachable(cx, regions, preorder, i, p);
    PointsOfAccepted(cx, borrows, entries, blocks, p);
    FrameEndsExactly(cx.body.blocks[p.block].terminator.kind);
    EndExactlyClean(cx, borrows, regions, entries, preorder, p);
    OutlivingIsSafe(cx, i);
  }

  lemma AcceptedDeedsAreSafe(cx: CheckCx, borrows: Borrows, regions: RegionValues, entries: Entries,
                             preorder: seq<BasicBlock>, blocks: seq<BasicBlock>, i: BorrowIndex, p: Location)
    requires Analysed(cx, borrows, regions, entries, preorder)
    requires ReachableBlocks(cx.body, blocks) && Accepted(cx, borrows, entries, blocks)
    requires Lives(cx, regions, i, p) && PlainAt(cx, p)
    requires ShapedLoan(cx, cx.borrowSet.loans[i]) && SubsliceLast(cx.borrowSet.loans[i].borrowedPlace)
    ensures SafeDeeds(cx, i, p)
  {
    LivesReachable(cx, regions, preorder, i, p);
    var path :| LivesAlong(cx.tcx, cx.borrowSet.localsStateAtExit, cx.body, regions, cx.borrowSet.loans[i], path, p);
    LivesExactly(borrows, regions, i, path, p);
    forall access | access in AccessesAt(cx, p)
      ensures MeetSafely(cx, i, access, p)
    {
      AccessedPlaces(cx, p, access);
      AcceptedIsSafe(cx, borrows, regions, entries, preorder, blocks, i, path, p, access);
    }
    SafeAccessesDo(cx, i, p);
  }

  /** Safety: in an accepted body nothing interferes with a loan while it lives. */
  lemma AcceptedBodyIsSafe(cx: CheckCx, borrows: Borrows, regions: RegionValues, entries: Entries,
                           preorder: seq<BasicBlock>, blocks: seq<BasicBlock>)
    requires Analysed(cx, borrows, regions, entries, preorder)
    requires ReachableBlocks(cx.body, blocks) && Accepted(cx, borrows, entries, blocks)
    ensures SafeBody(cx, regions)
  {
    forall i: nat, p | Lives(cx, regions, i, p)
      ensures SafeAt(cx, i, p)
    {
      if SubsliceLast(cx.borrowSet.loans[i].borrowedPlace) {
        if PlainAt(cx, p) && ShapedLoan(cx, cx.borrowSet.loans[i]) {
          AcceptedDeedsAreSafe(cx, borrows, regions, entries, preorder, blocks, i, p);
        }
        if EndsFrameAt(cx.body, p) {
          AcceptedEndsAreSafe(cx, borrows, regions, entries, preorder, blocks, i, p);
        }
      }
    }
  }

  // ---------------------------------------------------------------- safe bodies are accepted

  /** What is borrowed and whatever of its local the point acts on can be compared exactly, up to slice lengths; and so
      can what is borrowed and its local. */
  ghost predicate ComparableAt(cx: CheckCx, i: BorrowIndex, p: Location)
    requires i < |cx.borrowSet.loans|
  {
    var borrowed := cx.borrowSet.loans[i].borrowedPlace;
    && borrowed.local !in cx.tcx.threadLocalRefs
    && ConflictFragment(cx.tcx, borrowed, LocalPlace(borrowed.local))
    && PlainAt(cx, p)
    && forall place :: ActedOn(cx.body, cx.borrowSet.loans, p, place) && place.local == borrowed.local ==>
         ConflictFragment(cx.tcx, borrowed, place)
  }

  ghost predicate ExactBody(cx: CheckCx, regions: RegionValues) {
    AllShaped(cx) && forall i: nat, p :: Lives(cx, regions, i, p) ==> ComparableAt(cx, i, p)
  }

  /** If all that the point does to the storage of a loan is permitted, each of its accesses may go on. */
  lemma SafeGoesOn(cx: CheckCx, preorder: seq<BasicBlock>, i: BorrowIndex, p: Location, access: Access)
    requires BlocksInRange(cx.body, preorder) && SetOfBody(cx.tcx, cx.body, preorder, cx.borrowSet)
    requires i < |cx.borrowSet.loans| && IsPoint(cx.body, p) && access in AccessesAt(cx, p)
    requires ComparableAt(cx, i, p) && SafeDeeds(cx, i, p)
    ensures GoesOn(cx, access, i, p)
  {
    var loan := cx.borrowSet.loans[i];
    assert IssuedBy(cx.tcx, cx.borrowSet.localsStateAtExit, cx.body, loan);
    if access.place.local != loan.borrowedPlace.local {
      return;
    }
    AccessedPlaces(cx, p, access);
    PossibleExactly(cx.tcx, loan.borrowedPlace, loan.kind, access.place, access.depth);
    if PossibleOverlap(cx.tcx, loan.borrowedPlace, loan.kind, access.place, access.depth) {
      OverlapIsPermitted(cx, i, p, access);
    }
  }

  /** An access that overlaps a loan in some valuation does something to its storage there. */
  lemma OverlapIsPermitted(cx: CheckCx, i: BorrowIndex, p: Location, access: Access)
    requires ValidSet(cx.borrowSet) && i < |cx.borrowSet.loans| && IsPoint(cx.body, p) && access in AccessesAt(cx, p)
    requires var loan := cx.borrowSet.loans[i];
             PossibleOverlap(cx.tcx, loan.borrowedPlace, loan.kind, access.place, access.depth)
    requires SafeDeeds(cx, i, p)
    ensures PermittedTogether(cx, access.rw, i, p)
  {
    var loan := cx.borrowSet.loans[i];
    var len, bi, ai :| Fits(len, bi, loan.borrowedPlace) && Fits(len, ai, access.place)
                    && Intersect(cx.tcx, len, bi, ai, loan.borrowedPlace, loan.kind, access.place, access.depth);
    var m, n :| Meets(cx.tcx, len, bi, ai, loan.borrowedPlace, loan.kind, access.place, access.depth, m, n);
    var v, deed := Valuation(len, ai), DeedOf(access.rw);
    assert AccessDoes(cx.tcx, v, access, deed, n);
    EffectsExactly(cx, v, p, deed, n);
    assert Meeting(cx, i, p, v, bi, deed, m, n);
  }

  lemma SafeOutlives(cx: CheckCx, preorder: seq<BasicBlock>, i: BorrowIndex, p: Location)
    requires BlocksInRange(cx.body, preorder) && SetOfBody(cx.tcx, cx.body, preorder, cx.borrowSet)
    requires i < |cx.borrowSet.loans| && ComparableAt(cx, i, p) && SafeEnd(cx, i)
    ensures MayOutlive(cx, i)
  {
    var loan := cx.borrowSet.loans[i];
    var whole := LocalPlace(loan.borrowedPlace.local);
    assert IssuedBy(cx.tcx, cx.borrowSet.localsStateAtExit, cx.body, loan);
    PossibleExactly(cx.tcx, loan.borrowedPlace, loan.kind, whole, Shallow(None));
    if PossibleOverlap(cx.tcx, loan.borrowedPlace, loan.kind, whole, Shallow(None)) && cx.localsAreInvalidatedAtExit {
      var len, bi, ai :| Fits(len, bi, loan.borrowedPlace) && Fits(len, ai, whole)
                      && Intersect(cx.tcx, len, bi, ai, loan.borrowedPlace, loan.kind, whole, Shallow(None));
      var m, n :| Meets(cx.tcx, len, bi, ai, loan.borrowedPlace, loan.kind, whole, Shallow(None), m, n);
      WholeLocal(Valuation(len, ai), whole.local, n);
      assert LeftHanging(cx, i, len, bi, m, n);
    }
  }

  /** Completeness: a body in which nothing interferes with a loan while it lives is accepted. */
  lemma SafeBodyIsAccepted(cx: CheckCx, borrows: Borrows, regions: RegionValues, entries: Entries,
                           preorder: seq<BasicBlock>, blocks: seq<BasicBlock>)
    requires Analysed(cx, borrows, regions, entries, preorder)
    requires ReachableBlocks(cx.body, blocks) && ExactBody(cx, regions)
    requires MutabilityPermits(cx) && SafeBody(cx, regions)
    ensures Accepted(cx, borrows, entries, blocks)
  {
    forall i: nat, p | Lives(cx, regions, i, p) && IsPoint(cx.body, p)
      ensures GoesOnAt(cx, i, p)
    {
      assert ComparableAt(cx, i, p) && SafeAt(cx, i, p);
      forall access | access in AccessesAt(cx, p)
        ensures GoesOn(cx, access, i, p)
      {
        SafeGoesOn(cx, preorder, i, p, access);
      }
      if EndsFrameAt(cx.body, p) {
        SafeOutlives(cx, preorder, i, p);
      }
    }
    AcceptedExactly(cx, borrows, regions, entries, preorder, blocks);
  }

  // ---------------------------------------------------------------- the whole check

  /** Inputs of the check that other parts of the compiler provide. */
  datatype Inputs = Inputs(
    tcx: TyCtxt,
    body: Body,
    localsAreInvalidatedAtExit: bool,
    movedLocals: set<Local>,
    preorder: seq<BasicBlock>,
    reversePostorder: seq<BasicBlock>,
    regions: RegionValues,
    polonius: Option<LoanLiveness>,
    dominators: Dominators,
    permissionError: (Access, Location) -> bool,
    borrowSpan: BorrowIndex -> Span,
    iterateToFixpoint: Borrows -> Entries)

  function CheckCxOf(input: Inputs, borrowSet: BorrowSet): CheckCx {
    CheckCx(input.tcx, input.body, borrowSet, input.dominators, input.localsAreInvalidatedAtExit,
            input.permissionError, input.borrowSpan)
  }

  /** The traversals visit the blocks that can be reached, and the solver returns least solutions. */
  ghost predicate SoundInputs(input: Inputs) {
    && WellFormed(input.body)
    && PreorderOf(input.body, input.preorder)
    && ReachableBlocks(input.body, input.reversePostorder)
    && (forall borrows :: ValidBorrows(borrows) ==> LeastSolution(borrows, input.iterateToFixpoint(borrows)))
    && DominatorsOf(input.body, input.dominators)
  }

  /** The region inference puts the issue point of each loan into its region, and its two views of loans agree. */
  ghost predicate SoundRegions(input: Inputs, loans: seq<BorrowData>) {
    && (forall i :: 0 <= i < |loans| ==> RegionContains(input.regions, loans[i].region, loans[i].reserveLocation))
    && (input.polonius.Some? ==> LivenessMatchesRegions(input.body, input.regions, input.polonius.value, loans))
  }

  /** An accepted body is safe. Acceptance is exactly that all may go on; and where the places of the body can be
      compared exactly, that the body is safe and mutability permits its accesses. */
  ghost predicate RightVerdict(cx: CheckCx, regions: RegionValues, accepted: bool) {
    && (accepted ==> SafeBody(cx, regions))
    && (AllShaped(cx) ==> (accepted <==> MutabilityPermits(cx) && AllGoesOn(cx, regions)))
    && (ExactBody(cx, regions) ==> (accepted <==> MutabilityPermits(cx) && SafeBody(cx, regions)))
  }

  lemma VerdictExactly(input: Inputs, borrowSet: BorrowSet, borrows: Borrows, entries: Entries)
    requires SoundInputs(input)
    requires Analysed(CheckCxOf(input, borrowSet), borrows, input.regions, entries, input.preorder)
    ensures var cx := CheckCxOf(input, borrowSet);
            var accepted := Accepted(cx, borrows, entries, input.reversePostorder);
            RightVerdict(cx, input.regions, accepted)
  {
    var cx := CheckCxOf(input, borrowSet);
    if AllShaped(cx) {
      AcceptedExactly(cx, borrows, input.regions, entries, input.preorder, input.reversePostorder);
    }
    if Accepted(cx, borrows, entries, input.reversePostorder) {
      AcceptedBodyIsSafe(cx, borrows, input.regions, entries, input.preorder, input.reversePostorder);
    } else if ExactBody(cx, input.regions) && MutabilityPermits(cx) && SafeBody(cx, input.regions) {
      SafeBodyIsAccepted(cx, borrows, input.regions, entries, input.preorder, input.reversePostorder);
    }
  }

  /** The part of `do_mir_borrowck` that decides about loans, once they have been gathered. */
  method CheckLoans(input: Inputs, borrowSet: BorrowSet)
    returns (accepted: bool, ghost borrows: Borrows, ghost entries: Entries)
    requires SoundInputs(input)
    requires SetOfBody(input.tcx, input.body, input.preorder, borrowSet)
    requires SoundRegions(input, borrowSet.loans)
    ensures Analysed(CheckCxOf(input, borrowSet), borrows, input.regions, entries, input.preorder)
    ensures accepted <==> Accepted(CheckCxOf(input, borrowSet), borrows, entries, input.reversePostorder)
    ensures RightVerdict(CheckCxOf(input, borrowSet), input.regions, accepted)
  {
    assert forall i :: 0 <= i < |borrowSet.loans| ==>
             IssuedBy(input.tcx, borrowSet.localsStateAtExit, input.body, borrowSet.loans[i]);
    var kills := NewBorrows(input.body, input.regions, borrowSet.loans, input.polonius);
    var analysis := Borrows.Borrows(input.tcx, input.body, borrowSet, kills);
    borrows := analysis;
    var solution := input.iterateToFixpoint(analysis);
    entries := solution;
    var mbcx := new MirBorrowckCtxt(CheckCxOf(input, borrowSet));
    forall j | 0 <= j < |input.reversePostorder|
      ensures IssuesResolve(analysis, input.reversePostorder[j])
    {
      assert input.reversePostorder[j] in input.preorder;
    }
    mbcx.VisitResults(analysis, solution, input.reversePostorder);
    accepted := !mbcx.tainted && !mbcx.aborted;
    VerdictExactly(input, borrowSet, borrows, entries);
  }

  /** What the region inference says about the loans of a body. */
  datatype Inferred = Inferred(regions: RegionValues, polonius: Option<LoanLiveness>)

  function WithRegions(input: Inputs, inferred: Inferred): Inputs {
    input.(regions := inferred.regions, polonius := inferred.polonius)
  }

  /** `do_mir_borrowck`, as far as loans go: gathers them, has their regions inferred, and checks. There is no verdict
      exactly if the body misuses the temporary of a two-phase borrow, which stops the gathering. */
  method DoMirBorrowck(input: Inputs, infer: seq<BorrowData> -> Inferred)
    returns (verdict: Option<bool>, ghost borrowSet: BorrowSet)
    requires SoundInputs(input)
    requires forall exit, loans :: LoansOfBody(input.tcx, exit, input.body, input.preorder, loans) ==>
               SoundRegions(WithRegions(input, infer(loans)), loans)
    ensures verdict.Some? ==>
              var exit := borrowSet.localsStateAtExit;
              && ExitStateOf(input.localsAreInvalidatedAtExit, input.body, input.movedLocals, exit)
              && LoansOfBody(input.tcx, exit, input.body, input.preorder, borrowSet.loans)
              && RightVerdict(CheckCxOf(input, borrowSet), infer(borrowSet.loans).regions, verdict.value)
    ensures verdict.None? ==>
              exists exit ::
                && ExitStateOf(input.localsAreInvalidatedAtExit, input.body, input.movedLocals, exit)
                && MisusesTwoPhase(input.tcx, exit, input.body, input.preorder)
  {
    var gathered := BuildBorrowSet(input.tcx, input.body, input.localsAreInvalidatedAtExit, input.movedLocals,
                                   input.preorder);
    borrowSet := if gathered.Some? then gathered.value else BorrowSet([], map[], map[], AllAreInvalidated);
    if gathered.None? {
      return None, borrowSet;
    }
    var accepted, _, _ := CheckLoans(WithRegions(input, infer(gathered.value.loans)), gathered.value);
    verdict := Some(accepted);
  }
}
