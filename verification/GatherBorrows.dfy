/** The gathering visitor of `borrow_set.rs` as it runs: fields updated statement by statement. */
module GatherBorrows {
  import opened Mir
  import opened PlacesConflict
  import opened BorrowSets
  import opened VisitEvents
  import opened Activations

  /** A step either ran to the given state or stopped with an internal error. */
  ghost predicate Outcome(bug: Option<GatherBug>, state: GatherState, expected: Gathered) {
    match expected
    case Running(h) => bug == None && state == h
    case Stopped(b) => bug == Some(b)
  }

  lemma NextInBlock(tcx: TyCtxt, exit: LocalsStateAtExit, g: GatherState, body: Body, b: BasicBlock, k: nat)
    requires b < |body.blocks| && k < |body.blocks[b].statements|
    ensures match VisitStatement(tcx, exit, g, body.blocks[b].statements[k].kind, Location(b, k))
            case Stopped(bug) => VisitBlock(tcx, exit, g, body, b, k) == Stopped(bug)
            case Running(h) => VisitBlock(tcx, exit, g, body, b, k) == VisitBlock(tcx, exit, h, body, b, k + 1)
  {
  }

  lemma GathersNext(tcx: TyCtxt, exit: LocalsStateAtExit, body: Body, g: GatherState, done: set<BasicBlock>,
                    b: BasicBlock, k: nat)
    requires b < |body.blocks| && b !in done && k < |body.blocks[b].statements|
    requires Gathers(tcx, exit, body, g, PointsOf(done, b, k))
    requires VisitStatement(tcx, exit, g, body.blocks[b].statements[k].kind, Location(b, k)).Running?
    ensures Gathers(tcx, exit, body,
                    VisitStatement(tcx, exit, g, body.blocks[b].statements[k].kind, Location(b, k)).state,
                    PointsOf(done, b, k + 1))
  {
    var p := Location(b, k);
    GathersStatement(tcx, exit, body, g, PointsOf(done, b, k), p);
    var h := VisitStatement(tcx, exit, g, body.blocks[b].statements[k].kind, p).state;
    SamePoints(tcx, exit, body, h, And(PointsOf(done, b, k), p), PointsOf(done, b, k + 1));
  }

  class Gatherer {
    const tcx: TyCtxt
    const localsStateAtExit: LocalsStateAtExit
    const body: Body
    var locationMap: seq<BorrowData>
    var activationMap: ActivationMap
    var localMap: LocalMap
    var pendingActivations: map<Local, BorrowIndex>

    ghost function State(): GatherState
      reads this
    {
      GatherState(locationMap, activationMap, localMap, pendingActivations)
    }

    constructor (tcx: TyCtxt, localsStateAtExit: LocalsStateAtExit, body: Body)
      ensures this.tcx == tcx && this.localsStateAtExit == localsStateAtExit && this.body == body
      ensures State() == EmptyState
    {
      this.tcx, this.localsStateAtExit, this.body := tcx, localsStateAtExit, body;
      locationMap, activationMap, localMap, pendingActivations := [], map[], map[], map[];
    }

    method VisitUse(u: LocalUse, location: Location) returns (bug: Option<GatherBug>)
      requires GoodState(State())
      modifies this`locationMap, this`activationMap
      ensures Outcome(bug, State(), VisitLocal(old(State()), u, location))
      ensures |locationMap| == |old(locationMap)|
      ensures bug == None ==> forall i :: 0 <= i < |locationMap| ==> ActivatesFor(old(State()), State(), u, location, i)
      ensures bug.Some? ==> exists i :: UsedAlready(old(State()), u, location, i)
    {
      VisitLocalExactly(State(), u, location);
      if !IsUse(u.context) || u.local !in pendingActivations {
        return None;
      }
      assert PendingFor(locationMap, u.local, pendingActivations[u.local]);
      var borrowIndex := pendingActivations[u.local];
      var borrowData := locationMap[borrowIndex];
      if borrowData.reserveLocation == location && u.context == Store {
        return None;
      }
      if borrowData.activation.ActivatedAt? {
        return Some(TwoUses);
      }
      assert borrowData.activation == NotActivated;
      activationMap := activationMap[location := ActivationsAt(activationMap, location) + [borrowIndex]];
      locationMap := locationMap[borrowIndex := borrowData.(activation := ActivatedAt(location))];
      return None;
    }

    method VisitAll(uses: seq<LocalUse>, location: Location) returns (bug: Option<GatherBug>)
      requires GoodState(State())
      modifies this`locationMap, this`activationMap
      ensures Outcome(bug, State(), VisitUses(old(State()), uses, location))
    {
      var k := 0;
      while k < |uses|
        invariant k <= |uses|
        invariant GoodState(State())
        invariant VisitUses(old(State()), uses, location) == VisitUses(State(), uses[k..], location)
      {
        assert uses[k..][0] == uses[k] && uses[k..][1..] == uses[k + 1..];
        VisitLocalKeeps(State(), uses[k], location);
        bug := VisitUse(uses[k], location);
        if bug.Some? {
          return;
        }
        k := k + 1;
      }
      return None;
    }

    method InsertAsPendingIfTwoPhase(lhs: Place, kind: BorrowKind, borrowIndex: BorrowIndex)
      returns (bug: Option<GatherBug>)
      requires borrowIndex < |locationMap|
      modifies this`locationMap, this`pendingActivations
      ensures bug == if !AllowTwoPhaseBorrow(kind) then None
                     else if lhs.projection != [] then Some(NotALocal)
                     else if lhs.local in old(pendingActivations) then Some(AlreadyPending)
                     else None
      ensures bug == None && !AllowTwoPhaseBorrow(kind) ==>
                locationMap == old(locationMap) && pendingActivations == old(pendingActivations)
      ensures bug == None && AllowTwoPhaseBorrow(kind) ==>
                && locationMap == old(locationMap)[borrowIndex :=
                                                   old(locationMap)[borrowIndex].(activation := NotActivated)]
                && pendingActivations == old(pendingActivations)[lhs.local := borrowIndex]
    {
      if !AllowTwoPhaseBorrow(kind) {
        return None;
      }
      if lhs.projection != [] {
        return Some(NotALocal);
      }
      locationMap := locationMap[borrowIndex := locationMap[borrowIndex].(activation := NotActivated)];
      var already := lhs.local in pendingActivations;
      pendingActivations := pendingActivations[lhs.local := borrowIndex];
      if already {
        return Some(AlreadyPending);
      }
      return None;
    }

    method VisitAssignment(lhs: Place, rvalue: Rvalue, location: Location) returns (bug: Option<GatherBug>)
      requires GoodState(State())
      requires IndexOf(locationMap, location).None?
      modifies this`locationMap, this`activationMap, this`localMap, this`pendingActivations
      ensures Outcome(bug, State(), VisitAssign(tcx, localsStateAtExit, old(State()), lhs, rvalue, location))
    {
      if rvalue.Ref? {
        if IgnoreBorrow(tcx, localsStateAtExit, rvalue.place) {
          return None;
        }
        ghost var data := NewLoan(lhs, rvalue, location);
        var borrow := BorrowData(location, NotTwoPhase, rvalue.kind, rvalue.region, rvalue.place, lhs);
        InsertLoanAppends(State(), data);
        var idx := |locationMap|;
        locationMap := locationMap + [borrow];
        bug := InsertAsPendingIfTwoPhase(lhs, rvalue.kind, idx);
        if bug.Some? {
          return;
        }
        var on := LoansOn(localMap, rvalue.place.local);
        localMap := localMap[rvalue.place.local := if idx in on then on else on + [idx]];
        assert InsertLoan(old(State()), data) == Running(State());
        AppendedKeeps(old(State()), State(), data);
        // What visiting the rvalue double-checks.
        assert locationMap[idx] == data.(activation := locationMap[idx].activation);
      }
      bug := VisitAll(StatementUses(Assign(lhs, rvalue)), location);
    }

    method VisitStatementAt(b: BasicBlock, k: nat, ghost done: set<BasicBlock>) returns (bug: Option<GatherBug>)
      requires b < |body.blocks| && b !in done && k < |body.blocks[b].statements|
      requires Gathers(tcx, localsStateAtExit, body, State(), PointsOf(done, b, k))
      modifies this`locationMap, this`activationMap, this`localMap, this`pendingActivations
      ensures Outcome(bug, State(),
                      VisitStatement(tcx, localsStateAtExit, old(State()), body.blocks[b].statements[k].kind,
                                     Location(b, k)))
      ensures bug == None ==> Gathers(tcx, localsStateAtExit, body, State(), PointsOf(done, b, k + 1))
    {
      var kind, p := body.blocks[b].statements[k].kind, Location(b, k);
      ghost var before := State();
      if kind.Assign? {
        assert forall j :: 0 <= j < |locationMap| ==> PointsOf(done, b, k)(locationMap[j].reserveLocation);
        bug := VisitAssignment(kind.lhs, kind.rhs, p);
      } else {
        bug := VisitAll(StatementUses(kind), p);
      }
      assert Outcome(bug, State(), VisitStatement(tcx, localsStateAtExit, before, kind, p));
      if bug.None? {
        GathersNext(tcx, localsStateAtExit, body, before, done, b, k);
      }
    }

    /** Visits the next statement of a block; what the whole visit comes to, `expected`, does not change. */
    method VisitNextStatement(b: BasicBlock, k: nat, ghost done: set<BasicBlock>, ghost expected: Gathered)
      returns (bug: Option<GatherBug>)
      requires b < |body.blocks| && b !in done && k < |body.blocks[b].statements|
      requires Gathers(tcx, localsStateAtExit, body, State(), PointsOf(done, b, k))
      requires expected == VisitBlock(tcx, localsStateAtExit, State(), body, b, k)
      modifies this`locationMap, this`activationMap, this`localMap, this`pendingActivations
      ensures bug == None ==>
                && Gathers(tcx, localsStateAtExit, body, State(), PointsOf(done, b, k + 1))
                && expected == VisitBlock(tcx, localsStateAtExit, State(), body, b, k + 1)
      ensures bug.Some? ==> expected == Stopped(bug.value)
    {
      ghost var before := State();
      bug := VisitStatementAt(b, k, done);
      NextInBlock(tcx, localsStateAtExit, before, body, b, k);
    }

    method VisitTerminatorAt(b: BasicBlock, ghost done: set<BasicBlock>) returns (bug: Option<GatherBug>)
      requires b < |body.blocks| && b !in done
      requires Gathers(tcx, localsStateAtExit, body, State(), PointsOf(done, b, |body.blocks[b].statements|))
      modifies this`locationMap, this`activationMap, this`localMap, this`pendingActivations
      ensures Outcome(bug, State(),
                      VisitBlock(tcx, localsStateAtExit, old(State()), body, b, |body.blocks[b].statements|))
    {
      bug := VisitAll(TerminatorUses(body.blocks[b].terminator.kind), Location(b, |body.blocks[b].statements|));
    }

    method VisitBasicBlockData(b: BasicBlock, ghost done: set<BasicBlock>) returns (bug: Option<GatherBug>)
      requires b < |body.blocks| && b !in done
      requires Gathers(tcx, localsStateAtExit, body, State(), PointsOf(done, b, 0))
      modifies this`locationMap, this`activationMap, this`localMap, this`pendingActivations
      ensures Outcome(bug, State(), VisitBlock(tcx, localsStateAtExit, old(State()), body, b, 0))
    {
      bug := VisitStatementsOf(b, done, VisitBlock(tcx, localsStateAtExit, State(), body, b, 0));
      if bug == None {
        bug := VisitTerminatorAt(b, done);
      }
    }

    method VisitStatementsOf(b: BasicBlock, ghost done: set<BasicBlock>, ghost expected: Gathered)
      returns (bug: Option<GatherBug>)
      requires b < |body.blocks| && b !in done
      requires Gathers(tcx, localsStateAtExit, body, State(), PointsOf(done, b, 0))
      requires expected == VisitBlock(tcx, localsStateAtExit, State(), body, b, 0)
      modifies this`locationMap, this`activationMap, this`localMap, this`pendingActivations
      ensures bug == None ==>
                && Gathers(tcx, localsStateAtExit, body, State(), PointsOf(done, b, |body.blocks[b].statements|))
                && expected == VisitBlock(tcx, localsStateAtExit, State(), body, b, |body.blocks[b].statements|)
      ensures bug.Some? ==> expected == Stopped(bug.value)
    {
      bug := None;
      var k := 0;
      while k < |body.blocks[b].statements| && bug == None
        invariant k <= |body.blocks[b].statements|
        invariant bug == None ==> Gathers(tcx, localsStateAtExit, body, State(), PointsOf(done, b, k))
        invariant bug == None ==> expected == VisitBlock(tcx, localsStateAtExit, State(), body, b, k)
        invariant bug.Some? ==> expected == Stopped(bug.value)
        decreases |body.blocks[b].statements| - k
      {
        bug := VisitNextStatement(b, k, done, expected);
        k := k + 1;
      }
    }

    /** Gathers the loans of the body. It stops exactly if the temporary of a two-phase borrow is misused. */
    method VisitBody(blocks: seq<BasicBlock>) returns (bug: Option<GatherBug>)
      requires State() == EmptyState
      requires BlocksInRange(body, blocks) && DistinctBlocks(blocks)
      modifies this`locationMap, this`activationMap, this`localMap, this`pendingActivations
      ensures bug.Some? <==> MisusesTwoPhase(tcx, localsStateAtExit, body, blocks)
      ensures bug == None ==>
                && Gathers(tcx, localsStateAtExit, body, State(), PointsOf(BlockSet(blocks), 0, 0))
                && ActivationsAreUses(BodyViewOf(Visit(tcx, localsStateAtExit, body)), VisitOrder(body, blocks),
                                      locationMap)
    {
      bug := VisitEachBlock(blocks);
      StopsExactly(Visit(tcx, localsStateAtExit, body), blocks);
      if bug == None {
        ActivationsExactly(Visit(tcx, localsStateAtExit, body), blocks);
      }
    }

    method VisitEachBlock(blocks: seq<BasicBlock>) returns (bug: Option<GatherBug>)
      requires State() == EmptyState
      requires BlocksInRange(body, blocks) && DistinctBlocks(blocks)
      modifies this`locationMap, this`activationMap, this`localMap, this`pendingActivations
      ensures Outcome(bug, State(), VisitBlocks(tcx, localsStateAtExit, EmptyState, body, blocks))
      ensures bug == None ==> Gathers(tcx, localsStateAtExit, body, State(), PointsOf(BlockSet(blocks), 0, 0))
    {
      var k := 0;
      ghost var done: set<BasicBlock> := {};
      while k < |blocks|
        invariant k <= |blocks|
        invariant forall b :: b in done <==> b in blocks[..k]
        invariant Gathers(tcx, localsStateAtExit, body, State(), PointsOf(done, 0, 0))
        invariant VisitBlocks(tcx, localsStateAtExit, EmptyState, body, blocks)
               == VisitBlocks(tcx, localsStateAtExit, State(), body, blocks[k..])
      {
        var block := blocks[k];
        assert blocks[k..][0] == block && blocks[k..][1..] == blocks[k + 1..];
        assert blocks[..k + 1] == blocks[..k] + [block];
        bug := VisitNext(block, done);
        if bug.Some? {
          return;
        }
        done := done + {block};
        k := k + 1;
      }
      assert blocks[..k] == blocks;
      assert done == BlockSet(blocks);
      return None;
    }

    method VisitNext(block: BasicBlock, ghost done: set<BasicBlock>) returns (bug: Option<GatherBug>)
      requires block < |body.blocks| && block !in done
      requires Gathers(tcx, localsStateAtExit, body, State(), PointsOf(done, 0, 0))
      modifies this`locationMap, this`activationMap, this`localMap, this`pendingActivations
      ensures Outcome(bug, State(), VisitBlock(tcx, localsStateAtExit, old(State()), body, block, 0))
      ensures bug == None ==> Gathers(tcx, localsStateAtExit, body, State(), PointsOf(done + {block}, 0, 0))
    {
      ghost var before := State();
      SamePoints(tcx, localsStateAtExit, body, before, PointsOf(done, 0, 0), PointsOf(done, block, 0));
      bug := VisitBasicBlockData(block, done);
      if bug == None {
        GathersBlock(tcx, localsStateAtExit, body, before, done, block, 0);
        SamePoints(tcx, localsStateAtExit, body, State(), PointsOf(done + {block}, block, 0),
                   PointsOf(done + {block}, 0, 0));
      }
    }
  }

  // ---------------------------------------------------------------- locals at exit

  ghost predicate HasStorageDead(body: Body, local: Local) {
    exists b, k :: StorageDeadAt(body, b, k, local)
  }

  ghost predicate StorageDeadAt(body: Body, b: int, k: int, local: Local) {
    && 0 <= b < |body.blocks| && 0 <= k < |body.blocks[b].statements|
    && body.blocks[b].statements[k].kind == StorageDead(local)
  }

  ghost predicate ExitStateOf(allInvalidated: bool, body: Body, movedLocals: set<Local>, exit: LocalsStateAtExit) {
    && (exit.AllAreInvalidated? <==> allInvalidated)
    && (exit.SomeAreInvalidated? ==>
          forall l :: l in exit.hasStorageDeadOrMoved <==> HasStorageDead(body, l) || l in movedLocals)
  }

  /** The body misuses the temporary of a two-phase borrow that is tracked. */
  ghost predicate MisusesTwoPhase(tcx: TyCtxt, exit: LocalsStateAtExit, body: Body, blocks: seq<BasicBlock>)
    requires BlocksInRange(body, blocks)
  {
    Misused(BodyViewOf(Visit(tcx, exit, body)), VisitOrder(body, blocks))
  }

  /** The locals that are dead or moved out somewhere in the body, unless all are invalidated anyway. */
  method BuildLocalsStateAtExit(allInvalidated: bool, body: Body, movedLocals: set<Local>)
    returns (exit: LocalsStateAtExit)
    ensures ExitStateOf(allInvalidated, body, movedLocals, exit)
  {
    if allInvalidated {
      return AllAreInvalidated;
    }
    var dead: set<Local> := {};
    for b := 0 to |body.blocks|
      invariant forall l :: l in dead ==> HasStorageDead(body, l)
      invariant forall c, k, l :: c < b && StorageDeadAt(body, c, k, l) ==> l in dead
    {
      var statements := body.blocks[b].statements;
      for i := 0 to |statements|
        invariant forall l :: l in dead ==> HasStorageDead(body, l)
        invariant forall c, k, l :: (c < b || (c == b && k < i)) && StorageDeadAt(body, c, k, l) ==> l in dead
      {
        if statements[i].kind.StorageDead? {
          assert StorageDeadAt(body, b, i, statements[i].kind.local);
          dead := dead + {statements[i].kind.local};
        }
      }
    }
    return SomeAreInvalidated(dead + movedLocals);
  }

  /** The borrow set is valid, its loans are exactly the tracked loans issued in the given blocks, and each two-phase
      loan is activated exactly where its temporary is used after the reservation. */
  ghost predicate SetOfBody(tcx: TyCtxt, body: Body, blocks: seq<BasicBlock>, s: BorrowSet)
    requires BlocksInRange(body, blocks)
  {
    && ValidSet(s)
    && ActivationsAreUses(BodyViewOf(Visit(tcx, s.localsStateAtExit, body)), VisitOrder(body, blocks), s.loans)
    && (forall i :: 0 <= i < |s.loans| ==>
          IssuedBy(tcx, s.localsStateAtExit, body, s.loans[i]) && s.loans[i].reserveLocation.block in blocks)
    && (forall p: Location :: p.block in blocks && IssuesLoan(tcx, s.localsStateAtExit, body, p) ==>
        IndexOf(s.loans, p).Some?)
  }

  /** The statement at `r` takes a borrow that something done to its place could invalidate. */
  ghost predicate TakesBorrow(tcx: TyCtxt, exit: LocalsStateAtExit, body: Body, r: Location) {
    && IsPoint(body, r) && !IsTerminatorPoint(body, r)
    && var kind := body.blocks[r.block].statements[r.index].kind;
       kind.Assign? && kind.rhs.Ref? && !CannotBeInvalidated(tcx, exit, kind.rhs.place)
  }

  /** The loan records the borrow taken at its reserve location. */
  ghost predicate RecordsBorrow(body: Body, loan: BorrowData) {
    var r := loan.reserveLocation;
    && IsPoint(body, r) && !IsTerminatorPoint(body, r)
    && body.blocks[r.block].statements[r.index].kind ==
         Assign(loan.assignedPlace, Ref(loan.region, loan.kind, loan.borrowedPlace))
  }

  /** The loans are those of the borrows taken in the given blocks, one for each. */
  ghost predicate LoansOfBody(tcx: TyCtxt, exit: LocalsStateAtExit, body: Body, blocks: seq<BasicBlock>,
                              loans: seq<BorrowData>) {
    && (forall i :: 0 <= i < |loans| ==> RecordsBorrow(body, loans[i]))
    && (forall i, j :: 0 <= i < j < |loans| ==> loans[i].reserveLocation != loans[j].reserveLocation)
    && (forall r: Location :: (exists i :: 0 <= i < |loans| && loans[i].reserveLocation == r) <==>
          r.block in blocks && TakesBorrow(tcx, exit, body, r))
  }

  lemma IssuesExactly(tcx: TyCtxt, exit: LocalsStateAtExit, body: Body, r: Location)
    ensures IssuesLoan(tcx, exit, body, r) <==> TakesBorrow(tcx, exit, body, r)
  {
    if IsPoint(body, r) && !IsTerminatorPoint(body, r) {
      var kind := body.blocks[r.block].statements[r.index].kind;
      if kind.Assign? && kind.rhs.Ref? {
        IgnoredExactly(tcx, exit, kind.rhs.place);
      }
    }
  }

  /** What a set of the body holds, without the visitor's own test of which borrows to track. */
  lemma SetHoldsBorrows(tcx: TyCtxt, body: Body, blocks: seq<BasicBlock>, s: BorrowSet)
    requires BlocksInRange(body, blocks) && SetOfBody(tcx, body, blocks, s)
    ensures LoansOfBody(tcx, s.localsStateAtExit, body, blocks, s.loans)
  {
    forall i | 0 <= i < |s.loans|
      ensures RecordsBorrow(body, s.loans[i])
    {
      assert IssuedBy(tcx, s.localsStateAtExit, body, s.loans[i]);
    }
    forall r: Location
      ensures (exists i :: 0 <= i < |s.loans| && s.loans[i].reserveLocation == r) <==>
                r.block in blocks && TakesBorrow(tcx, s.localsStateAtExit, body, r)
    {
      IssuesExactly(tcx, s.localsStateAtExit, body, r);
      if i :| 0 <= i < |s.loans| && s.loans[i].reserveLocation == r {
        assert IssuedBy(tcx, s.localsStateAtExit, body, s.loans[i]);
      }
      if r.block in blocks && TakesBorrow(tcx, s.localsStateAtExit, body, r) {
        assert s.loans[IndexOf(s.loans, r).value].reserveLocation == r;
      }
    }
  }

  /** `BorrowSet::build`, over the blocks of a preorder traversal. */
  method BuildBorrowSet(tcx: TyCtxt, body: Body, allInvalidated: bool, movedLocals: set<Local>,
                        preorder: seq<BasicBlock>)
    returns (result: Option<BorrowSet>)
    requires BlocksInRange(body, preorder) && DistinctBlocks(preorder)
    ensures result.Some? ==>
              && SetOfBody(tcx, body, preorder, result.value)
              && LoansOfBody(tcx, result.value.localsStateAtExit, body, preorder, result.value.loans)
              && ExitStateOf(allInvalidated, body, movedLocals, result.value.localsStateAtExit)
              && !MisusesTwoPhase(tcx, result.value.localsStateAtExit, body, preorder)
    ensures result.None? ==>
              exists exit :: ExitStateOf(allInvalidated, body, movedLocals, exit)
                  && MisusesTwoPhase(tcx, exit, body, preorder)
  {
    var exit := BuildLocalsStateAtExit(allInvalidated, body, movedLocals);
    var visitor := new Gatherer(tcx, exit, body);
    var bug := visitor.VisitBody(preorder);
    if bug.Some? {
      assert MisusesTwoPhase(tcx, exit, body, preorder);
      return None;
    }
    assert Gathers(tcx, exit, body, visitor.State(), PointsOf(BlockSet(preorder), 0, 0));
    result := Some(BorrowSet(visitor.locationMap, visitor.activationMap, visitor.localMap, exit));
    SetHoldsBorrows(tcx, body, preorder, result.value);
  }
}
