/** The checks of `lib.rs` as they run: a context whose error sets grow while the results of the dataflow are
    visited block by block. */
module BorrowChecks {
  import opened Mir
  import opened PlacesConflict
  import opened BorrowSets
  import opened TwoPhaseBorrows
  import opened Accesses
  import opened LoanFlow

  class MirBorrowckCtxt {
    const cx: CheckCx
    var accessPlaceErrorReported: set<(Place, Span)>
    var reservationErrorReported: set<Place>
    var tainted: bool
    var aborted: bool

    ghost function State(): CheckState
      reads this
    {
      CheckState(accessPlaceErrorReported, reservationErrorReported, tainted, aborted)
    }

    constructor (cx: CheckCx)
      ensures this.cx == cx && State() == CleanState
    {
      this.cx := cx;
      accessPlaceErrorReported, reservationErrorReported, tainted, aborted := {}, {}, false, false;
    }

    /** Visits the loans on the local of the accessed place until one stops the visit. */
    method EachBorrowInvolvingPath(location: Location, access: Access, inScope: set<BorrowIndex>)
      returns (result: ScanResult)
      requires ValidSet(cx.borrowSet)
      ensures result == Scan(cx, Candidates(cx, access), inScope, access, location)
      ensures result.Conflicting? ==> result.loan < |cx.borrowSet.loans|
    {
      var candidates := LoansOn(cx.borrowSet.localMap, access.place.local);
      LoansOfLocalAre(cx.borrowSet.loans, access.place.local);
      var k := 0;
      while k < |candidates|
        invariant k <= |candidates|
        invariant Scan(cx, candidates, inScope, access, location) ==
                    Scan(cx, candidates[k..], inScope, access, location)
      {
        var i := candidates[k];
        assert i in candidates;
        assert candidates[k..][0] == i && candidates[k..][1..] == candidates[k + 1..];
        if i in inScope {
          var loan := cx.borrowSet.loans[i];
          var answer := BorrowConflictsWithPlace(cx.tcx, loan.borrowedPlace, loan.kind, access.place, access.depth,
                                                 BiasOverlap);
          if !answer.Conflicts? {
            return InternalError;
          }
          if answer.conflict {
            var goOn := CheckConflict(location, access, i);
            if !goOn {
              return Conflicting(i);
            }
          }
        }
        k := k + 1;
      }
      return NoError;
    }

    /** Decides on one conflicting loan. A borrow that is not active yet must be a two-phase borrow. */
    method CheckConflict(location: Location, access: Access, i: BorrowIndex) returns (goOn: bool)
      requires ValidSet(cx.borrowSet) && i < |cx.borrowSet.loans|
      ensures goOn <==> Compatible(cx.dominators, access.rw, i, cx.borrowSet.loans[i], location)
      ensures access.rw.Read? && !cx.borrowSet.loans[i].kind.Mut? ==> goOn
      ensures access.rw.Write? && goOn ==>
                access.rw == Write(MoveOut) && cx.borrowSet.loans[i].kind == Fake(ShallowFake)
    {
      var loan := cx.borrowSet.loans[i];
      match (access.rw, loan.kind)
      case (Activation(_, activating), _) => return activating == i;
      case (Read(ReadBorrow(Fake(ShallowFake))), _) => return true;
      case (Read(_), Mut(_)) =>
        if !IsActive(cx.dominators, loan, location) {
          assert AllowTwoPhaseBorrow(loan.kind);
          return true;
        }
        return false;
      case (Read(_), _) => return true;
      case (Reservation(_), Mut(_)) => return false;
      case (Reservation(_), _) => return true;
      case (Write(kind), _) => return kind == MoveOut && loan.kind == Fake(ShallowFake);
    }

    method ReportBorrowedValueDoesNotLiveLongEnough(i: BorrowIndex)
      requires i < |cx.borrowSet.loans|
      modifies this
      ensures State() == ReportDoesNotLive(cx, old(State()), i)
    {
      var key := (LocalPlace(cx.borrowSet.loans[i].borrowedPlace.local), cx.borrowSpan(i));
      if key in accessPlaceErrorReported {
        return;
      }
      accessPlaceErrorReported := accessPlaceErrorReported + {key};
      tainted := true;
    }

    method CheckAccessForConflict(location: Location, access: Access, inScope: set<BorrowIndex>)
      returns (errorReported: bool)
      requires ValidSet(cx.borrowSet) && !aborted
      modifies this
      ensures match Scan(cx, Candidates(cx, access), inScope, access, location)
              case NoError => !errorReported && State() == old(State())
              case InternalError => State() == old(State()).(aborted := true)
              case Conflicting(i) =>
                && errorReported && i < |cx.borrowSet.loans|
                && State() == Report(cx, old(State()), access, i)
    {
      var result := EachBorrowInvolvingPath(location, access, inScope);
      match result
      case NoError => return false;
      case InternalError =>
        aborted := true;
        return false;
      case Conflicting(i) =>
        if access.rw.Reservation? {
          reservationErrorReported := reservationErrorReported + {access.place};
        }
        if !access.rw.Read? && access.rw.writeKind == StorageDeadOrDrop {
          ReportBorrowedValueDoesNotLiveLongEnough(i);
        } else {
          tainted := true;
        }
        return true;
    }

    method CheckAccess(location: Location, access: Access, inScope: set<BorrowIndex>)
      requires ValidSet(cx.borrowSet)
      modifies this
      ensures State() == AccessPlace(cx, old(State()), access, location, inScope)
    {
      if aborted {
        return;
      }
      if access.rw.Activation? && access.place in reservationErrorReported {
        return;
      }
      if accessPlaceErrorReported != {} && (access.place, access.span) in accessPlaceErrorReported {
        return;
      }
      var mutabilityError := cx.permissionError(access, location);
      if mutabilityError {
        tainted := true;
      }
      var conflictError := CheckAccessForConflict(location, access, inScope);
      if !aborted && (conflictError || mutabilityError) {
        accessPlaceErrorReported := accessPlaceErrorReported + {(access.place, access.span)};
      }
    }

    /** Checks accesses one after the other. */
    method CheckAll(location: Location, accesses: seq<Access>, inScope: set<BorrowIndex>)
      requires ValidSet(cx.borrowSet)
      modifies this
      ensures State() == AccessAll(cx, old(State()), accesses, location, inScope)
    {
      var k := 0;
      while k < |accesses|
        invariant k <= |accesses|
        invariant AccessAll(cx, old(State()), accesses, location, inScope)
               == AccessAll(cx, State(), accesses[k..], location, inScope)
      {
        assert accesses[k..][0] == accesses[k] && accesses[k..][1..] == accesses[k + 1..];
        CheckAccess(location, accesses[k], inScope);
        k := k + 1;
      }
    }

    method ConsumeOperand(location: Location, operand: Operand, span: Span, inScope: set<BorrowIndex>)
      requires ValidSet(cx.borrowSet)
      modifies this
      ensures State() == AccessAll(cx, old(State()), OperandAccesses(operand, span), location, inScope)
    {
      match operand
      case Copy(place) =>
        CheckAll(location, [Access(place, span, Deep, Read(ReadCopy), MutationNotAllowed)], inScope);
      case Move(place) =>
        CheckAll(location, [Access(place, span, Deep, Write(MoveOut), MutationAllowed)], inScope);
      case Constant =>
    }

    method ConsumeOperands(location: Location, operands: seq<Operand>, span: Span, inScope: set<BorrowIndex>)
      requires ValidSet(cx.borrowSet)
      modifies this
      ensures State() == AccessAll(cx, old(State()), OperandsAccesses(operands, span), location, inScope)
    {
      var k := 0;
      while k < |operands|
        invariant k <= |operands|
        invariant AccessAll(cx, old(State()), OperandsAccesses(operands, span), location, inScope)
               == AccessAll(cx, State(), OperandsAccesses(operands[k..], span), location, inScope)
      {
        assert operands[k..][0] == operands[k] && operands[k..][1..] == operands[k + 1..];
        AccessAllAppend(cx, State(), OperandAccesses(operands[k], span), OperandsAccesses(operands[k + 1..], span),
                        location, inScope);
        ConsumeOperand(location, operands[k], span, inScope);
        k := k + 1;
      }
    }

    method ConsumeArgs(location: Location, args: seq<(Operand, Span)>, inScope: set<BorrowIndex>)
      requires ValidSet(cx.borrowSet)
      modifies this
      ensures State() == AccessAll(cx, old(State()), ArgsAccesses(args), location, inScope)
    {
      var k := 0;
      while k < |args|
        invariant k <= |args|
        invariant AccessAll(cx, old(State()), ArgsAccesses(args), location, inScope)
               == AccessAll(cx, State(), ArgsAccesses(args[k..]), location, inScope)
      {
        assert args[k..][0] == args[k] && args[k..][1..] == args[k + 1..];
        AccessAllAppend(cx, State(), OperandAccesses(args[k].0, args[k].1), ArgsAccesses(args[k + 1..]), location,
                        inScope);
        ConsumeOperand(location, args[k].0, args[k].1, inScope);
        k := k + 1;
      }
    }

    method MutatePlace(location: Location, place: Place, span: Span, depth: AccessDepth, inScope: set<BorrowIndex>)
      requires ValidSet(cx.borrowSet)
      modifies this
      ensures State() == AccessAll(cx, old(State()), [MutateAccess(place, span, depth)], location, inScope)
    {
      CheckAll(location, [MutateAccess(place, span, depth)], inScope);
    }

    method ConsumeRvalue(location: Location, rvalue: Rvalue, span: Span, inScope: set<BorrowIndex>)
      requires ValidSet(cx.borrowSet)
      modifies this
      ensures State() == AccessAll(cx, old(State()), RvalueAccesses(rvalue, span), location, inScope)
    {
      match rvalue
      case Ref(_, kind, place) =>
        CheckAll(location, [BorrowAccess(kind, place, span)], inScope);
      case RawPtr(mutable, place) =>
        var rw := if mutable then Write(MutableBorrow(Mut(DefaultMut))) else Read(ReadBorrow(Shared));
        CheckAll(location, [Access(place, span, Deep, rw, MutationNotAllowed)], inScope);
      case ThreadLocalRef =>
      case Use(operand) =>
        ConsumeOperand(location, operand, span, inScope);
      case CopyForDeref(place) =>
        CheckAll(location, [Access(place, span, Deep, Read(ReadCopy), MutationNotAllowed)], inScope);
      case Len(place) =>
        CheckAll(location, [Access(place, span, Shallow(Some(ArrayLength)), Read(ReadCopy), MutationNotAllowed)],
                 inScope);
      case Discriminant(place) =>
        CheckAll(location, [Access(place, span, Shallow(None), Read(ReadCopy), MutationNotAllowed)], inScope);
      case BinaryOp(left, right) =>
        AccessAllAppend(cx, State(), OperandAccesses(left, span), OperandAccesses(right, span), location, inScope);
        ConsumeOperand(location, left, span, inScope);
        ConsumeOperand(location, right, span, inScope);
      case NullaryOp =>
      case Aggregate(operands) =>
        ConsumeOperands(location, operands, span, inScope);
    }

    method ConsumeAsm(location: Location, operands: seq<InlineAsmOperand>, span: Span, inScope: set<BorrowIndex>)
      requires ValidSet(cx.borrowSet)
      modifies this
      ensures State() == AccessAll(cx, old(State()), AsmAccesses(operands, span), location, inScope)
    {
      var k := 0;
      while k < |operands|
        invariant k <= |operands|
        invariant AccessAll(cx, old(State()), AsmAccesses(operands, span), location, inScope)
               == AccessAll(cx, State(), AsmAccesses(operands[k..], span), location, inScope)
      {
        assert operands[k..][0] == operands[k] && operands[k..][1..] == operands[k + 1..];
        var head := match operands[k]
          case AsmIn(o) => OperandAccesses(o, span)
          case AsmOut(p) => OptionalMutate(p, span)
          case AsmInOut(o, p) => OperandAccesses(o, span) + OptionalMutate(p, span)
          case AsmOther => [];
        AccessAllAppend(cx, State(), head, AsmAccesses(operands[k + 1..], span), location, inScope);
        CheckAll(location, head, inScope);
        k := k + 1;
      }
    }

    method CheckActivations(location: Location, span: Span, inScope: set<BorrowIndex>)
      requires ValidSet(cx.borrowSet)
      modifies this
      ensures State() == AccessAll(cx, old(State()),
                                   ActivationAccesses(cx, ActivationsAt(cx.borrowSet.activationMap, location), span),
                                   location, inScope)
    {
      var activations := ActivationsAt(cx.borrowSet.activationMap, location);
      assert ActivationsAgreeAt(cx.borrowSet.loans, cx.borrowSet.activationMap, location);
      var k := 0;
      while k < |activations|
        invariant k <= |activations|
        invariant AccessAll(cx, old(State()), ActivationAccesses(cx, activations, span), location, inScope)
               == AccessAll(cx, State(), ActivationAccesses(cx, activations[k..], span), location, inScope)
      {
        var i := activations[k];
        assert i in activations;
        assert activations[k..][0] == i && activations[k..][1..] == activations[k + 1..];
        // Only mutable borrows are two-phase borrows.
        assert cx.borrowSet.loans[i].kind.Mut?;
        AccessAllAppend(cx, State(), [ActivationAccess(cx, i, span)],
                        ActivationAccesses(cx, activations[k + 1..], span), location, inScope);
        CheckAll(location, [ActivationAccess(cx, i, span)], inScope);
        k := k + 1;
      }
    }

    method VisitStatement(location: Location, stmt: Statement, inScope: set<BorrowIndex>)
      requires ValidSet(cx.borrowSet)
      modifies this
      ensures State() == AccessAll(cx, old(State()),
                                   ActivationAccesses(cx, ActivationsAt(cx.borrowSet.activationMap, location),
                                                      stmt.span)
                                   + StatementAccesses(stmt), location, inScope)
    {
      AccessAllAppend(cx, State(),
                      ActivationAccesses(cx, ActivationsAt(cx.borrowSet.activationMap, location), stmt.span),
                      StatementAccesses(stmt), location, inScope);
      CheckActivations(location, stmt.span, inScope);
      match stmt.kind
      case Assign(lhs, rhs) =>
        AccessAllAppend(cx, State(), RvalueAccesses(rhs, stmt.span), [MutateAccess(lhs, stmt.span, Shallow(None))],
                        location, inScope);
        ConsumeRvalue(location, rhs, stmt.span, inScope);
        MutatePlace(location, lhs, stmt.span, Shallow(None), inScope);
      case Assume(operand) =>
        ConsumeOperand(location, operand, stmt.span, inScope);
      case StorageDead(local) =>
        CheckAll(location, [Access(LocalPlace(local), stmt.span, Shallow(None), Write(StorageDeadOrDrop),
                                   MutationAllowed)], inScope);
      case _ =>
    }

    method ConsumeCall(location: Location, func: Operand, args: seq<(Operand, Span)>, span: Span,
                       inScope: set<BorrowIndex>)
      requires ValidSet(cx.borrowSet)
      modifies this
      ensures State() == AccessAll(cx, old(State()), OperandAccesses(func, span) + ArgsAccesses(args), location,
                                   inScope)
    {
      AccessAllAppend(cx, State(), OperandAccesses(func, span), ArgsAccesses(args), location, inScope);
      ConsumeOperand(location, func, span, inScope);
      ConsumeArgs(location, args, inScope);
    }

    method CheckCall(location: Location, func: Operand, args: seq<(Operand, Span)>, destination: Place, span: Span,
                     inScope: set<BorrowIndex>)
      requires ValidSet(cx.borrowSet)
      modifies this
      ensures State() == AccessAll(cx, old(State()),
                                   OperandAccesses(func, span) + ArgsAccesses(args)
                                   + [MutateAccess(destination, span, Deep)], location, inScope)
    {
      AccessAllAppend(cx, State(), OperandAccesses(func, span) + ArgsAccesses(args),
                      [MutateAccess(destination, span, Deep)], location, inScope);
      ConsumeCall(location, func, args, span, inScope);
      MutatePlace(location, destination, span, Deep, inScope);
    }

    method CheckAssert(location: Location, cond: Operand, message: AssertMessage, span: Span, inScope: set<BorrowIndex>)
      requires ValidSet(cx.borrowSet)
      modifies this
      ensures State() == AccessAll(cx, old(State()),
                                   OperandAccesses(cond, span) + OperandsAccesses(BoundsOperands(message), span),
                                   location, inScope)
    {
      AccessAllAppend(cx, State(), OperandAccesses(cond, span), OperandsAccesses(BoundsOperands(message), span),
                      location, inScope);
      ConsumeOperand(location, cond, span, inScope);
      if message.BoundsCheck? {
        ConsumeOperands(location, [message.len, message.index], span, inScope);
      }
    }

    method CheckYield(location: Location, value: Operand, resumeArg: Place, span: Span, inScope: set<BorrowIndex>)
      requires ValidSet(cx.borrowSet)
      modifies this
      ensures State() == AccessAll(cx, old(State()),
                                   OperandAccesses(value, span) + [MutateAccess(resumeArg, span, Deep)], location,
                                   inScope)
    {
      AccessAllAppend(cx, State(), OperandAccesses(value, span), [MutateAccess(resumeArg, span, Deep)], location,
                      inScope);
      ConsumeOperand(location, value, span, inScope);
      MutatePlace(location, resumeArg, span, Deep, inScope);
    }

    method CheckDrop(location: Location, place: Place, replace: bool, span: Span, inScope: set<BorrowIndex>)
      requires ValidSet(cx.borrowSet)
      modifies this
      ensures var writeKind := if replace then Replace else StorageDeadOrDrop;
              State() == AccessAll(cx, old(State()),
                                   [Access(place, span, DropDepth, Write(writeKind), MutationAllowed)], location,
                                   inScope)
    {
      var writeKind := if replace then Replace else StorageDeadOrDrop;
      CheckAll(location, [Access(place, span, DropDepth, Write(writeKind), MutationAllowed)], inScope);
    }

    method CheckTerminator(location: Location, term: Terminator, inScope: set<BorrowIndex>)
      requires ValidSet(cx.borrowSet)
      modifies this
      ensures State() == AccessAll(cx, old(State()), TerminatorAccesses(term), location, inScope)
    {
      match term.kind
      case SwitchInt(discr, _) =>
        ConsumeOperand(location, discr, term.span, inScope);
      case Drop(place, _, _, replace) =>
        CheckDrop(location, place, replace, term.span, inScope);
      case Call(func, args, destination, _, _) =>
        CheckCall(location, func, args, destination, term.span, inScope);
      case TailCall(func, args) =>
        ConsumeCall(location, func, args, term.span, inScope);
      case Assert(cond, message, _, _) =>
        CheckAssert(location, cond, message, term.span, inScope);
      case Yield(value, _, resumeArg, _) =>
        CheckYield(location, value, resumeArg, term.span, inScope);
      case InlineAsm(operands, _, _) =>
        ConsumeAsm(location, operands, term.span, inScope);
      case _ =>
        CheckAll(location, [], inScope);
    }

    method VisitTerminator(location: Location, term: Terminator, inScope: set<BorrowIndex>)
      requires ValidSet(cx.borrowSet)
      modifies this
      ensures State() == AccessAll(cx, old(State()),
                                   ActivationAccesses(cx, ActivationsAt(cx.borrowSet.activationMap, location),
                                                      term.span)
                                   + TerminatorAccesses(term), location, inScope)
    {
      AccessAllAppend(cx, State(),
                      ActivationAccesses(cx, ActivationsAt(cx.borrowSet.activationMap, location), term.span),
                      TerminatorAccesses(term), location, inScope);
      CheckActivations(location, term.span, inScope);
      CheckTerminator(location, term, inScope);
    }

    method CheckForInvalidationAtExit(i: BorrowIndex)
      requires i < |cx.borrowSet.loans|
      modifies this
      ensures State() == CheckExit(cx, old(State()), i)
    {
      if aborted {
        return;
      }
      var loan := cx.borrowSet.loans[i];
      var rootPlace := LocalPlace(loan.borrowedPlace.local);
      var mightBeAlive := loan.borrowedPlace.local in cx.tcx.threadLocalRefs;
      var willBeDropped := mightBeAlive || cx.localsAreInvalidatedAtExit;
      if mightBeAlive {
        rootPlace := Place(loan.borrowedPlace.local, [ProjectionElem.Deref]);
      }
      if !willBeDropped {
        return;
      }
      var depth := if mightBeAlive then Deep else Shallow(None);
      var answer := BorrowConflictsWithPlace(cx.tcx, loan.borrowedPlace, loan.kind, rootPlace, depth, BiasOverlap);
      if !answer.Conflicts? {
        aborted := true;
      } else if answer.conflict {
        ReportBorrowedValueDoesNotLiveLongEnough(i);
      }
    }

    method VisitAfterTerminator(kind: TerminatorKind, inScope: set<BorrowIndex>)
      modifies this
      ensures State() == if LeavesFunction(kind) then CheckExits(cx, old(State()), inScope, |cx.borrowSet.loans|)
              else old(State())
    {
      if LeavesFunction(kind) {
        var i := 0;
        while i < |cx.borrowSet.loans|
          invariant i <= |cx.borrowSet.loans|
          invariant State() == CheckExits(cx, old(State()), inScope, i)
        {
          if i in inScope {
            CheckForInvalidationAtExit(i);
          }
          i := i + 1;
        }
      }
    }

    /** Visits one block, carrying the loans in scope from its entry to its end. */
    method VisitBlock(borrows: Borrows, entries: Entries, b: BasicBlock)
      requires ValidSet(cx.borrowSet)
      requires borrows.body == cx.body && borrows.borrowSet == cx.borrowSet
      requires |entries| == |cx.body.blocks| && b < |entries|
      requires IssuesResolve(borrows, b)
      modifies this
      ensures State() == CheckBlock(cx, borrows, entries, old(State()), b)
    {
      var bits := new LoanBits();
      bits.loans := entries[b];
      VisitStatements(borrows, entries, bits, b);
      NextPoint(cx, borrows, entries, old(State()), b, |cx.body.blocks[b].statements|);
      VisitTerminatorPoint(borrows, bits, Location(b, |cx.body.blocks[b].statements|));
      VisitAfterTerminator(cx.body.blocks[b].terminator.kind, bits.loans);
    }

    method VisitStatements(borrows: Borrows, ghost entries: Entries, bits: LoanBits, b: BasicBlock)
      requires ValidSet(cx.borrowSet)
      requires borrows.body == cx.body && borrows.borrowSet == cx.borrowSet
      requires |entries| == |cx.body.blocks| && b < |entries|
      requires IssuesResolve(borrows, b)
      requires bits.loans == entries[b]
      modifies this, bits
      ensures bits.loans == Before(borrows, entries[b], b, |cx.body.blocks[b].statements|)
      ensures State() == RunChecks(PointChecks(cx, borrows, entries, b), old(State()), |cx.body.blocks[b].statements|)
    {
      ghost var checks := PointChecks(cx, borrows, entries, b);
      for k := 0 to |cx.body.blocks[b].statements|
        invariant bits.loans == Before(borrows, entries[b], b, k)
        invariant State() == RunChecks(checks, old(State()), k)
      {
        NextPoint(cx, borrows, entries, old(State()), b, k);
        VisitStatementPoint(borrows, bits, Location(b, k));
      }
    }

    method VisitStatementPoint(borrows: Borrows, bits: LoanBits, p: Location)
      requires ValidSet(cx.borrowSet)
      requires borrows.body == cx.body && borrows.borrowSet == cx.borrowSet
      requires IsPoint(cx.body, p) && !IsTerminatorPoint(cx.body, p) && IssuesResolve(borrows, p.block)
      modifies this, bits
      ensures var inScope := EarlyEffect(borrows, old(bits.loans), p);
              && State() == AccessAll(cx, old(State()), AccessesAt(cx, p), p, inScope)
              && bits.loans == PrimaryEffect(borrows, inScope, p)
    {
      assert p == Location(p.block, p.index);
      ApplyEarlyEffect(borrows, bits, p);
      VisitStatement(p, cx.body.blocks[p.block].statements[p.index], bits.loans);
      ApplyPrimaryStatementEffect(borrows, bits, p);
    }

    method VisitTerminatorPoint(borrows: Borrows, bits: LoanBits, p: Location)
      requires ValidSet(cx.borrowSet)
      requires borrows.body == cx.body && borrows.borrowSet == cx.borrowSet
      requires IsPoint(cx.body, p) && IsTerminatorPoint(cx.body, p)
      modifies this, bits
      ensures var inScope := EarlyEffect(borrows, old(bits.loans), p);
              && State() == AccessAll(cx, old(State()), AccessesAt(cx, p), p, inScope)
              && bits.loans == PrimaryEffect(borrows, inScope, p)
    {
      ApplyEarlyEffect(borrows, bits, p);
      VisitTerminator(p, cx.body.blocks[p.block].terminator, bits.loans);
      ApplyPrimaryTerminatorEffect(borrows, bits, p);
    }

    method VisitResults(borrows: Borrows, entries: Entries, blocks: seq<BasicBlock>)
      requires ValidSet(cx.borrowSet)
      requires borrows.body == cx.body && borrows.borrowSet == cx.borrowSet
      requires |entries| == |cx.body.blocks| && BlocksInRange(cx.body, blocks)
      requires forall j :: 0 <= j < |blocks| ==> IssuesResolve(borrows, blocks[j])
      modifies this
      ensures State() == CheckBlocks(cx, borrows, entries, old(State()), blocks)
    {
      ghost var checks := BlockChecks(cx, borrows, entries, blocks);
      for k := 0 to |blocks|
        invariant State() == RunChecks(checks, old(State()), k)
      {
        VisitBlock(borrows, entries, blocks[k]);
      }
    }
  }

  // ---------------------------------------------------------------- what visiting computes

  /** Every tracked loan that the block issues has been gathered. */
  ghost predicate IssuesResolve(borrows: Borrows, b: BasicBlock) {
    forall k :: 0 <= k && IssuesLoan(borrows.tcx, borrows.borrowSet.localsStateAtExit, borrows.body, Location(b, k)) ==>
      IndexOf(borrows.borrowSet.loans, Location(b, k)).Some?
  }

  type Check = CheckState -> CheckState

  /** The first `k` of a sequence of checks, one after the other. */
  ghost function RunChecks(checks: seq<Check>, st: CheckState, k: nat): CheckState
    requires k <= |checks|
  {
    if k == 0 then st else checks[k - 1](RunChecks(checks, st, k - 1))
  }

  /** The checks at the points of block `b`, in order. */
  ghost function PointChecks(cx: CheckCx, borrows: Borrows, entries: Entries, b: BasicBlock): seq<Check>
    requires borrows.body == cx.body && |entries| == |cx.body.blocks| && b < |entries|
  {
    seq(|cx.body.blocks[b].statements| + 1, k requires 0 <= k <= |cx.body.blocks[b].statements| =>
      PointCheck(cx, borrows, entries, Location(b, k)))
  }

  ghost function PointCheck(cx: CheckCx, borrows: Borrows, entries: Entries, p: Location): Check
    requires borrows.body == cx.body && IsPointOf(borrows, entries, p)
  {
    var inScope := InScopeAt(borrows, entries, p);
    (st: CheckState) => AccessAll(cx, st, AccessesAt(cx, p), p, inScope)
  }

  lemma NextPoint(cx: CheckCx, borrows: Borrows, entries: Entries, st: CheckState, b: BasicBlock, k: nat)
    requires borrows.body == cx.body && |entries| == |cx.body.blocks|
    requires b < |entries| && k <= |cx.body.blocks[b].statements|
    ensures var p, inScope := Location(b, k), EarlyEffect(borrows, Before(borrows, entries[b], b, k), Location(b, k));
            RunChecks(PointChecks(cx, borrows, entries, b), st, k + 1)
            == AccessAll(cx, RunChecks(PointChecks(cx, borrows, entries, b), st, k), AccessesAt(cx, p), p, inScope)
  {
  }

  ghost function CheckBlock(cx: CheckCx, borrows: Borrows, entries: Entries, st: CheckState, b: BasicBlock): CheckState
    requires borrows.body == cx.body && |entries| == |cx.body.blocks| && b < |entries|
  {
    var last := |cx.body.blocks[b].statements|;
    var st' := RunChecks(PointChecks(cx, borrows, entries, b), st, last + 1);
    if LeavesFunction(cx.body.blocks[b].terminator.kind) then
      CheckExits(cx, st', AfterPoint(borrows, entries, Location(b, last)), |cx.borrowSet.loans|)
    else st'
  }

  /** The checks of blocks, in order. */
  ghost function BlockChecks(cx: CheckCx, borrows: Borrows, entries: Entries, blocks: seq<BasicBlock>): seq<Check>
    requires borrows.body == cx.body && |entries| == |cx.body.blocks| && BlocksInRange(cx.body, blocks)
  {
    seq(|blocks|, k requires 0 <= k < |blocks| => BlockCheck(cx, borrows, entries, blocks[k]))
  }

  ghost function BlockCheck(cx: CheckCx, borrows: Borrows, entries: Entries, b: BasicBlock): Check
    requires borrows.body == cx.body && |entries| == |cx.body.blocks| && b < |entries|
  {
    (st: CheckState) => CheckBlock(cx, borrows, entries, st, b)
  }

  ghost function CheckBlocks(cx: CheckCx, borrows: Borrows, entries: Entries, st: CheckState,
                             blocks: seq<BasicBlock>): CheckState
    requires borrows.body == cx.body && |entries| == |cx.body.blocks| && BlocksInRange(cx.body, blocks)
  {
    RunChecks(BlockChecks(cx, borrows, entries, blocks), st, |blocks|)
  }

  // ---------------------------------------------------------------- what silence means

  /** A run of checks reports something, or ends in the clean state, depending on whether all was clean. */
  ghost predicate SilentIff(st: CheckState, clean: bool) {
    (Quiet(st) <==> clean) && (Quiet(st) ==> st == CleanState)
  }

  /** A check that never takes a report back, and from the clean state reports nothing if and only if `clean`. */
  ghost predicate Exact(check: Check, clean: bool) {
    (forall st :: Quiet(check(st)) ==> Quiet(st)) && SilentIff(check(CleanState), clean)
  }

  ghost predicate AllExact(checks: seq<Check>, cleans: seq<bool>) {
    |checks| == |cleans| && forall j :: 0 <= j < |checks| ==> Exact(checks[j], cleans[j])
  }

  lemma {:induction false} RunSticky(checks: seq<Check>, cleans: seq<bool>, st: CheckState, k: nat)
    requires AllExact(checks, cleans) && k <= |checks|
    ensures Quiet(RunChecks(checks, st, k)) ==> Quiet(st)
  {
    if k > 0 {
      RunSticky(checks, cleans, st, k - 1);
      assert Exact(checks[k - 1], cleans[k - 1]);
    }
  }

  lemma {:induction false} RunExactly(checks: seq<Check>, cleans: seq<bool>, k: nat)
    requires AllExact(checks, cleans) && k <= |checks|
    ensures SilentIff(RunChecks(checks, CleanState, k), forall j :: 0 <= j < k ==> cleans[j])
  {
    if k > 0 {
      RunExactly(checks, cleans, k - 1);
      assert Exact(checks[k - 1], cleans[k - 1]);
    }
  }

  ghost predicate PointClean(cx: CheckCx, borrows: Borrows, entries: Entries, p: Location)
    requires borrows.body == cx.body && IsPointOf(borrows, entries, p)
  {
    forall k :: 0 <= k < |AccessesAt(cx, p)| ==> Clean(cx, AccessesAt(cx, p)[k], p, InScopeAt(borrows, entries, p))
  }

  ghost predicate PointsClean(cx: CheckCx, borrows: Borrows, entries: Entries, b: BasicBlock)
    requires borrows.body == cx.body && |entries| == |cx.body.blocks| && b < |entries|
  {
    forall k :: 0 <= k <= |cx.body.blocks[b].statements| ==> PointClean(cx, borrows, entries, Location(b, k))
  }

  ghost predicate BlockClean(cx: CheckCx, borrows: Borrows, entries: Entries, b: BasicBlock)
    requires borrows.body == cx.body && |entries| == |cx.body.blocks| && b < |entries|
  {
    && PointsClean(cx, borrows, entries, b)
    && (LeavesFunction(cx.body.blocks[b].terminator.kind) ==>
          ExitClean(cx, AfterPoint(borrows, entries, Location(b, |cx.body.blocks[b].statements|)),
                    |cx.borrowSet.loans|))
  }

  lemma PointExactly(cx: CheckCx, borrows: Borrows, entries: Entries, p: Location)
    requires LocalMapAgrees(cx.borrowSet.loans, cx.borrowSet.localMap)
    requires borrows.body == cx.body && IsPointOf(borrows, entries, p)
    ensures Exact(PointCheck(cx, borrows, entries, p), PointClean(cx, borrows, entries, p))
  {
    forall st
      ensures Quiet(PointCheck(cx, borrows, entries, p)(st)) ==> Quiet(st)
    {
      AccessAllSticky(cx, st, AccessesAt(cx, p), p, InScopeAt(borrows, entries, p));
    }
    AccessAllExactly(cx, AccessesAt(cx, p), p, InScopeAt(borrows, entries, p));
  }

  /** What the points of a block are worth. */
  lemma PointsExactly(cx: CheckCx, borrows: Borrows, entries: Entries, b: BasicBlock) returns (cleans: seq<bool>)
    requires LocalMapAgrees(cx.borrowSet.loans, cx.borrowSet.localMap)
    requires borrows.body == cx.body && |entries| == |cx.body.blocks| && b < |entries|
    ensures AllExact(PointChecks(cx, borrows, entries, b), cleans)
    ensures (forall k :: 0 <= k < |cleans| ==> cleans[k]) <==> PointsClean(cx, borrows, entries, b)
  {
    var n := |cx.body.blocks[b].statements| + 1;
    cleans := seq(n, k requires 0 <= k < n => PointClean(cx, borrows, entries, Location(b, k)));
    forall k | 0 <= k < n
      ensures Exact(PointChecks(cx, borrows, entries, b)[k], cleans[k])
    {
      PointExactly(cx, borrows, entries, Location(b, k));
    }
    assert PointsClean(cx, borrows, entries, b) ==> forall k :: 0 <= k < n ==> cleans[k];
    if forall k :: 0 <= k < n ==> cleans[k] {
      forall k | 0 <= k < n
        ensures PointClean(cx, borrows, entries, Location(b, k))
      {
        assert cleans[k];
      }
    }
  }

  lemma CheckBlockExactly(cx: CheckCx, borrows: Borrows, entries: Entries, b: BasicBlock)
    requires LocalMapAgrees(cx.borrowSet.loans, cx.borrowSet.localMap)
    requires borrows.body == cx.body && |entries| == |cx.body.blocks| && b < |entries|
    ensures SilentIff(CheckBlock(cx, borrows, entries, CleanState, b), BlockClean(cx, borrows, entries, b))
  {
    var last, checks := |cx.body.blocks[b].statements|, PointChecks(cx, borrows, entries, b);
    var cleans := PointsExactly(cx, borrows, entries, b);
    RunExactly(checks, cleans, last + 1);
    if LeavesFunction(cx.body.blocks[b].terminator.kind) {
      CheckExitsExactly(cx, RunChecks(checks, CleanState, last + 1), AfterPoint(borrows, entries, Location(b, last)),
                        |cx.borrowSet.loans|);
    }
  }

  lemma CheckBlockSticky(cx: CheckCx, borrows: Borrows, entries: Entries, st: CheckState, b: BasicBlock)
    requires LocalMapAgrees(cx.borrowSet.loans, cx.borrowSet.localMap)
    requires borrows.body == cx.body && |entries| == |cx.body.blocks| && b < |entries|
    ensures Quiet(CheckBlock(cx, borrows, entries, st, b)) ==> Quiet(st)
  {
    var last, checks := |cx.body.blocks[b].statements|, PointChecks(cx, borrows, entries, b);
    var cleans := PointsExactly(cx, borrows, entries, b);
    RunSticky(checks, cleans, st, last + 1);
    ExitsSticky(cx, RunChecks(checks, st, last + 1), AfterPoint(borrows, entries, Location(b, last)),
                |cx.borrowSet.loans|);
  }

  lemma {:induction false} ExitsSticky(cx: CheckCx, st: CheckState, inScope: set<BorrowIndex>, n: nat)
    ensures Quiet(CheckExits(cx, st, inScope, n)) ==> Quiet(st)
  {
    if n > 0 {
      ExitsSticky(cx, st, inScope, n - 1);
    }
  }

  lemma BlockExactly(cx: CheckCx, borrows: Borrows, entries: Entries, b: BasicBlock)
    requires LocalMapAgrees(cx.borrowSet.loans, cx.borrowSet.localMap)
    requires borrows.body == cx.body && |entries| == |cx.body.blocks| && b < |entries|
    ensures Exact(BlockCheck(cx, borrows, entries, b), BlockClean(cx, borrows, entries, b))
  {
    forall st
      ensures Quiet(BlockCheck(cx, borrows, entries, b)(st)) ==> Quiet(st)
    {
      CheckBlockSticky(cx, borrows, entries, st, b);
    }
    CheckBlockExactly(cx, borrows, entries, b);
  }

  ghost predicate BlocksClean(cx: CheckCx, borrows: Borrows, entries: Entries, blocks: seq<BasicBlock>)
    requires borrows.body == cx.body && |entries| == |cx.body.blocks| && BlocksInRange(cx.body, blocks)
  {
    forall k :: 0 <= k < |blocks| ==> BlockClean(cx, borrows, entries, blocks[k])
  }

  /** What blocks are worth. */
  lemma BlocksExactly(cx: CheckCx, borrows: Borrows, entries: Entries, blocks: seq<BasicBlock>)
    returns (cleans: seq<bool>)
    requires LocalMapAgrees(cx.borrowSet.loans, cx.borrowSet.localMap)
    requires borrows.body == cx.body && |entries| == |cx.body.blocks| && BlocksInRange(cx.body, blocks)
    ensures AllExact(BlockChecks(cx, borrows, entries, blocks), cleans)
    ensures (forall k :: 0 <= k < |cleans| ==> cleans[k]) <==> BlocksClean(cx, borrows, entries, blocks)
  {
    cleans := seq(|blocks|, k requires 0 <= k < |blocks| => BlockClean(cx, borrows, entries, blocks[k]));
    forall k | 0 <= k < |blocks|
      ensures Exact(BlockChecks(cx, borrows, entries, blocks)[k], cleans[k])
    {
      BlockExactly(cx, borrows, entries, blocks[k]);
    }
    assert forall k :: 0 <= k < |blocks| ==> cleans[k] == BlockClean(cx, borrows, entries, blocks[k]);
  }

  /** Visiting blocks reports nothing if and only if every access at every one of their points is clean, and so
      is every exit. */
  lemma SilenceExactly(cx: CheckCx, borrows: Borrows, entries: Entries, blocks: seq<BasicBlock>)
    requires LocalMapAgrees(cx.borrowSet.loans, cx.borrowSet.localMap)
    requires borrows.body == cx.body && |entries| == |cx.body.blocks| && BlocksInRange(cx.body, blocks)
    ensures Quiet(CheckBlocks(cx, borrows, entries, CleanState, blocks)) <==> BlocksClean(cx, borrows, entries, blocks)
    ensures Quiet(CheckBlocks(cx, borrows, entries, CleanState, blocks)) ==>
              CheckBlocks(cx, borrows, entries, CleanState, blocks) == CleanState
  {
    var cleans := BlocksExactly(cx, borrows, entries, blocks);
    RunExactly(BlockChecks(cx, borrows, entries, blocks), cleans, |blocks|);
  }
}
