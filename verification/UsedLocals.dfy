/** The mentions of locals that the visitor of loans goes through, against the places of the body: what counts as a use
    of the temporary of a two-phase borrow. */
module UsedLocals {
  import opened Mir
  import opened PlacesConflict
  import opened Occurrences
  import opened BorrowSets
  import opened VisitEvents
  import opened Activations
  import opened GatherBorrows

  ghost predicate UsesLocal(uses: seq<LocalUse>, l: Local) {
    exists j :: 0 <= j < |uses| && uses[j].local == l && IsUse(uses[j].context)
  }

  lemma UsesLocalAppend(u: seq<LocalUse>, v: seq<LocalUse>, l: Local)
    ensures UsesLocal(u + v, l) <==> UsesLocal(u, l) || UsesLocal(v, l)
  {
    assert forall j :: 0 <= j < |u| ==> (u + v)[j] == u[j];
    assert forall j :: 0 <= j < |v| ==> (u + v)[|u| + j] == v[j];
  }

  lemma OneUses(u: LocalUse, l: Local)
    ensures UsesLocal([u], l) <==> u.local == l && IsUse(u.context)
  {
    assert [u][0] == u;
  }

  lemma {:induction false} ProjectionUsesAre(projection: seq<ProjectionElem>, l: Local)
    ensures UsesLocal(ProjectionUses(projection), l) <==> exists j :: 0 <= j < |projection| && projection[j] == Index(l)
    decreases |projection|
  {
    if projection != [] {
      var n := |projection| - 1;
      ProjectionUsesAre(projection[..n], l);
      var last := if projection[n].Index? then [LocalUse(projection[n].indexLocal, OtherUse)] else [];
      UsesLocalAppend(last, ProjectionUses(projection[..n]), l);
      if projection[n].Index? {
        OneUses(last[0], l);
      }
      if j :| 0 <= j < |projection| && projection[j] == Index(l) {
        assert j < n ==> projection[..n][j] == Index(l);
      }
    }
  }

  /** A place is a use of its root, unless only a type is ascribed to it, and of the locals that index into it. */
  lemma PlaceUsesAre(place: Place, context: PlaceContext, l: Local)
    ensures UsesLocal(PlaceUses(place, context), l) <==> (IsUse(context) && l == place.local) || IndexesInto(l, place)
  {
    var root := LocalUse(place.local, if place.projection != [] && IsUse(context) then OtherUse else context);
    ProjectionUsesAre(place.projection, l);
    OneUses(root, l);
    UsesLocalAppend([root], ProjectionUses(place.projection), l);
  }

  lemma OperandUsesAre(o: Operand, l: Local)
    ensures UsesLocal(OperandUses(o), l) <==> OccursInOperand(l, o)
  {
    if !o.Constant? {
      PlaceUsesAre(o.place, OtherUse, l);
    }
  }

  lemma {:induction false} OperandsUsesAre(operands: seq<Operand>, l: Local)
    ensures UsesLocal(OperandsUses(operands), l) <==> exists o :: o in operands && OccursInOperand(l, o)
  {
    if operands != [] {
      OperandUsesAre(operands[0], l);
      OperandsUsesAre(operands[1..], l);
      UsesLocalAppend(OperandUses(operands[0]), OperandsUses(operands[1..]), l);
      assert forall o :: o in operands <==> o == operands[0] || o in operands[1..];
    }
  }

  lemma {:induction false} ArgsUsesAre(args: seq<(Operand, Span)>, l: Local)
    ensures UsesLocal(ArgsUses(args), l) <==> exists o :: AmongArgs(args, o) && OccursInOperand(l, o)
  {
    if args != [] {
      OperandUsesAre(args[0].0, l);
      ArgsUsesAre(args[1..], l);
      UsesLocalAppend(OperandUses(args[0].0), ArgsUses(args[1..]), l);
      forall o
        ensures AmongArgs(args, o) <==> o == args[0].0 || AmongArgs(args[1..], o)
      {
        AmongFirstOrRest(args, o);
      }
    }
  }

  lemma RvalueUsesAre(rvalue: Rvalue, l: Local)
    ensures UsesLocal(RvalueUses(rvalue), l) <==> OccursInRvalue(l, rvalue)
  {
    match rvalue
    case Ref(_, _, place) => PlaceUsesAre(place, OtherUse, l);
    case RawPtr(_, place) => PlaceUsesAre(place, OtherUse, l);
    case CopyForDeref(place) => PlaceUsesAre(place, OtherUse, l);
    case Len(place) => PlaceUsesAre(place, OtherUse, l);
    case Discriminant(place) => PlaceUsesAre(place, OtherUse, l);
    case Use(o) =>
      OperandUsesAre(o, l);
      assert EvaluatedByRvalue(rvalue, o);
    case BinaryOp(left, right) =>
      OperandUsesAre(left, l);
      OperandUsesAre(right, l);
      UsesLocalAppend(OperandUses(left), OperandUses(right), l);
      assert EvaluatedByRvalue(rvalue, left) && EvaluatedByRvalue(rvalue, right);
    case Aggregate(operands) =>
      OperandsUsesAre(operands, l);
      assert forall o :: EvaluatedByRvalue(rvalue, o) <==> o in operands;
    case _ =>
  }

  /** The visitor sees a use of a local in a statement exactly if the statement touches a place with it: marking its
      storage or ascribing a type to it is no use. */
  lemma StatementUsesAre(kind: StatementKind, l: Local)
    ensures UsesLocal(StatementUses(kind), l) <==> StatementTouches(kind, l)
  {
    match kind
    case Assign(lhs, rhs) =>
      PlaceUsesAre(lhs, Store, l);
      RvalueUsesAre(rhs, l);
      UsesLocalAppend(PlaceUses(lhs, Store), RvalueUses(rhs), l);
    case FakeRead(place) => PlaceUsesAre(place, OtherUse, l);
    case PlaceMention(place) => PlaceUsesAre(place, OtherUse, l);
    case AscribeUserType(place) => PlaceUsesAre(place, Ascription, l);
    case Assume(o) => OperandUsesAre(o, l);
    case StorageDead(x) => OneUses(LocalUse(x, StorageMarker), l);
    case StorageLive(x) => OneUses(LocalUse(x, StorageMarker), l);
    case Inert =>
  }

  // ---------------------------------------------------------------- terminators

  ghost predicate OutputTouches(place: Option<Place>, l: Local) {
    place.Some? && OccursIn(l, place.value)
  }

  ghost predicate AsmOperandTouches(operand: InlineAsmOperand, l: Local) {
    || (exists o :: AsmReads(operand, o) && OccursInOperand(l, o))
    || (exists place :: AsmWrites(operand, place) && OccursIn(l, place))
  }

  function AsmOperandUses(operand: InlineAsmOperand): seq<LocalUse> {
    match operand
    case AsmIn(o) => OperandUses(o)
    case AsmOut(p) => OptionalPlaceUses(p, AsmOutput)
    case AsmInOut(o, p) => OperandUses(o) + OptionalPlaceUses(p, AsmOutput)
    case AsmOther => []
  }

  lemma OutputUsesAre(place: Option<Place>, l: Local)
    ensures UsesLocal(OptionalPlaceUses(place, AsmOutput), l) <==> OutputTouches(place, l)
  {
    if place.Some? {
      PlaceUsesAre(place.value, AsmOutput, l);
    }
  }

  lemma AsmOperandUsesAre(operand: InlineAsmOperand, l: Local)
    ensures UsesLocal(AsmOperandUses(operand), l) <==> AsmOperandTouches(operand, l)
  {
    match operand
    case AsmIn(o) =>
      OperandUsesAre(o, l);
      assert AsmReads(operand, o);
    case AsmOut(place) =>
      OutputUsesAre(place, l);
      assert place.Some? ==> AsmWrites(operand, place.value);
    case AsmInOut(o, place) =>
      OperandUsesAre(o, l);
      OutputUsesAre(place, l);
      UsesLocalAppend(OperandUses(o), OptionalPlaceUses(place, AsmOutput), l);
      assert AsmReads(operand, o) && (place.Some? ==> AsmWrites(operand, place.value));
    case AsmOther =>
  }

  lemma {:induction false} AsmUsesAre(operands: seq<InlineAsmOperand>, l: Local)
    ensures UsesLocal(AsmUses(operands), l) <==> exists k :: 0 <= k < |operands| && AsmOperandTouches(operands[k], l)
  {
    if operands != [] {
      var rest := operands[1..];
      AsmOperandUsesAre(operands[0], l);
      AsmUsesAre(rest, l);
      assert AsmUses(operands) == AsmOperandUses(operands[0]) + AsmUses(rest);
      UsesLocalAppend(AsmOperandUses(operands[0]), AsmUses(rest), l);
      if k :| 0 <= k < |operands| && AsmOperandTouches(operands[k], l) {
        assert k > 0 ==> AsmOperandTouches(rest[k - 1], l);
      }
      if k :| 0 <= k < |rest| && AsmOperandTouches(rest[k], l) {
        assert AsmOperandTouches(operands[k + 1], l);
      }
    }
  }

  lemma AsmTouches(kind: TerminatorKind, l: Local)
    requires kind.InlineAsm?
    ensures (exists k :: 0 <= k < |kind.asmOperands| && AsmOperandTouches(kind.asmOperands[k], l)) <==>
              TerminatorTouches(kind, l)
  {
    var operands := kind.asmOperands;
    if k :| 0 <= k < |operands| && AsmOperandTouches(operands[k], l) {
      if o :| AsmReads(operands[k], o) && OccursInOperand(l, o) {
        assert EvaluatedByTerminator(kind, o);
      } else {
        var place :| AsmWrites(operands[k], place) && OccursIn(l, place);
        assert WrittenByAsm(kind, place);
      }
    }
    if o :| (EvaluatedByTerminator(kind, o) || ShownOnFailure(kind, o)) && OccursInOperand(l, o) {
      var k :| 0 <= k < |operands| && AsmReads(operands[k], o);
      assert AsmOperandTouches(operands[k], l);
    }
    if place :| WrittenByAsm(kind, place) && OccursIn(l, place) {
      var k :| 0 <= k < |operands| && AsmWrites(operands[k], place);
      assert AsmOperandTouches(operands[k], l);
    }
  }

  ghost predicate EvaluatesWith(kind: TerminatorKind, l: Local) {
    exists o :: (EvaluatedByTerminator(kind, o) || ShownOnFailure(kind, o)) && OccursInOperand(l, o)
  }

  lemma CallUsesAre(kind: TerminatorKind, l: Local)
    requires kind.Call? || kind.TailCall?
    ensures UsesLocal(OperandUses(kind.func) + ArgsUses(kind.args), l) <==> EvaluatesWith(kind, l)
  {
    OperandUsesAre(kind.func, l);
    ArgsUsesAre(kind.args, l);
    UsesLocalAppend(OperandUses(kind.func), ArgsUses(kind.args), l);
    assert forall o :: EvaluatedByTerminator(kind, o) <==> o == kind.func || AmongArgs(kind.args, o);
  }

  lemma AssertUsesAre(kind: TerminatorKind, l: Local)
    requires kind.Assert?
    ensures UsesLocal(TerminatorUses(kind), l) <==> TerminatorTouches(kind, l)
  {
    var shown := MessageOperands(kind.message);
    OperandUsesAre(kind.cond, l);
    OperandsUsesAre(shown, l);
    UsesLocalAppend(OperandUses(kind.cond), OperandsUses(shown), l);
    assert forall o :: EvaluatedByTerminator(kind, o) || ShownOnFailure(kind, o) <==> o == kind.cond || o in shown;
  }

  /** The same for terminators, the operands that only a failing assertion shows included. */
  lemma TerminatorUsesAre(kind: TerminatorKind, l: Local)
    ensures UsesLocal(TerminatorUses(kind), l) <==> TerminatorTouches(kind, l)
  {
    match kind
    case SwitchInt(o, _) =>
      OperandUsesAre(o, l);
      assert EvaluatedByTerminator(kind, o);
    case Return => OneUses(LocalUse(0, OtherUse), l);
    case Drop(place, _, _, _) => PlaceUsesAre(place, DropUse, l);
    case Call(func, args, destination, _, _) =>
      CallUsesAre(kind, l);
      PlaceUsesAre(destination, CallOutput, l);
      UsesLocalAppend(OperandUses(func) + ArgsUses(args), PlaceUses(destination, CallOutput), l);
    case TailCall(_, _) => CallUsesAre(kind, l);
    case Assert(_, _, _, _) => AssertUsesAre(kind, l);
    case Yield(o, _, place, _) =>
      OperandUsesAre(o, l);
      PlaceUsesAre(place, YieldOutput, l);
      UsesLocalAppend(OperandUses(o), PlaceUses(place, YieldOutput), l);
      assert EvaluatedByTerminator(kind, o);
    case InlineAsm(operands, _, _) =>
      AsmUsesAre(operands, l);
      AsmTouches(kind, l);
    case _ =>
  }

  // ---------------------------------------------------------------- the temporary of a two-phase borrow

  /** The point touches the local, in a place that is read, written, borrowed or looked at. */
  ghost predicate PointTouches(body: Body, p: Location, l: Local) {
    && IsPoint(body, p)
    && if IsTerminatorPoint(body, p) then TerminatorTouches(body.blocks[p.block].terminator.kind, l)
       else StatementTouches(body.blocks[p.block].statements[p.index].kind, l)
  }

  /** The statement takes a borrow that cannot be invalidated, which the visitor passes over. */
  ghost predicate PassedOver(tcx: TyCtxt, exit: LocalsStateAtExit, body: Body, p: Location) {
    && IsPoint(body, p) && !IsTerminatorPoint(body, p)
    && var kind := body.blocks[p.block].statements[p.index].kind;
       kind.Assign? && kind.rhs.Ref? && CannotBeInvalidated(tcx, exit, kind.rhs.place)
  }

  /** A point other than the reservation uses the temporary of a two-phase loan exactly if it touches the temporary and
      is not passed over. So ending the storage of the temporary is no use. */
  lemma UsesTemporaryExactly(v: Visit, loan: BorrowData, p: Location)
    requires AllowTwoPhaseBorrow(loan.kind) && p != loan.reserveLocation
    ensures UsesTemporary(BodyViewOf(v), loan, p) <==>
              PointTouches(v.body, p, loan.assignedPlace.local) && !PassedOver(v.tcx, v.exit, v.body, p)
  {
    var t := loan.assignedPlace.local;
    if IsPoint(v.body, p) {
      assert UsesTemporary(BodyViewOf(v), loan, p) <==> UsesLocal(CountedUses(v, p), t);
      if IsTerminatorPoint(v.body, p) {
        TerminatorUsesAre(v.body.blocks[p.block].terminator.kind, t);
      } else {
        var kind := v.body.blocks[p.block].statements[p.index].kind;
        StatementUsesAre(kind, t);
        if kind.Assign? && kind.rhs.Ref? {
          IgnoredExactly(v.tcx, v.exit, kind.rhs.place);
        }
      }
    }
  }

  /** The reservation itself uses the temporary exactly if what it borrows is reached through it. */
  lemma ReservationUsesExactly(v: Visit, loan: BorrowData)
    requires AllowTwoPhaseBorrow(loan.kind) && RecordsBorrow(v.body, loan) && loan.assignedPlace.projection == []
    requires !CannotBeInvalidated(v.tcx, v.exit, loan.borrowedPlace)
    ensures UsesTemporary(BodyViewOf(v), loan, loan.reserveLocation) <==>
              OccursIn(loan.assignedPlace.local, loan.borrowedPlace)
  {
    var t, r := loan.assignedPlace.local, loan.reserveLocation;
    var uses := CountedUses(v, r);
    IgnoredExactly(v.tcx, v.exit, loan.borrowedPlace);
    PlaceUsesAre(loan.borrowedPlace, OtherUse, t);
    assert uses == [LocalUse(t, Store)] + PlaceUses(loan.borrowedPlace, OtherUse);
    NoStoreInPlace(loan.borrowedPlace);
    assert BodyViewOf(v).uses(r) == uses;
    if j :| 0 <= j < |PlaceUses(loan.borrowedPlace, OtherUse)| && PlaceUses(loan.borrowedPlace, OtherUse)[j].local == t
            && IsUse(PlaceUses(loan.borrowedPlace, OtherUse)[j].context) {
      assert uses[j + 1] == PlaceUses(loan.borrowedPlace, OtherUse)[j];
      assert CountsFor(loan, uses[j + 1], r);
    }
    if UsesTemporary(BodyViewOf(v), loan, r) {
      var j :| 0 <= j < |uses| && CountsFor(loan, uses[j], r);
      assert uses[0] == LocalUse(t, Store);
      var i := j - 1;
      assert PlaceUses(loan.borrowedPlace, OtherUse)[i] == uses[j];
      assert UsesLocal(PlaceUses(loan.borrowedPlace, OtherUse), t);
    }
  }

  lemma {:induction false} NoStoreInProjection(projection: seq<ProjectionElem>)
    ensures forall j :: 0 <= j < |ProjectionUses(projection)| ==> ProjectionUses(projection)[j].context == OtherUse
    decreases |projection|
  {
    if projection != [] {
      NoStoreInProjection(projection[..|projection| - 1]);
    }
  }

  lemma NoStoreInPlace(place: Place)
    ensures forall j :: 0 <= j < |PlaceUses(place, OtherUse)| ==> PlaceUses(place, OtherUse)[j].context == OtherUse
  {
    NoStoreInProjection(place.projection);
  }
}
