/** Which operands a statement or terminator evaluates and which places it stores to, as relations: what the walks of
    the checker over the same statements have to find. */
module Occurrences {
  import opened Mir

  /** The local is the root of the place or indexes into it. */
  ghost predicate OccursIn(l: Local, place: Place) {
    l == place.local || IndexesInto(l, place)
  }

  ghost predicate IndexesInto(l: Local, place: Place) {
    exists j :: 0 <= j < |place.projection| && place.projection[j] == Index(l)
  }

  /** The operand is a copy or a move of a place in which the local occurs. */
  ghost predicate OccursInOperand(l: Local, o: Operand) {
    !o.Constant? && OccursIn(l, o.place)
  }

  // ---------------------------------------------------------------- operands

  predicate EvaluatedByRvalue(rvalue: Rvalue, o: Operand) {
    match rvalue
    case Use(x) => o == x
    case BinaryOp(left, right) => o == left || o == right
    case Aggregate(operands) => o in operands
    case _ => false
  }

  ghost predicate AmongArgs(args: seq<(Operand, Span)>, o: Operand) {
    exists k :: 0 <= k < |args| && args[k].0 == o
  }

  lemma AmongFirstOrRest(args: seq<(Operand, Span)>, o: Operand)
    requires args != []
    ensures AmongArgs(args, o) <==> o == args[0].0 || AmongArgs(args[1..], o)
  {
    if k :| 0 <= k < |args| && args[k].0 == o {
      assert k > 0 ==> args[1..][k - 1].0 == o;
    }
    if k :| 0 <= k < |args[1..]| && args[1..][k].0 == o {
      assert args[k + 1].0 == o;
    }
  }

  predicate AsmReads(operand: InlineAsmOperand, o: Operand) {
    operand == AsmIn(o) || (operand.AsmInOut? && operand.inValue == o)
  }

  predicate AsmWrites(operand: InlineAsmOperand, place: Place) {
    operand == AsmOut(Some(place)) || (operand.AsmInOut? && operand.outPlace == Some(place))
  }

  /** The operands that the terminator evaluates before it hands on control. */
  ghost predicate EvaluatedByTerminator(kind: TerminatorKind, o: Operand) {
    match kind
    case SwitchInt(discr, _) => o == discr
    case Call(func, args, _, _, _) => o == func || AmongArgs(args, o)
    case TailCall(func, args) => o == func || AmongArgs(args, o)
    case Assert(cond, message, _, _) => o == cond || (message.BoundsCheck? && (o == message.len || o == message.index))
    case Yield(value, _, _, _) => o == value
    case InlineAsm(operands, _, _) => exists k :: 0 <= k < |operands| && AsmReads(operands[k], o)
    case _ => false
  }

  /** The operands that only the message of a failing assertion shows. */
  predicate ShownOnFailure(kind: TerminatorKind, o: Operand) {
    kind.Assert? && kind.message.OtherMessage? && o in kind.message.operands
  }

  ghost predicate WrittenByAsm(kind: TerminatorKind, place: Place) {
    kind.InlineAsm? && exists k :: 0 <= k < |kind.asmOperands| && AsmWrites(kind.asmOperands[k], place)
  }

  // ---------------------------------------------------------------- locals

  ghost predicate OccursInRvalue(l: Local, rvalue: Rvalue) {
    match rvalue
    case Ref(_, _, place) => OccursIn(l, place)
    case RawPtr(_, place) => OccursIn(l, place)
    case CopyForDeref(place) => OccursIn(l, place)
    case Len(place) => OccursIn(l, place)
    case Discriminant(place) => OccursIn(l, place)
    case _ => exists o :: EvaluatedByRvalue(rvalue, o) && OccursInOperand(l, o)
  }

  /** The statement reads, writes, borrows or looks at a place in which the local occurs. What only marks storage or
      ascribes a type does not. */
  ghost predicate StatementTouches(kind: StatementKind, l: Local) {
    match kind
    case Assign(lhs, rhs) => OccursIn(l, lhs) || OccursInRvalue(l, rhs)
    case FakeRead(place) => OccursIn(l, place)
    case PlaceMention(place) => OccursIn(l, place)
    case Assume(o) => OccursInOperand(l, o)
    case AscribeUserType(place) => IndexesInto(l, place)
    case StorageDead(_) => false
    case StorageLive(_) => false
    case Inert => false
  }

  /** The terminator does; returning moves out of the return place. */
  ghost predicate TerminatorTouches(kind: TerminatorKind, l: Local) {
    || (exists o :: (EvaluatedByTerminator(kind, o) || ShownOnFailure(kind, o)) && OccursInOperand(l, o))
    || (exists place :: WrittenByAsm(kind, place) && OccursIn(l, place))
    || (match kind
        case Return => l == 0
        case Drop(place, _, _, _) => OccursIn(l, place)
        case Call(_, _, destination, _, _) => OccursIn(l, destination)
        case Yield(_, _, resumeArg, _) => OccursIn(l, resumeArg)
        case _ => false)
  }

  // ---------------------------------------------------------------- places

  /** The rvalue copies, moves, borrows or inspects the place. */
  ghost predicate ActedOnByRvalue(rvalue: Rvalue, place: Place) {
    match rvalue
    case Ref(_, _, p) => place == p
    case RawPtr(_, p) => place == p
    case CopyForDeref(p) => place == p
    case Len(p) => place == p
    case Discriminant(p) => place == p
    case _ => exists o :: EvaluatedByRvalue(rvalue, o) && !o.Constant? && o.place == place
  }

  ghost predicate ActedOnByStatement(kind: StatementKind, place: Place) {
    match kind
    case Assign(lhs, rhs) => place == lhs || ActedOnByRvalue(rhs, place)
    case Assume(o) => !o.Constant? && o.place == place
    case StorageDead(l) => place == LocalPlace(l)
    case _ => false
  }

  ghost predicate ActedOnByTerminator(kind: TerminatorKind, place: Place) {
    || (exists o :: EvaluatedByTerminator(kind, o) && !o.Constant? && o.place == place)
    || WrittenByAsm(kind, place)
    || (kind.Drop? && kind.place == place)
    || (kind.Call? && kind.destination == place)
    || (kind.Yield? && kind.resumeArg == place)
  }

  /** The places that the point acts on; the use of the temporary of a two-phase loan acts on what is borrowed. */
  ghost predicate ActedOn(body: Body, loans: seq<BorrowData>, p: Location, place: Place) {
    && IsPoint(body, p)
    && (|| (exists i :: 0 <= i < |loans| && loans[i].activation == ActivatedAt(p) && loans[i].borrowedPlace == place)
        || if IsTerminatorPoint(body, p) then ActedOnByTerminator(body.blocks[p.block].terminator.kind, place)
           else ActedOnByStatement(body.blocks[p.block].statements[p.index].kind, place))
  }
}
