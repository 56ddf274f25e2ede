/** The list of accesses that the checks go through, against what the point does to storage: both tell of the same deeds
    on the same nodes. */
module AccessEffects {
  import opened Mir
  import opened PlacesConflict
  import opened Footprint
  import opened Occurrences
  import opened BorrowSets
  import opened Accesses
  import opened Effects

  /** What an access stands for. */
  function DeedOf(rw: ReadOrWrite): Deed {
    match rw
    case Read(ReadBorrow(Fake(ShallowFake))) => Looks
    case Read(_) => Reads
    case Write(MoveOut) => MovesOut
    case Write(_) => Changes
    case Reservation(_) => Reserves
    case Activation(_, i) => Activates(i)
  }

  ghost predicate AccessDoes(tcx: TyCtxt, v: Valuation, access: Access, deed: Deed, node: Node) {
    && deed == DeedOf(access.rw) && Fits(v.len, v.indices, access.place)
    && InAccess(tcx, v.len, v.indices, access.place, access.depth, node)
  }

  ghost predicate AccessesDo(tcx: TyCtxt, v: Valuation, accesses: seq<Access>, deed: Deed, node: Node) {
    exists access :: access in accesses && AccessDoes(tcx, v, access, deed, node)
  }

  lemma AccessesDoAppend(tcx: TyCtxt, v: Valuation, a: seq<Access>, b: seq<Access>, deed: Deed, node: Node)
    ensures AccessesDo(tcx, v, a + b, deed, node) <==>
              AccessesDo(tcx, v, a, deed, node) || AccessesDo(tcx, v, b, deed, node)
  {
    assert forall access :: access in a + b <==> access in a || access in b;
  }

  lemma OneDoes(tcx: TyCtxt, v: Valuation, access: Access, deed: Deed, node: Node)
    ensures AccessesDo(tcx, v, [access], deed, node) <==> AccessDoes(tcx, v, access, deed, node)
  {
    assert access in [access];
  }

  /** The depths of accesses as parts of a place. */
  lemma DepthsAre(tcx: TyCtxt, v: Valuation, place: Place, depth: AccessDepth, node: Node)
    requires Fits(v.len, v.indices, place)
    ensures InAccess(tcx, v.len, v.indices, place, depth, node) <==>
              match depth
              case Shallow(Some(_)) => Itself(v, place, node)
              case Shallow(None) => StorageOf(v, place, node)
              case Deep => Within(v, place, node)
              case DropDepth => TouchedByDrop(tcx, v, place, node)
  {
  }

  /** A whole local fits every valuation. */
  lemma WholeLocal(v: Valuation, l: Local, node: Node)
    ensures Fits(v.len, v.indices, LocalPlace(l))
    ensures Within(v, LocalPlace(l), node) <==> node.local == l
    ensures StorageOf(v, LocalPlace(l), node) <==> node.local == l && !HasDeref(node.path)
  {
    assert node.path[0..] == node.path;
  }

  // ---------------------------------------------------------------- operands

  lemma OperandExactly(tcx: TyCtxt, v: Valuation, o: Operand, span: Span, deed: Deed, node: Node)
    ensures AccessesDo(tcx, v, OperandAccesses(o, span), deed, node) <==> OperandDoes(v, o, deed, node)
  {
    if !o.Constant? {
      OneDoes(tcx, v, OperandAccesses(o, span)[0], deed, node);
    }
  }

  ghost predicate SomeOperandDoes(v: Valuation, operands: seq<Operand>, deed: Deed, node: Node) {
    exists o :: o in operands && OperandDoes(v, o, deed, node)
  }

  lemma {:induction false} OperandsExactly(tcx: TyCtxt, v: Valuation, operands: seq<Operand>, span: Span, deed: Deed,
                                           node: Node)
    ensures AccessesDo(tcx, v, OperandsAccesses(operands, span), deed, node) <==>
              SomeOperandDoes(v, operands, deed, node)
  {
    if operands != [] {
      OperandExactly(tcx, v, operands[0], span, deed, node);
      OperandsExactly(tcx, v, operands[1..], span, deed, node);
      AccessesDoAppend(tcx, v, OperandAccesses(operands[0], span), OperandsAccesses(operands[1..], span), deed, node);
      assert forall o :: o in operands <==> o == operands[0] || o in operands[1..];
    }
  }

  ghost predicate SomeArgDoes(v: Valuation, args: seq<(Operand, Span)>, deed: Deed, node: Node) {
    exists o :: AmongArgs(args, o) && OperandDoes(v, o, deed, node)
  }

  lemma {:induction false} ArgsExactly(tcx: TyCtxt, v: Valuation, args: seq<(Operand, Span)>, deed: Deed, node: Node)
    ensures AccessesDo(tcx, v, ArgsAccesses(args), deed, node) <==> SomeArgDoes(v, args, deed, node)
  {
    if args != [] {
      OperandExactly(tcx, v, args[0].0, args[0].1, deed, node);
      ArgsExactly(tcx, v, args[1..], deed, node);
      AccessesDoAppend(tcx, v, OperandAccesses(args[0].0, args[0].1), ArgsAccesses(args[1..]), deed, node);
      forall o
        ensures AmongArgs(args, o) <==> o == args[0].0 || AmongArgs(args[1..], o)
      {
        AmongFirstOrRest(args, o);
      }
    }
  }

  // ---------------------------------------------------------------- statements

  lemma BorrowExactly(tcx: TyCtxt, v: Valuation, kind: BorrowKind, place: Place, span: Span, deed: Deed, node: Node)
    ensures AccessesDo(tcx, v, [BorrowAccess(kind, place, span)], deed, node) <==>
              BorrowDoes(v, kind, place, deed, node)
  {
    OneDoes(tcx, v, BorrowAccess(kind, place, span), deed, node);
  }

  lemma RvalueExactly(tcx: TyCtxt, v: Valuation, rvalue: Rvalue, span: Span, deed: Deed, node: Node)
    ensures AccessesDo(tcx, v, RvalueAccesses(rvalue, span), deed, node) <==> RvalueDoes(v, rvalue, deed, node)
  {
    match rvalue
    case Ref(_, kind, place) => BorrowExactly(tcx, v, kind, place, span, deed, node);
    case RawPtr(_, place) => OneDoes(tcx, v, RvalueAccesses(rvalue, span)[0], deed, node);
    case CopyForDeref(place) => OneDoes(tcx, v, RvalueAccesses(rvalue, span)[0], deed, node);
    case Len(place) => OneDoes(tcx, v, RvalueAccesses(rvalue, span)[0], deed, node);
    case Discriminant(place) => OneDoes(tcx, v, RvalueAccesses(rvalue, span)[0], deed, node);
    case Use(o) =>
      OperandExactly(tcx, v, o, span, deed, node);
      assert EvaluatedByRvalue(rvalue, o);
    case BinaryOp(left, right) =>
      OperandExactly(tcx, v, left, span, deed, node);
      OperandExactly(tcx, v, right, span, deed, node);
      AccessesDoAppend(tcx, v, OperandAccesses(left, span), OperandAccesses(right, span), deed, node);
      assert EvaluatedByRvalue(rvalue, left) && EvaluatedByRvalue(rvalue, right);
    case Aggregate(operands) =>
      OperandsExactly(tcx, v, operands, span, deed, node);
      assert forall o :: EvaluatedByRvalue(rvalue, o) <==> o in operands;
    case ThreadLocalRef =>
    case NullaryOp =>
  }

  lemma StoreExactly(tcx: TyCtxt, v: Valuation, place: Place, span: Span, deed: Deed, node: Node)
    ensures AccessesDo(tcx, v, [MutateAccess(place, span, Shallow(None))], deed, node) <==>
              deed == Changes && StorageOf(v, place, node)
    ensures AccessesDo(tcx, v, [MutateAccess(place, span, Deep)], deed, node) <==>
              deed == Changes && Within(v, place, node)
  {
    OneDoes(tcx, v, MutateAccess(place, span, Shallow(None)), deed, node);
    OneDoes(tcx, v, MutateAccess(place, span, Deep), deed, node);
  }

  /** A statement is checked for exactly what it does. */
  lemma StatementExactly(tcx: TyCtxt, v: Valuation, stmt: Statement, deed: Deed, node: Node)
    ensures AccessesDo(tcx, v, StatementAccesses(stmt), deed, node) <==> StatementDoes(v, stmt.kind, deed, node)
  {
    match stmt.kind
    case Assign(lhs, rhs) =>
      RvalueExactly(tcx, v, rhs, stmt.span, deed, node);
      StoreExactly(tcx, v, lhs, stmt.span, deed, node);
      AccessesDoAppend(tcx, v, RvalueAccesses(rhs, stmt.span), [MutateAccess(lhs, stmt.span, Shallow(None))], deed,
                       node);
    case Assume(o) => OperandExactly(tcx, v, o, stmt.span, deed, node);
    case StorageDead(l) =>
      OneDoes(tcx, v, StatementAccesses(stmt)[0], deed, node);
      WholeLocal(v, l, node);
    case _ =>
  }

  // ---------------------------------------------------------------- terminators

  ghost predicate AsmDoes(v: Valuation, operands: seq<InlineAsmOperand>, deed: Deed, node: Node) {
    exists k :: 0 <= k < |operands| && AsmOperandDoes(v, operands[k], deed, node)
  }

  ghost predicate AsmOperandDoes(v: Valuation, operand: InlineAsmOperand, deed: Deed, node: Node) {
    || (exists o :: AsmReads(operand, o) && OperandDoes(v, o, deed, node))
    || (deed == Changes && exists place :: AsmWrites(operand, place) && StorageOf(v, place, node))
  }

  lemma OutputExactly(tcx: TyCtxt, v: Valuation, place: Option<Place>, span: Span, deed: Deed, node: Node)
    ensures AccessesDo(tcx, v, OptionalMutate(place, span), deed, node) <==>
              deed == Changes && place.Some? && StorageOf(v, place.value, node)
  {
    if place.Some? {
      StoreExactly(tcx, v, place.value, span, deed, node);
    }
  }

  function AsmOperandAccesses(operand: InlineAsmOperand, span: Span): seq<Access> {
    match operand
    case AsmIn(o) => OperandAccesses(o, span)
    case AsmOut(p) => OptionalMutate(p, span)
    case AsmInOut(o, p) => OperandAccesses(o, span) + OptionalMutate(p, span)
    case AsmOther => []
  }

  lemma AsmOperandExactly(tcx: TyCtxt, v: Valuation, operand: InlineAsmOperand, span: Span, deed: Deed, node: Node)
    ensures AccessesDo(tcx, v, AsmOperandAccesses(operand, span), deed, node) <==>
              AsmOperandDoes(v, operand, deed, node)
  {
    match operand
    case AsmIn(o) =>
      OperandExactly(tcx, v, o, span, deed, node);
      assert AsmReads(operand, o);
    case AsmOut(place) =>
      OutputExactly(tcx, v, place, span, deed, node);
      assert place.Some? ==> AsmWrites(operand, place.value);
    case AsmInOut(o, place) =>
      OperandExactly(tcx, v, o, span, deed, node);
      OutputExactly(tcx, v, place, span, deed, node);
      AccessesDoAppend(tcx, v, OperandAccesses(o, span), OptionalMutate(place, span), deed, node);
      assert AsmReads(operand, o) && (place.Some? ==> AsmWrites(operand, place.value));
    case AsmOther =>
  }

  lemma {:induction false} AsmExactly(tcx: TyCtxt, v: Valuation, operands: seq<InlineAsmOperand>, span: Span,
                                      deed: Deed, node: Node)
    ensures AccessesDo(tcx, v, AsmAccesses(operands, span), deed, node) <==> AsmDoes(v, operands, deed, node)
  {
    if operands != [] {
      var head, rest := operands[0], operands[1..];
      AsmExactly(tcx, v, rest, span, deed, node);
      AsmOperandExactly(tcx, v, head, span, deed, node);
      assert AsmAccesses(operands, span) == AsmOperandAccesses(head, span) + AsmAccesses(rest, span);
      AccessesDoAppend(tcx, v, AsmOperandAccesses(head, span), AsmAccesses(rest, span), deed, node);
      if k :| 0 <= k < |operands| && AsmOperandDoes(v, operands[k], deed, node) {
        assert k > 0 ==> AsmOperandDoes(v, rest[k - 1], deed, node);
      }
      if k :| 0 <= k < |rest| && AsmOperandDoes(v, rest[k], deed, node) {
        assert AsmOperandDoes(v, operands[k + 1], deed, node);
      }
    }
  }

  /** What the operands of inline assembly do is what the terminator does. */
  lemma AsmIsTerminator(tcx: TyCtxt, v: Valuation, kind: TerminatorKind, deed: Deed, node: Node)
    requires kind.InlineAsm?
    ensures AsmDoes(v, kind.asmOperands, deed, node) <==> TerminatorDoes(tcx, v, kind, deed, node)
  {
    var operands := kind.asmOperands;
    if k :| 0 <= k < |operands| && AsmOperandDoes(v, operands[k], deed, node) {
      if o :| AsmReads(operands[k], o) && OperandDoes(v, o, deed, node) {
        assert EvaluatedByTerminator(kind, o);
      } else {
        var place :| AsmWrites(operands[k], place) && StorageOf(v, place, node);
        assert WrittenByAsm(kind, place);
      }
    }
    if o :| EvaluatedByTerminator(kind, o) && OperandDoes(v, o, deed, node) {
      var k :| 0 <= k < |operands| && AsmReads(operands[k], o);
      assert AsmOperandDoes(v, operands[k], deed, node);
    }
    if deed == Changes && TerminatorChanges(tcx, v, kind, node) {
      var place :| WrittenByAsm(kind, place) && StorageOf(v, place, node);
      var k :| 0 <= k < |operands| && AsmWrites(operands[k], place);
      assert AsmOperandDoes(v, operands[k], deed, node);
    }
  }

  /** The operands of a call. */
  lemma CalleeAndArgs(tcx: TyCtxt, v: Valuation, kind: TerminatorKind, span: Span, deed: Deed, node: Node)
    requires kind.Call? || kind.TailCall?
    ensures AccessesDo(tcx, v, OperandAccesses(kind.func, span) + ArgsAccesses(kind.args), deed, node) <==>
              exists o :: EvaluatedByTerminator(kind, o) && OperandDoes(v, o, deed, node)
  {
    OperandExactly(tcx, v, kind.func, span, deed, node);
    ArgsExactly(tcx, v, kind.args, deed, node);
    AccessesDoAppend(tcx, v, OperandAccesses(kind.func, span), ArgsAccesses(kind.args), deed, node);
    assert forall o :: EvaluatedByTerminator(kind, o) <==> o == kind.func || AmongArgs(kind.args, o);
  }

  lemma AssertExactly(tcx: TyCtxt, v: Valuation, term: Terminator, deed: Deed, node: Node)
    requires term.kind.Assert?
    ensures AccessesDo(tcx, v, TerminatorAccesses(term), deed, node) <==> TerminatorDoes(tcx, v, term.kind, deed, node)
  {
    var kind := term.kind;
    var shown := BoundsOperands(kind.message);
    OperandExactly(tcx, v, kind.cond, term.span, deed, node);
    OperandsExactly(tcx, v, shown, term.span, deed, node);
    AccessesDoAppend(tcx, v, OperandAccesses(kind.cond, term.span), OperandsAccesses(shown, term.span), deed, node);
    assert forall o :: EvaluatedByTerminator(kind, o) <==> o == kind.cond || o in shown;
  }

  lemma CallExactly(tcx: TyCtxt, v: Valuation, term: Terminator, deed: Deed, node: Node)
    requires term.kind.Call?
    ensures AccessesDo(tcx, v, TerminatorAccesses(term), deed, node) <==> TerminatorDoes(tcx, v, term.kind, deed, node)
  {
    var kind := term.kind;
    CalleeAndArgs(tcx, v, kind, term.span, deed, node);
    StoreExactly(tcx, v, kind.destination, term.span, deed, node);
    AccessesDoAppend(tcx, v, OperandAccesses(kind.func, term.span) + ArgsAccesses(kind.args),
                     [MutateAccess(kind.destination, term.span, Deep)], deed, node);
    assert forall place :: LentForWriting(kind, place) <==> place == kind.destination;
  }

  lemma YieldExactly(tcx: TyCtxt, v: Valuation, term: Terminator, deed: Deed, node: Node)
    requires term.kind.Yield?
    ensures AccessesDo(tcx, v, TerminatorAccesses(term), deed, node) <==> TerminatorDoes(tcx, v, term.kind, deed, node)
  {
    var kind := term.kind;
    OperandExactly(tcx, v, kind.value, term.span, deed, node);
    StoreExactly(tcx, v, kind.resumeArg, term.span, deed, node);
    AccessesDoAppend(tcx, v, OperandAccesses(kind.value, term.span), [MutateAccess(kind.resumeArg, term.span, Deep)],
                     deed, node);
    assert forall o :: EvaluatedByTerminator(kind, o) <==> o == kind.value;
    assert forall place :: LentForWriting(kind, place) <==> place == kind.resumeArg;
  }

  /** A terminator is checked for exactly what it does. */
  lemma TerminatorExactly(tcx: TyCtxt, v: Valuation, term: Terminator, deed: Deed, node: Node)
    ensures AccessesDo(tcx, v, TerminatorAccesses(term), deed, node) <==> TerminatorDoes(tcx, v, term.kind, deed, node)
  {
    match term.kind
    case SwitchInt(o, _) =>
      OperandExactly(tcx, v, o, term.span, deed, node);
      assert EvaluatedByTerminator(term.kind, o);
    case Drop(_, _, _, _) => OneDoes(tcx, v, TerminatorAccesses(term)[0], deed, node);
    case Call(_, _, _, _, _) => CallExactly(tcx, v, term, deed, node);
    case TailCall(_, _) => CalleeAndArgs(tcx, v, term.kind, term.span, deed, node);
    case Assert(_, _, _, _) => AssertExactly(tcx, v, term, deed, node);
    case Yield(_, _, _, _) => YieldExactly(tcx, v, term, deed, node);
    case InlineAsm(operands, _, _) =>
      AsmExactly(tcx, v, operands, term.span, deed, node);
      AsmIsTerminator(tcx, v, term.kind, deed, node);
    case _ =>
  }

  // ---------------------------------------------------------------- points

  ghost predicate SomeActivationDoes(cx: CheckCx, v: Valuation, indices: seq<BorrowIndex>, deed: Deed, node: Node) {
    && deed.Activates? && deed.loan in indices && deed.loan < |cx.borrowSet.loans|
    && Within(v, cx.borrowSet.loans[deed.loan].borrowedPlace, node)
  }

  lemma {:induction false} ActivationsExactlyDo(cx: CheckCx, v: Valuation, indices: seq<BorrowIndex>, span: Span,
                                                deed: Deed, node: Node)
    ensures AccessesDo(cx.tcx, v, ActivationAccesses(cx, indices, span), deed, node) <==>
              SomeActivationDoes(cx, v, indices, deed, node)
  {
    if indices != [] {
      ActivationsExactlyDo(cx, v, indices[1..], span, deed, node);
      var first := if indices[0] < |cx.borrowSet.loans| then [ActivationAccess(cx, indices[0], span)] else [];
      if first != [] {
        OneDoes(cx.tcx, v, first[0], deed, node);
      }
      AccessesDoAppend(cx.tcx, v, first, ActivationAccesses(cx, indices[1..], span), deed, node);
    }
  }

  /** The list of accesses at a point tells exactly what the point does: each deed on each node, and no other. */
  lemma EffectsExactly(cx: CheckCx, v: Valuation, p: Location, deed: Deed, node: Node)
    requires ValidSet(cx.borrowSet) && IsPoint(cx.body, p)
    ensures AccessesDo(cx.tcx, v, AccessesAt(cx, p), deed, node) <==>
              PointDoes(cx.tcx, v, cx.body, cx.borrowSet.loans, p, deed, node)
  {
    var data := cx.body.blocks[p.block];
    var indices := ActivationsAt(cx.borrowSet.activationMap, p);
    assert ActivationsAgreeAt(cx.borrowSet.loans, cx.borrowSet.activationMap, p);
    if IsTerminatorPoint(cx.body, p) {
      ActivationsExactlyDo(cx, v, indices, data.terminator.span, deed, node);
      TerminatorExactly(cx.tcx, v, data.terminator, deed, node);
      AccessesDoAppend(cx.tcx, v, ActivationAccesses(cx, indices, data.terminator.span),
                       TerminatorAccesses(data.terminator), deed, node);
    } else {
      var stmt := data.statements[p.index];
      ActivationsExactlyDo(cx, v, indices, stmt.span, deed, node);
      StatementExactly(cx.tcx, v, stmt, deed, node);
      AccessesDoAppend(cx.tcx, v, ActivationAccesses(cx, indices, stmt.span), StatementAccesses(stmt), deed, node);
    }
  }

  // ---------------------------------------------------------------- places

  lemma {:induction false} OperandsPlaces(operands: seq<Operand>, span: Span, access: Access)
    requires access in OperandsAccesses(operands, span)
    ensures exists o :: o in operands && !o.Constant? && o.place == access.place
  {
    if access in OperandAccesses(operands[0], span) {
      assert operands[0] in operands && operands[0].place == access.place;
    } else {
      OperandsPlaces(operands[1..], span, access);
      var o :| o in operands[1..] && !o.Constant? && o.place == access.place;
      assert o in operands;
    }
  }

  lemma {:induction false} ArgsPlaces(args: seq<(Operand, Span)>, access: Access)
    requires access in ArgsAccesses(args)
    ensures exists o :: AmongArgs(args, o) && !o.Constant? && o.place == access.place
  {
    if access in OperandAccesses(args[0].0, args[0].1) {
      assert AmongArgs(args, args[0].0);
    } else {
      ArgsPlaces(args[1..], access);
      var o :| AmongArgs(args[1..], o) && !o.Constant? && o.place == access.place;
      AmongFirstOrRest(args, o);
    }
  }

  lemma {:induction false} AsmPlaces(kind: TerminatorKind, operands: seq<InlineAsmOperand>, k: nat, span: Span,
                                     access: Access)
    requires kind.InlineAsm? && k <= |kind.asmOperands| && operands == kind.asmOperands[k..]
    requires access in AsmAccesses(operands, span)
    ensures ActedOnByTerminator(kind, access.place)
    decreases |operands|
  {
    var head := kind.asmOperands[k];
    assert AsmAccesses(operands, span) == AsmOperandAccesses(head, span) + AsmAccesses(operands[1..], span);
    if access in AsmOperandAccesses(head, span) {
      match head
      case AsmIn(o) => assert EvaluatedByTerminator(kind, o);
      case AsmOut(_) => assert AsmWrites(head, access.place);
      case AsmInOut(o, _) =>
        assert AsmReads(head, o) && EvaluatedByTerminator(kind, o);
        assert access !in OperandAccesses(o, span) ==> AsmWrites(head, access.place);
    } else {
      AsmPlaces(kind, operands[1..], k + 1, span, access);
    }
  }

  lemma RvaluePlaces(rvalue: Rvalue, span: Span, access: Access)
    requires access in RvalueAccesses(rvalue, span)
    ensures ActedOnByRvalue(rvalue, access.place)
  {
    match rvalue
    case Use(o) => assert EvaluatedByRvalue(rvalue, o);
    case BinaryOp(left, right) =>
      assert EvaluatedByRvalue(rvalue, left) && EvaluatedByRvalue(rvalue, right);
    case Aggregate(operands) =>
      OperandsPlaces(operands, span, access);
      assert forall o :: EvaluatedByRvalue(rvalue, o) <==> o in operands;
    case _ =>
  }

  lemma CallPlaces(kind: TerminatorKind, span: Span, access: Access)
    requires kind.Call? || kind.TailCall?
    requires access in OperandAccesses(kind.func, span) + ArgsAccesses(kind.args)
    ensures ActedOnByTerminator(kind, access.place)
  {
    if access in OperandAccesses(kind.func, span) {
      assert EvaluatedByTerminator(kind, kind.func);
    } else {
      ArgsPlaces(kind.args, access);
      var o :| AmongArgs(kind.args, o) && !o.Constant? && o.place == access.place;
      assert EvaluatedByTerminator(kind, o);
    }
  }

  lemma TerminatorPlaces(term: Terminator, access: Access)
    requires access in TerminatorAccesses(term)
    ensures ActedOnByTerminator(term.kind, access.place)
  {
    match term.kind
    case SwitchInt(o, _) => assert EvaluatedByTerminator(term.kind, o);
    case Call(func, args, _, _, _) =>
      if access in OperandAccesses(func, term.span) + ArgsAccesses(args) {
        CallPlaces(term.kind, term.span, access);
      }
    case TailCall(_, _) => CallPlaces(term.kind, term.span, access);
    case Assert(c, m, _, _) =>
      if access in OperandAccesses(c, term.span) {
        assert EvaluatedByTerminator(term.kind, c);
      } else {
        OperandsPlaces(BoundsOperands(m), term.span, access);
        var o :| o in BoundsOperands(m) && !o.Constant? && o.place == access.place;
        assert EvaluatedByTerminator(term.kind, o);
      }
    case Yield(o, _, _, _) =>
      if access in OperandAccesses(o, term.span) {
        assert EvaluatedByTerminator(term.kind, o);
      }
    case InlineAsm(operands, _, _) =>
      assert operands[0..] == operands;
      AsmPlaces(term.kind, operands, 0, term.span, access);
    case _ =>
  }

  lemma {:induction false} ActivationPlaces(cx: CheckCx, indices: seq<BorrowIndex>, span: Span, access: Access)
    requires access in ActivationAccesses(cx, indices, span)
    ensures exists i :: i in indices && i < |cx.borrowSet.loans| && cx.borrowSet.loans[i].borrowedPlace == access.place
  {
    var i := indices[0];
    if i < |cx.borrowSet.loans| && access == ActivationAccess(cx, i, span) {
      assert i in indices;
    } else {
      ActivationPlaces(cx, indices[1..], span, access);
      var j :| j in indices[1..] && j < |cx.borrowSet.loans| && cx.borrowSet.loans[j].borrowedPlace == access.place;
      assert j in indices;
    }
  }

  /** Every access is to a place that the point acts on. */
  lemma AccessedPlaces(cx: CheckCx, p: Location, access: Access)
    requires ValidSet(cx.borrowSet) && IsPoint(cx.body, p) && access in AccessesAt(cx, p)
    ensures ActedOn(cx.body, cx.borrowSet.loans, p, access.place)
  {
    var data := cx.body.blocks[p.block];
    var indices := ActivationsAt(cx.borrowSet.activationMap, p);
    var span := if IsTerminatorPoint(cx.body, p) then data.terminator.span else data.statements[p.index].span;
    assert ActivationsAgreeAt(cx.borrowSet.loans, cx.borrowSet.activationMap, p);
    if access in ActivationAccesses(cx, indices, span) {
      ActivationPlaces(cx, indices, span, access);
    } else if IsTerminatorPoint(cx.body, p) {
      TerminatorPlaces(data.terminator, access);
    } else {
      var stmt := data.statements[p.index];
      if stmt.kind.Assign? && access in RvalueAccesses(stmt.kind.rhs, stmt.span) {
        RvaluePlaces(stmt.kind.rhs, stmt.span, access);
      }
    }
  }
}
