/** What the points of a body do to storage, told by what statements and terminators mean: which nodes of the memory
    tree are read, moved out of, changed, or handed out in a borrow. */
module Effects {
  import opened Mir
  import opened PlacesConflict
  import opened Footprint
  import opened Occurrences

  /** What may be done to a node. A move reads it and ends it; changing covers overwriting, dropping, the end of storage
      and handing the node out for writing. A two-phase borrow only reserves, until the use of its temporary activates
      it. A shallow borrow looks at the shape of a place only. */
  datatype Deed = Looks | Reads | MovesOut | Changes | Reserves | Activates(loan: BorrowIndex)

  /** A valuation: the lengths of slices and the values of index locals. */
  datatype Valuation = Valuation(len: Lengths, indices: Indices)

  // ---------------------------------------------------------------- the nodes of a place

  /** The place itself and everything that can be reached from it. */
  ghost predicate Within(v: Valuation, place: Place, node: Node) {
    Fits(v.len, v.indices, place) && Below(v.len, v.indices, place, node)
  }

  /** The part of the node's path that leads on from the place. */
  ghost function Onwards(v: Valuation, place: Place, node: Node): seq<Step>
    requires Within(v, place, node)
  {
    node.path[BelowBase(v.len, v.indices, place)..]
  }

  ghost predicate Itself(v: Valuation, place: Place, node: Node) {
    Within(v, place, node) && Onwards(v, place, node) == []
  }

  /** The storage of the place: what is reached without following a pointer. */
  ghost predicate StorageOf(v: Valuation, place: Place, node: Node) {
    Within(v, place, node) && !HasDeref(Onwards(v, place, node))
  }

  /** What dropping the value of the place touches. */
  ghost predicate TouchedByDrop(tcx: TyCtxt, v: Valuation, place: Place, node: Node) {
    && Within(v, place, node)
    && DropTouches(tcx, node.local, node.path[..BelowBase(v.len, v.indices, place)], Onwards(v, place, node))
  }

  // ---------------------------------------------------------------- deeds

  ghost predicate OperandDoes(v: Valuation, o: Operand, deed: Deed, node: Node) {
    match o
    case Copy(place) => deed == Reads && Within(v, place, node)
    case Move(place) => deed == MovesOut && Within(v, place, node)
    case Constant => false
  }

  /** Taking a borrow gives access of its kind. */
  ghost predicate BorrowDoes(v: Valuation, kind: BorrowKind, place: Place, deed: Deed, node: Node) {
    match kind
    case Shared => deed == Reads && Within(v, place, node)
    case Fake(ShallowFake) => deed == Looks && Itself(v, place, node)
    case Fake(DeepFake) => deed == Reads && Within(v, place, node)
    case Mut(TwoPhaseBorrow) => deed == Reserves && Within(v, place, node)
    case Mut(_) => deed == Changes && Within(v, place, node)
  }

  ghost predicate RvalueDoes(v: Valuation, rvalue: Rvalue, deed: Deed, node: Node) {
    match rvalue
    case Ref(_, kind, place) => BorrowDoes(v, kind, place, deed, node)
    case RawPtr(mutable, place) => BorrowDoes(v, if mutable then Mut(DefaultMut) else Shared, place, deed, node)
    case CopyForDeref(place) => deed == Reads && Within(v, place, node)
    case Len(place) => deed == Reads && Itself(v, place, node)
    case Discriminant(place) => deed == Reads && StorageOf(v, place, node)
    case _ => exists o :: EvaluatedByRvalue(rvalue, o) && OperandDoes(v, o, deed, node)
  }

  ghost predicate StatementDoes(v: Valuation, kind: StatementKind, deed: Deed, node: Node) {
    match kind
    case Assign(lhs, rhs) => RvalueDoes(v, rhs, deed, node) || (deed == Changes && StorageOf(v, lhs, node))
    case Assume(o) => OperandDoes(v, o, deed, node)
    case StorageDead(l) => deed == Changes && node.local == l && !HasDeref(node.path)
    case _ => false
  }

  /** The places through which a called function or a resumed coroutine may change everything. */
  ghost predicate LentForWriting(kind: TerminatorKind, place: Place) {
    (kind.Call? && kind.destination == place) || (kind.Yield? && kind.resumeArg == place)
  }

  ghost predicate TerminatorChanges(tcx: TyCtxt, v: Valuation, kind: TerminatorKind, node: Node) {
    || (kind.Drop? && TouchedByDrop(tcx, v, kind.place, node))
    || (exists place :: LentForWriting(kind, place) && Within(v, place, node))
    || (exists place :: WrittenByAsm(kind, place) && StorageOf(v, place, node))
  }

  ghost predicate TerminatorDoes(tcx: TyCtxt, v: Valuation, kind: TerminatorKind, deed: Deed, node: Node) {
    || (exists o :: EvaluatedByTerminator(kind, o) && OperandDoes(v, o, deed, node))
    || (deed == Changes && TerminatorChanges(tcx, v, kind, node))
  }

  /** The point is the one use of the temporary that holds two-phase loan `i`, which turns it into access to all that
      is borrowed. */
  ghost predicate ActivationDoes(v: Valuation, loans: seq<BorrowData>, p: Location, deed: Deed, node: Node) {
    && deed.Activates? && deed.loan < |loans|
    && loans[deed.loan].activation == ActivatedAt(p) && Within(v, loans[deed.loan].borrowedPlace, node)
  }

  ghost predicate PointDoes(tcx: TyCtxt, v: Valuation, body: Body, loans: seq<BorrowData>, p: Location, deed: Deed,
                            node: Node) {
    && IsPoint(body, p)
    && (|| ActivationDoes(v, loans, p, deed, node)
        || if IsTerminatorPoint(body, p) then
             TerminatorDoes(tcx, v, body.blocks[p.block].terminator.kind, deed, node)
           else StatementDoes(v, body.blocks[p.block].statements[p.index].kind, deed, node))
  }

  // ---------------------------------------------------------------- the end of the function

  /** Control goes nowhere from here, and not because it never comes here or never gets on. */
  predicate EndsFrame(kind: TerminatorKind) {
    && Successors(kind) == []
    && !kind.Unreachable? && !kind.UnwindTerminate? && !kind.Call? && !kind.SwitchInt? && !kind.InlineAsm?
  }

  /** The storage that goes away with the frame: that of the locals, if they are invalidated then, and, for a reference
      to a thread-local static, whatever lies behind it. */
  predicate GoesAway(tcx: TyCtxt, localsAreInvalidated: bool, node: Node) {
    if node.local in tcx.threadLocalRefs then node.path != [] && node.path[0] == SDeref
    else localsAreInvalidated && !HasDeref(node.path)
  }
}
