/** The decision procedure of `places_conflict.rs`: does a borrowed place conflict with an accessed
    place? The two projections are walked in lockstep, and what is left of the borrow is then
    looked at in the light of the depth of the access. */
module PlacesConflict {
  import opened Mir

  // ---------------------------------------------------------------- types of places

  datatype AdtShape = StructShape | UnionShape | EnumShape | VariantShape

  datatype TyKind =
    | RefTy(mutable: bool)
    | RawPtrTy
    | BoxTy
    | AdtTy(shape: AdtShape, hasDtor: bool)
    | TupleTy
    | ArrayTy
    | SliceTy
    | OpaqueTy
    | ScalarTy

  /** One step of the path that determines a type: which element of an array was selected is
      irrelevant, that one was selected is not. */
  datatype TypeStep = ToPointee | ToField(field: nat) | ToElement | ToSubslice | ToVariant(variant: nat) | ToCast
      | ToSubtype

  function TypeStepOf(e: ProjectionElem): TypeStep {
    match e
    case Deref => ToPointee
    case Field(f) => ToField(f)
    case Index(_) => ToElement
    case ConstantIndex(_, _, _) => ToElement
    case Subslice(_, _, _) => ToSubslice
    case Downcast(v) => ToVariant(v)
    case OpaqueCast => ToCast
    case Subtype => ToSubtype
  }

  function TypePath(projection: seq<ProjectionElem>): (path: seq<TypeStep>)
    ensures |path| == |projection|
    ensures forall j :: 0 <= j < |path| ==> path[j] == TypeStepOf(projection[j])
  {
    seq(|projection|, j requires 0 <= j < |projection| => TypeStepOf(projection[j]))
  }

  /** What the type context says about locals and the places reached from them. */
  datatype TyCtxt = TyCtxt(
    kindAt: (Local, seq<TypeStep>) -> TyKind,
    immutableLocals: set<Local>,
    threadLocalRefs: set<Local>,
    staticRefs: set<Local>)

  function KindOf(tcx: TyCtxt, local: Local, projection: seq<ProjectionElem>): TyKind {
    tcx.kindAt(local, TypePath(projection))
  }

  // ---------------------------------------------------------------- the procedure

  datatype ArtificialField = ArrayLength | FakeBorrow
  datatype AccessDepth = Shallow(artificial: Option<ArtificialField>) | Deep | DropDepth
  datatype Bias = BiasOverlap | BiasNoOverlap
  datatype Overlap = Arbitrary | EqualOrDisjoint | Disjoint | Mismatched

  /** `Conflicts(b)` is an answer; the other two are the internal compiler errors. */
  datatype Answer = Conflicts(conflict: bool) | MismatchedProjections | BehindSharedReference

  function Max(a: nat, b: nat): nat {
    if a >= b then a else b
  }

  function ByBias(bias: Bias): Overlap {
    if bias.BiasOverlap? then EqualOrDisjoint else Disjoint
  }

  function EqualIf(same: bool): Overlap {
    if same then EqualOrDisjoint else Disjoint
  }

  /** Overlap of two projections whose bases, both of kind `baseKind`, are equal or disjoint. */
  function PlaceProjectionConflict(baseKind: TyKind, e1: ProjectionElem, e2: ProjectionElem, bias: Bias): Overlap {
    match (e1, e2)
    case (Deref, Deref) => EqualOrDisjoint
    case (OpaqueCast, OpaqueCast) => EqualOrDisjoint
    case (Field(f1), Field(f2)) =>
      if f1 == f2 then EqualOrDisjoint
      else if baseKind.AdtTy? && baseKind.shape == UnionShape then Arbitrary
      else Disjoint
    case (Downcast(v1), Downcast(v2)) => EqualIf(v1 == v2)
    case (Index(_), Index(_)) => ByBias(bias)
    case (Index(_), ConstantIndex(_, _, _)) => ByBias(bias)
    case (Index(_), Subslice(_, _, _)) => ByBias(bias)
    case (ConstantIndex(_, _, _), Index(_)) => ByBias(bias)
    case (Subslice(_, _, _), Index(_)) => ByBias(bias)
    case (ConstantIndex(o1, min1, end1), ConstantIndex(o2, min2, end2)) =>
      if end1 == end2 then EqualIf(o1 == o2)
      else
        var fromBegin := if end1 then o2 else o1;
        var fromEnd := if end1 then o1 else o2;
        EqualIf(fromBegin >= Max(min1, min2) - fromEnd)
    case (ConstantIndex(o, _, end), Subslice(from, to, subEnd)) => IndexAgainstSubslice(o, end, from, to, subEnd)
    case (Subslice(from, to, subEnd), ConstantIndex(o, _, end)) => IndexAgainstSubslice(o, end, from, to, subEnd)
    case (Subslice(f1, t1, end1), Subslice(f2, t2, end2)) =>
      if !end1 && !end2 then EqualIf(!(f2 >= t1 || f1 >= t2)) else EqualOrDisjoint
    case _ => Mismatched
  }

  function IndexAgainstSubslice(offset: nat, fromEnd: bool, from: nat, to: nat, subFromEnd: bool): Overlap {
    match (fromEnd, subFromEnd)
    case (false, false) => EqualIf(from <= offset < to)
    case (false, true) => EqualIf(offset >= from)
    case (true, true) => EqualIf(offset > to)
    case (true, false) => Mismatched
  }

  /** What is left of a borrow that is longer than the access, from its element `j` on. */
  function RemainderConflict(tcx: TyCtxt, borrow: Place, depth: AccessDepth, j: nat): Answer
    requires j <= |borrow.projection|
    decreases |borrow.projection| - j
  {
    if j == |borrow.projection| then Conflicts(true)
    else
      var baseKind := KindOf(tcx, borrow.local, borrow.projection[..j]);
      match (borrow.projection[j], depth)
      case (_, Shallow(Some(_))) => Conflicts(false)
      case (Deref, Shallow(None)) => Conflicts(false)
      case (Deref, _) =>
        if baseKind == RefTy(false) then BehindSharedReference
        else if baseKind == RefTy(true) && depth.DropDepth? then Conflicts(false)
        else RemainderConflict(tcx, borrow, depth, j + 1)
      case (Field(_), DropDepth) =>
        if baseKind.AdtTy? && baseKind.hasDtor then Conflicts(true)
        else RemainderConflict(tcx, borrow, depth, j + 1)
      case _ => RemainderConflict(tcx, borrow, depth, j + 1)
  }

  /** The lockstep walk from element `j` on. */
  function PlaceComponentsConflict(tcx: TyCtxt, borrow: Place, kind: BorrowKind, access: Place,
                                   depth: AccessDepth, bias: Bias, j: nat): Answer
    requires j <= |borrow.projection| && j <= |access.projection|
    decreases |borrow.projection| - j
  {
    if j < |borrow.projection| && j < |access.projection| then
      match PlaceProjectionConflict(KindOf(tcx, borrow.local, borrow.projection[..j]),
                                    borrow.projection[j], access.projection[j], bias)
      case Arbitrary => Conflicts(true)
      case Disjoint => Conflicts(false)
      case Mismatched => MismatchedProjections
      case EqualOrDisjoint => PlaceComponentsConflict(tcx, borrow, kind, access, depth, bias, j + 1)
    else if |borrow.projection| > |access.projection| then
      RemainderConflict(tcx, borrow, depth, j)
    else
      Conflicts(!(kind == Fake(ShallowFake) && |borrow.projection| < |access.projection|))
  }

  function BorrowConflictsWithPlace(tcx: TyCtxt, borrow: Place, kind: BorrowKind, access: Place,
                                    depth: AccessDepth, bias: Bias): Answer
  {
    if borrow.local != access.local then Conflicts(false)
    else if borrow.projection == [] && access.projection == [] then Conflicts(true)
    else PlaceComponentsConflict(tcx, borrow, kind, access, depth, bias, 0)
  }

  /** The form used outside of the access checks: a mutable borrow and a deep access. */
  function PlacesConflictAnswer(tcx: TyCtxt, borrow: Place, access: Place, bias: Bias): Answer {
    BorrowConflictsWithPlace(tcx, borrow, Mut(TwoPhaseBorrow), access, Deep, bias)
  }

  // ---------------------------------------------------------------- which borrows are tracked

  datatype LocalsStateAtExit =
    | AllAreInvalidated
    | SomeAreInvalidated(hasStorageDeadOrMoved: set<Local>)

  /** Does a dereference from element `j` on make the borrow one that need not be tracked? */
  predicate IgnoredDeref(tcx: TyCtxt, place: Place, j: nat)
    requires j <= |place.projection|
    decreases |place.projection| - j
  {
    if j == |place.projection| then false
    else if !place.projection[j].Deref? then IgnoredDeref(tcx, place, j + 1)
    else
      match KindOf(tcx, place.local, place.projection[..j])
      case RefTy(false) =>
        if j == 0 && place.local in tcx.threadLocalRefs then IgnoredDeref(tcx, place, j + 1) else true
      case RawPtrTy => true
      case _ => IgnoredDeref(tcx, place, j + 1)
  }

  predicate IgnoreBorrow(tcx: TyCtxt, exit: LocalsStateAtExit, place: Place) {
    || (exit.SomeAreInvalidated? && place.local !in exit.hasStorageDeadOrMoved && place.local in tcx.immutableLocals)
    || IgnoredDeref(tcx, place, 0)
  }

  /** Element `k` goes through a pointer that may be copied: a raw pointer, or a shared reference other than that of a
      thread-local static at the root. */
  predicate ThroughCopyablePointer(tcx: TyCtxt, place: Place, k: nat)
    requires k < |place.projection|
  {
    var kind := KindOf(tcx, place.local, place.projection[..k]);
    && place.projection[k] == ProjectionElem.Deref
    && (kind == RawPtrTy || (kind == RefTy(false) && !(k == 0 && place.local in tcx.threadLocalRefs)))
  }

  /** A borrow that nothing done to the place can invalidate: what is borrowed lies behind a pointer that may be copied,
      or in a local that never changes and never dies within the body. */
  ghost predicate CannotBeInvalidated(tcx: TyCtxt, exit: LocalsStateAtExit, place: Place) {
    || (exists k :: 0 <= k < |place.projection| && ThroughCopyablePointer(tcx, place, k))
    || (exit.SomeAreInvalidated? && place.local in tcx.immutableLocals && place.local !in exit.hasStorageDeadOrMoved)
  }

  lemma {:induction false} IgnoredDerefExactly(tcx: TyCtxt, place: Place, j: nat)
    requires j <= |place.projection|
    ensures IgnoredDeref(tcx, place, j) <==>
              exists k :: j <= k < |place.projection| && ThroughCopyablePointer(tcx, place, k)
    decreases |place.projection| - j
  {
    if j < |place.projection| {
      IgnoredDerefExactly(tcx, place, j + 1);
      if ThroughCopyablePointer(tcx, place, j) {
        assert j <= j < |place.projection|;
      }
    }
  }

  /** Borrows go untracked if and only if they cannot be invalidated; boxes and mutable references are followed. */
  lemma IgnoredExactly(tcx: TyCtxt, exit: LocalsStateAtExit, place: Place)
    ensures IgnoreBorrow(tcx, exit, place) <==> CannotBeInvalidated(tcx, exit, place)
  {
    IgnoredDerefExactly(tcx, place, 0);
  }

  // ---------------------------------------------------------------- no internal error

  predicate ElemFitsKind(kind: TyKind, e: ProjectionElem) {
    match e
    case Deref => kind.RefTy? || kind.RawPtrTy? || kind.BoxTy?
    case Field(_) => kind.TupleTy? || (kind.AdtTy? && !kind.shape.EnumShape?)
    case Downcast(_) => kind.AdtTy? && kind.shape.EnumShape?
    case Index(_) => kind.ArrayTy? || kind.SliceTy?
    case ConstantIndex(_, _, fromEnd) => (kind.ArrayTy? && !fromEnd) || kind.SliceTy?
    case Subslice(_, _, fromEnd) => (kind.ArrayTy? && !fromEnd) || (kind.SliceTy? && fromEnd)
    case OpaqueCast => kind.OpaqueTy?
    case Subtype => false
  }

  ghost predicate WellTyped(tcx: TyCtxt, place: Place) {
    forall j :: 0 <= j < |place.projection| ==>
      ElemFitsKind(KindOf(tcx, place.local, place.projection[..j]), place.projection[j])
  }

  /** A subslice is selected by the last projection only. */
  ghost predicate SubsliceLast(place: Place) {
    forall j :: 0 <= j < |place.projection| - 1 ==> !place.projection[j].Subslice?
  }

  /** The lockstep walk has passed its first `k` elements. */
  ghost predicate Passed(tcx: TyCtxt, borrow: Place, access: Place, bias: Bias, k: nat)
    requires k <= |borrow.projection| && k <= |access.projection|
  {
    forall j :: 0 <= j < k ==>
      PlaceProjectionConflict(KindOf(tcx, borrow.local, borrow.projection[..j]),
                              borrow.projection[j], access.projection[j], bias) == EqualOrDisjoint
  }

  /** Elements that passed select the same type, unless one of them is a subslice. */
  lemma PassedTypes(tcx: TyCtxt, borrow: Place, access: Place, bias: Bias, k: nat)
    requires k <= |borrow.projection| && k <= |access.projection|
    requires Passed(tcx, borrow, access, bias, k)
    requires forall j :: 0 <= j < k ==> !borrow.projection[j].Subslice? && !access.projection[j].Subslice?
    ensures TypePath(borrow.projection[..k]) == TypePath(access.projection[..k])
  {
    forall j | 0 <= j < k
      ensures TypeStepOf(borrow.projection[j]) == TypeStepOf(access.projection[j])
    {
      assert PlaceProjectionConflict(KindOf(tcx, borrow.local, borrow.projection[..j]),
                                     borrow.projection[j], access.projection[j], bias) == EqualOrDisjoint;
    }
  }

  /** Comparing two well-typed places never meets a mismatched pair of projections. */
  lemma {:induction false} NoMismatch(tcx: TyCtxt, borrow: Place, kind: BorrowKind, access: Place,
                                      depth: AccessDepth, bias: Bias, j: nat)
    requires borrow.local == access.local
    requires WellTyped(tcx, borrow) && WellTyped(tcx, access)
    requires SubsliceLast(borrow) && SubsliceLast(access)
    requires j <= |borrow.projection| && j <= |access.projection|
    requires Passed(tcx, borrow, access, bias, j)
    ensures !PlaceComponentsConflict(tcx, borrow, kind, access, depth, bias, j).MismatchedProjections?
    decreases |borrow.projection| - j
  {
    if j < |borrow.projection| && j < |access.projection| {
      PassedTypes(tcx, borrow, access, bias, j);
      if PlaceProjectionConflict(KindOf(tcx, borrow.local, borrow.projection[..j]),
                                 borrow.projection[j], access.projection[j], bias) == EqualOrDisjoint {
        NoMismatch(tcx, borrow, kind, access, depth, bias, j + 1);
      }
    } else if |borrow.projection| > |access.projection| {
      RemainderNeverMismatched(tcx, borrow, depth, j);
    }
  }

  lemma {:induction false} RemainderNeverMismatched(tcx: TyCtxt, borrow: Place, depth: AccessDepth, j: nat)
    requires j <= |borrow.projection|
    ensures !RemainderConflict(tcx, borrow, depth, j).MismatchedProjections?
    decreases |borrow.projection| - j
  {
    if j < |borrow.projection| {
      RemainderNeverMismatched(tcx, borrow, depth, j + 1);
    }
  }

  /** A place whose borrow is tracked dereferences nothing shared or raw, except that its local
      itself may be a reference to a thread-local static. */
  lemma {:induction false} TrackedDerefs(tcx: TyCtxt, place: Place, j: nat, k: nat)
    requires j <= k < |place.projection|
    requires !IgnoredDeref(tcx, place, j)
    requires place.projection[k].Deref?
    ensures KindOf(tcx, place.local, place.projection[..k]) != RawPtrTy
    ensures KindOf(tcx, place.local, place.projection[..k]) == RefTy(false) ==>
              k == 0 && place.local in tcx.threadLocalRefs
    decreases k - j
  {
    if j < k {
      TrackedDerefs(tcx, place, j + 1, k);
    }
  }

  lemma {:induction false} TrackedRemainder(tcx: TyCtxt, borrow: Place, depth: AccessDepth, j: nat)
    requires 0 < j <= |borrow.projection|
    requires !IgnoredDeref(tcx, borrow, 0)
    ensures !RemainderConflict(tcx, borrow, depth, j).BehindSharedReference?
    decreases |borrow.projection| - j
  {
    if j < |borrow.projection| {
      if borrow.projection[j].Deref? {
        TrackedDerefs(tcx, borrow, 0, j);
      }
      TrackedRemainder(tcx, borrow, depth, j + 1);
    }
  }

  lemma {:induction false} TrackedComponents(tcx: TyCtxt, borrow: Place, kind: BorrowKind, access: Place,
                                             depth: AccessDepth, bias: Bias, j: nat)
    requires j <= |borrow.projection| && j <= |access.projection|
    requires !IgnoredDeref(tcx, borrow, 0)
    requires |access.projection| > 0
    ensures !PlaceComponentsConflict(tcx, borrow, kind, access, depth, bias, j).BehindSharedReference?
    decreases |borrow.projection| - j
  {
    if j < |borrow.projection| && j < |access.projection| {
      TrackedComponents(tcx, borrow, kind, access, depth, bias, j + 1);
    } else if |borrow.projection| > |access.projection| {
      TrackedRemainder(tcx, borrow, depth, j);
    }
  }

  /** A tracked borrow reaches the "behind shared reference" error exactly when it goes through a
      reference to a thread-local static and that reference itself is accessed deeply or dropped. */
  lemma BehindSharedReferenceExactly(tcx: TyCtxt, exit: LocalsStateAtExit, borrow: Place, kind: BorrowKind,
                                     access: Place, depth: AccessDepth, bias: Bias)
    requires !IgnoreBorrow(tcx, exit, borrow)
    ensures BorrowConflictsWithPlace(tcx, borrow, kind, access, depth, bias).BehindSharedReference?
        <==> && access == LocalPlace(borrow.local)
             && !depth.Shallow?
             && borrow.projection != [] && borrow.projection[0].Deref?
             && KindOf(tcx, borrow.local, []) == RefTy(false)
  {
    if borrow.local == access.local && borrow.projection != [] {
      if |access.projection| > 0 {
        TrackedComponents(tcx, borrow, kind, access, depth, bias, 0);
      } else {
        assert borrow.projection[..0] == [];
        TrackedRemainder(tcx, borrow, depth, 1);
      }
    }
  }

  /** For well-typed places and a tracked borrow that is not taken through a thread-local
      reference, the procedure always answers. */
  lemma AlwaysAnswers(tcx: TyCtxt, exit: LocalsStateAtExit, borrow: Place, kind: BorrowKind,
                      access: Place, depth: AccessDepth, bias: Bias)
    requires WellTyped(tcx, borrow) && WellTyped(tcx, access)
    requires SubsliceLast(borrow) && SubsliceLast(access)
    requires !IgnoreBorrow(tcx, exit, borrow)
    requires borrow.local !in tcx.threadLocalRefs
    ensures BorrowConflictsWithPlace(tcx, borrow, kind, access, depth, bias).Conflicts?
  {
    BehindSharedReferenceExactly(tcx, exit, borrow, kind, access, depth, bias);
    if borrow.local == access.local {
      NoMismatch(tcx, borrow, kind, access, depth, bias, 0);
    }
    if borrow.projection != [] && borrow.projection[0].Deref? {
      assert borrow.projection[..0] == [];
      TrackedDerefs(tcx, borrow, 0, 0);
    }
  }
}
