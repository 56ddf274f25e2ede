/** A positive answer of the overlap procedure: when it is the truth for some valuation, and when it is
    the truth for every valuation, which is what a kill of an overwritten loan needs. */
module OverlapExactness {
  import opened Mir
  import opened PlacesConflict
  import opened Footprint
  import opened OverlapSoundness

  // ---------------------------------------------------------------- static conditions

  /** The parameters of an element are those of a pattern that can match. */
  predicate Sane(e: ProjectionElem) {
    match e
    case ConstantIndex(o, min, false) => o < min
    case ConstantIndex(o, min, true) => 1 <= o <= min
    case Subslice(from, to, false) => from <= to
    case _ => true
  }

  ghost predicate AllSane(place: Place) {
    forall j :: 0 <= j < |place.projection| ==> Sane(place.projection[j])
  }

  ghost predicate UnionFree(tcx: TyCtxt, place: Place) {
    forall j :: 0 <= j < |place.projection| ==> !IsUnion(KindOf(tcx, place.local, place.projection[..j]))
  }

  ghost predicate IndexFree(place: Place) {
    forall j :: 0 <= j < |place.projection| ==> !place.projection[j].Index?
  }

  /** Two elements judged equal or disjoint select something in common however long the slice is. */
  predicate Definite(e1: ProjectionElem, e2: ProjectionElem) {
    match (e1, e2)
    case (ConstantIndex(_, _, end1), ConstantIndex(_, _, end2)) => end1 == end2
    case (ConstantIndex(o, min, end), Subslice(from, to, subEnd)) => IndexDefinite(o, min, end, from, to, subEnd)
    case (Subslice(from, to, subEnd), ConstantIndex(o, min, end)) => IndexDefinite(o, min, end, from, to, subEnd)
    case (Subslice(f1, t1, false), Subslice(f2, t2, false)) => f1 < t1 && f2 < t2
    case (Subslice(f1, t1, false), Subslice(f2, t2, true)) => f1 + t2 < t1 && f2 + t2 < t1
    case (Subslice(f1, t1, true), Subslice(f2, t2, false)) => f2 + t1 < t2 && f1 + t1 < t2
    case (Subslice(_, _, true), Subslice(_, _, true)) => false
    case _ => !e1.Index? && !e2.Index?
  }

  predicate IndexDefinite(offset: nat, minLength: nat, fromEnd: bool, from: nat, to: nat, subFromEnd: bool) {
    match (fromEnd, subFromEnd)
    case (_, false) => true
    case (false, true) => offset + to < minLength
    case (true, true) => from + offset <= minLength
  }

  /** An element that is certain to select something. */
  predicate DefiniteAlone(e: ProjectionElem) {
    match e
    case Subslice(from, to, fromEnd) => !fromEnd && from < to
    case _ => true
  }

  predicate DefiniteAt(borrow: Place, access: Place, j: nat) {
    && (j < |borrow.projection| && j < |access.projection| ==> Definite(borrow.projection[j], access.projection[j]))
    && (j < |borrow.projection| && j >= |access.projection| ==> DefiniteAlone(borrow.projection[j]))
    && (j < |access.projection| && j >= |borrow.projection| ==> DefiniteAlone(access.projection[j]))
  }

  ghost predicate AllDefinite(borrow: Place, access: Place) {
    forall j: nat :: DefiniteAt(borrow, access, j)
  }

  // ---------------------------------------------------------------- bounds of single elements

  lemma {:induction false} FitsPrefix(len: Lengths, indices: Indices, local: Local, projection: seq<ProjectionElem>,
                                      i: nat)
    requires ViewOf(len, indices, local, projection).Some? && i <= |projection|
    ensures ViewOf(len, indices, local, projection[..i]).Some?
    decreases |projection|
  {
    if i < |projection| {
      var front := projection[..|projection| - 1];
      assert front[..i] == projection[..i];
      FitsPrefix(len, indices, local, front, i);
    } else {
      assert projection[..i] == projection;
    }
  }

  /** In a place that fits, each element is within the bounds of the node it is applied to. */
  lemma FitsAt(len: Lengths, indices: Indices, place: Place, path: seq<Step>, j: nat)
    requires SubsliceLast(place) && Fits(len, indices, place)
    requires j < |place.projection|
    requires Pointwise(len, indices, place.local, place.projection[..j], path) && |path| == j
    ensures ElemInBounds(indices, len(Node(place.local, path)), place.projection[j])
  {
    FitsPrefix(len, indices, place.local, place.projection, j);
    FitsPrefix(len, indices, place.local, place.projection, j + 1);
    WholePointwise(len, indices, place.local, place.projection[..j], path);
    assert path[..j] == path;
    assert place.projection[..j + 1][..j] == place.projection[..j];
  }

  /** Conversely, elements within bounds wherever they are applied make a place fit. */
  lemma {:induction false} FitsByDepth(len: Lengths, indices: Indices, place: Place, k: nat)
    requires SubsliceLast(place) && k <= |place.projection|
    requires forall j, path: seq<Step> ::
               0 <= j < k && |path| == j && Pointwise(len, indices, place.local, place.projection[..j], path) ==>
               ElemInBounds(indices, len(Node(place.local, path)), place.projection[j])
    ensures ViewOf(len, indices, place.local, place.projection[..k]).Some?
  {
    if k > 0 {
      FitsByDepth(len, indices, place, k - 1);
      var path := PrefixPath(len, indices, place, k - 1);
      FitsOneMore(len, indices, place, k - 1, path);
    }
  }

  /** The path of the node before element `k`. */
  lemma PrefixPath(len: Lengths, indices: Indices, place: Place, k: nat) returns (path: seq<Step>)
    requires SubsliceLast(place) && k < |place.projection|
    requires ViewOf(len, indices, place.local, place.projection[..k]).Some?
    ensures ViewOf(len, indices, place.local, place.projection[..k]) == Some(Whole(path))
    ensures |path| == k && Pointwise(len, indices, place.local, place.projection[..k], path)
  {
    WholeView(len, indices, place.local, place.projection[..k]);
    path := ViewOf(len, indices, place.local, place.projection[..k]).value.path;
  }

  lemma FitsOneMore(len: Lengths, indices: Indices, place: Place, k: nat, path: seq<Step>)
    requires k < |place.projection|
    requires ViewOf(len, indices, place.local, place.projection[..k]) == Some(Whole(path))
    requires ElemInBounds(indices, len(Node(place.local, path)), place.projection[k])
    ensures ViewOf(len, indices, place.local, place.projection[..k + 1]).Some?
  {
    assert place.projection[..k + 1][..k] == place.projection[..k];
  }

  // ---------------------------------------------------------------- a node in common

  ghost predicate StandsForBoth(len: Lengths, bi: Indices, ai: Indices, borrow: Place, access: Place, path: seq<Step>,
                                j: nat)
    requires j < |path|
  {
    && (j < |borrow.projection| ==> Stands(len, bi, Node(borrow.local, path[..j]), borrow.projection[j], path[j]))
    && (j < |access.projection| ==> Stands(len, ai, Node(access.local, path[..j]), access.projection[j], path[j]))
  }

  ghost predicate CommonPath(len: Lengths, bi: Indices, ai: Indices, borrow: Place, access: Place, path: seq<Step>) {
    forall j :: 0 <= j < |path| ==> StandsForBoth(len, bi, ai, borrow, access, path, j)
  }

  lemma CommonPathExtend(len: Lengths, bi: Indices, ai: Indices, borrow: Place, access: Place, path: seq<Step>, s: Step)
    requires CommonPath(len, bi, ai, borrow, access, path)
    requires StandsForBoth(len, bi, ai, borrow, access, path + [s], |path|)
    ensures CommonPath(len, bi, ai, borrow, access, path + [s])
  {
    var longer := path + [s];
    forall j | 0 <= j < |longer|
      ensures StandsForBoth(len, bi, ai, borrow, access, longer, j)
    {
      if j < |path| {
        assert longer[..j] == path[..j];
        assert StandsForBoth(len, bi, ai, borrow, access, path, j);
      }
    }
  }

  lemma CommonPathPointwise(len: Lengths, bi: Indices, ai: Indices, borrow: Place, access: Place, path: seq<Step>)
    requires CommonPath(len, bi, ai, borrow, access, path)
    ensures |path| <= |borrow.projection| ==> Pointwise(len, bi, borrow.local, borrow.projection[..|path|], path)
    ensures |path| <= |access.projection| ==> Pointwise(len, ai, access.local, access.projection[..|path|], path)
    ensures |path| >= |borrow.projection| ==> Pointwise(len, bi, borrow.local, borrow.projection, path)
    ensures |path| >= |access.projection| ==> Pointwise(len, ai, access.local, access.projection, path)
  {
    forall j | 0 <= j < |path|
      ensures j < |borrow.projection| ==> Stands(len, bi, Node(borrow.local, path[..j]), borrow.projection[j], path[j])
      ensures j < |access.projection| ==> Stands(len, ai, Node(access.local, path[..j]), access.projection[j], path[j])
    {
      assert StandsForBoth(len, bi, ai, borrow, access, path, j);
    }
  }

  /** A step for two definite elements that passed. */
  lemma DefiniteStep(len: Lengths, bi: Indices, ai: Indices, base: Node, kind: TyKind, bias: Bias,
                     e1: ProjectionElem, e2: ProjectionElem) returns (s: Step)
    requires PlaceProjectionConflict(kind, e1, e2, bias) == EqualOrDisjoint
    requires Definite(e1, e2)
    requires ElemInBounds(bi, len(base), e1) && ElemInBounds(ai, len(base), e2)
    ensures Stands(len, bi, base, e1, s) && Stands(len, ai, base, e2, s)
  {
    s := StepOf(ai, len(base), if e1.Subslice? then e2 else e1);
    if e1.Subslice? && e2.Subslice? {
      s := SElem(Max(e1.from, e2.from));
    }
  }

  /** The step an element stands for, the first one when there are several. */
  function StepOf(indices: Indices, length: nat, e: ProjectionElem): Step {
    match e
    case Deref => SDeref
    case Field(f) => SField(f)
    case Index(l) => SElem(indices(l))
    case ConstantIndex(o, _, fromEnd) => SElem(if fromEnd && o <= length then length - o else o)
    case Subslice(from, _, _) => SElem(from)
    case Downcast(v) => SVariant(v)
    case OpaqueCast => SCast
    case Subtype => SSubtype
  }

  /** For two definite places that passed, a path that stands for the first `k` elements of both. */
  lemma {:induction false} DefinitePath(tcx: TyCtxt, len: Lengths, bi: Indices, ai: Indices, borrow: Place,
                                        access: Place, bias: Bias, k: nat) returns (path: seq<Step>)
    requires borrow.local == access.local
    requires SubsliceLast(borrow) && SubsliceLast(access)
    requires Fits(len, bi, borrow) && Fits(len, ai, access)
    requires LockstepPassed(tcx, borrow, access, bias)
    requires AllDefinite(borrow, access)
    requires k <= Max(|borrow.projection|, |access.projection|)
    ensures |path| == k && CommonPath(len, bi, ai, borrow, access, path)
  {
    if k == 0 {
      path := [];
    } else {
      var j := k - 1;
      path := DefinitePath(tcx, len, bi, ai, borrow, access, bias, j);
      CommonPathPointwise(len, bi, ai, borrow, access, path);
      var base := Node(borrow.local, path);
      if j < |borrow.projection| {
        FitsAt(len, bi, borrow, path, j);
      }
      if j < |access.projection| {
        FitsAt(len, ai, access, path, j);
      }
      assert DefiniteAt(borrow, access, j);
      var s;
      if j < |borrow.projection| && j < |access.projection| {
        s := DefiniteStep(len, bi, ai, base, KindOf(tcx, borrow.local, borrow.projection[..j]), bias,
                          borrow.projection[j], access.projection[j]);
      } else if j < |borrow.projection| {
        s := StepOf(bi, len(base), borrow.projection[j]);
      } else {
        s := StepOf(ai, len(base), access.projection[j]);
      }
      assert (path + [s])[..j] == path;
      CommonPathExtend(len, bi, ai, borrow, access, path, s);
      path := path + [s];
    }
  }

  /** The lockstep walk passes every pair of elements. */
  ghost predicate LockstepPassed(tcx: TyCtxt, borrow: Place, access: Place, bias: Bias) {
    forall j :: 0 <= j < |borrow.projection| && j < |access.projection| ==>
      PlaceProjectionConflict(KindOf(tcx, borrow.local, borrow.projection[..j]),
                              borrow.projection[j], access.projection[j], bias) == EqualOrDisjoint
  }

  /** Where the walk stops at different fields of one union, if it does. */
  function Parting(tcx: TyCtxt, borrow: Place, access: Place, bias: Bias, j: nat): Option<nat>
    requires j <= |borrow.projection| && j <= |access.projection|
    decreases |borrow.projection| - j
  {
    if j < |borrow.projection| && j < |access.projection| then
      match PlaceProjectionConflict(KindOf(tcx, borrow.local, borrow.projection[..j]),
                                    borrow.projection[j], access.projection[j], bias)
      case Arbitrary => Some(j)
      case EqualOrDisjoint => Parting(tcx, borrow, access, bias, j + 1)
      case _ => None
    else None
  }

  lemma {:induction false} PartingIs(tcx: TyCtxt, borrow: Place, access: Place, bias: Bias, j: nat)
    requires j <= |borrow.projection| && j <= |access.projection|
    requires Passed(tcx, borrow, access, bias, j)
    ensures match Parting(tcx, borrow, access, bias, j)
            case Some(u) =>
              && u < |borrow.projection| && u < |access.projection| && Passed(tcx, borrow, access, bias, u)
              && PlaceProjectionConflict(KindOf(tcx, borrow.local, borrow.projection[..u]),
                                         borrow.projection[u], access.projection[u], bias) == Arbitrary
            case None => true
    decreases |borrow.projection| - j
  {
    if j < |borrow.projection| && j < |access.projection| {
      if PlaceProjectionConflict(KindOf(tcx, borrow.local, borrow.projection[..j]),
                                 borrow.projection[j], access.projection[j], bias) == EqualOrDisjoint {
        PartingIs(tcx, borrow, access, bias, j + 1);
      }
    }
  }

  lemma {:induction false} UnionFreeNeverParts(tcx: TyCtxt, borrow: Place, access: Place, bias: Bias, j: nat)
    requires UnionFree(tcx, borrow)
    requires j <= |borrow.projection| && j <= |access.projection|
    ensures Parting(tcx, borrow, access, bias, j).None?
    decreases |borrow.projection| - j
  {
    if j < |borrow.projection| && j < |access.projection| {
      UnionFreeNeverParts(tcx, borrow, access, bias, j + 1);
    }
  }

  /** Unless the places part at a union, a positive answer means that every pair passed and that the ends conflict. */
  lemma {:induction false} PositiveAnswer(tcx: TyCtxt, borrow: Place, kind: BorrowKind, access: Place,
                                          depth: AccessDepth, bias: Bias, j: nat)
    requires j <= |borrow.projection| && j <= |access.projection|
    requires Parting(tcx, borrow, access, bias, j).None?
    requires Passed(tcx, borrow, access, bias, j)
    requires PlaceComponentsConflict(tcx, borrow, kind, access, depth, bias, j) == Conflicts(true)
    ensures LockstepPassed(tcx, borrow, access, bias)
    ensures |borrow.projection| > |access.projection| ==>
              RemainderConflict(tcx, borrow, depth, |access.projection|) == Conflicts(true)
    ensures |borrow.projection| < |access.projection| ==> kind != Fake(ShallowFake)
    decreases |borrow.projection| - j
  {
    if j < |borrow.projection| && j < |access.projection| {
      assert PlaceProjectionConflict(KindOf(tcx, borrow.local, borrow.projection[..j]),
                                     borrow.projection[j], access.projection[j], bias) == EqualOrDisjoint;
      PositiveAnswer(tcx, borrow, kind, access, depth, bias, j + 1);
    } else if |borrow.projection| > |access.projection| {
      assert j == |access.projection|;
    }
  }

  /** A shallow access conflicts with what is left of a borrow only when no pointer is left. */
  lemma {:induction false} NoPointerLeft(tcx: TyCtxt, borrow: Place, depth: AccessDepth, j: nat)
    requires j <= |borrow.projection|
    requires depth.Shallow?
    requires RemainderConflict(tcx, borrow, depth, j) == Conflicts(true)
    ensures forall i :: j <= i < |borrow.projection| ==> !borrow.projection[i].Deref?
    ensures depth.artificial.Some? ==> j == |borrow.projection|
    decreases |borrow.projection| - j
  {
    if j < |borrow.projection| {
      NoPointerLeft(tcx, borrow, depth, j + 1);
    }
  }

  /** One element of the remainder. */
  lemma DropReachesHere(tcx: TyCtxt, len: Lengths, bi: Indices, borrow: Place, path: seq<Step>, j: nat)
    requires SubsliceLast(borrow) && WellTyped(tcx, borrow) && UnionFree(tcx, borrow)
    requires !IgnoredDeref(tcx, borrow, 0)
    requires Pointwise(len, bi, borrow.local, borrow.projection, path)
    requires j < |path| == |borrow.projection|
    requires RemainderConflict(tcx, borrow, DropDepth, j) == Conflicts(true)
    requires RemainderConflict(tcx, borrow, DropDepth, j + 1) == Conflicts(true) ==>
               DropTouches(tcx, borrow.local, path[..j + 1], path[j + 1..])
    ensures DropTouches(tcx, borrow.local, path[..j], path[j..])
  {
    NodeKindOfPrefix(tcx, len, bi, borrow, path, j);
    assert Stands(len, bi, Node(borrow.local, path[..j]), borrow.projection[j], path[j]);
    assert ElemFitsKind(KindOf(tcx, borrow.local, borrow.projection[..j]), borrow.projection[j]);
    if borrow.projection[j].Deref? {
      TrackedDerefs(tcx, borrow, 0, j);
    }
    assert path[..j] + [path[j]] == path[..j + 1];
    assert path[j..][1..] == path[j + 1..];
  }

  /** A drop that conflicts with what is left of a borrow reaches the borrowed place. */
  lemma {:induction false} DropReaches(tcx: TyCtxt, len: Lengths, bi: Indices, borrow: Place, path: seq<Step>, j: nat)
    requires SubsliceLast(borrow) && WellTyped(tcx, borrow) && UnionFree(tcx, borrow)
    requires !IgnoredDeref(tcx, borrow, 0)
    requires Pointwise(len, bi, borrow.local, borrow.projection, path)
    requires j <= |path| == |borrow.projection|
    requires RemainderConflict(tcx, borrow, DropDepth, j) == Conflicts(true)
    ensures DropTouches(tcx, borrow.local, path[..j], path[j..])
    decreases |path| - j
  {
    if j < |path| {
      if RemainderConflict(tcx, borrow, DropDepth, j + 1) == Conflicts(true) {
        DropReaches(tcx, len, bi, borrow, path, j + 1);
      }
      DropReachesHere(tcx, len, bi, borrow, path, j);
    }
  }

  /** A path that stands for both places is a node of both footprints when the answer is positive. */
  lemma CommonNode(tcx: TyCtxt, len: Lengths, bi: Indices, ai: Indices, borrow: Place, kind: BorrowKind,
                   access: Place, depth: AccessDepth, bias: Bias, path: seq<Step>)
    requires borrow.local == access.local
    requires SubsliceLast(borrow) && SubsliceLast(access)
    requires Fits(len, bi, borrow) && Fits(len, ai, access)
    requires depth.Deep? || (WellTyped(tcx, borrow) && UnionFree(tcx, borrow) && !IgnoredDeref(tcx, borrow, 0))
    requires Parting(tcx, borrow, access, bias, 0).None?
    requires PlaceComponentsConflict(tcx, borrow, kind, access, depth, bias, 0) == Conflicts(true)
    requires |path| == Max(|borrow.projection|, |access.projection|)
    requires CommonPath(len, bi, ai, borrow, access, path)
    ensures Intersect(tcx, len, bi, ai, borrow, kind, access, depth)
  {
    PositiveAnswer(tcx, borrow, kind, access, depth, bias, 0);
    CommonPathPointwise(len, bi, ai, borrow, access, path);
    var node := Node(borrow.local, path);
    BelowPointwise(len, bi, borrow, node);
    BelowPointwise(len, ai, access, node);
    var a := |access.projection|;
    if |borrow.projection| > a {
      if depth.Shallow? {
        NoPointerLeft(tcx, borrow, depth, a);
        forall i | a <= i < |path|
          ensures path[i] != SDeref
        {
          assert Stands(len, bi, Node(borrow.local, path[..i]), borrow.projection[i], path[i]);
        }
      } else if depth.DropDepth? {
        DropReaches(tcx, len, bi, borrow, path, a);
      }
    }
    assert InBorrow(len, bi, borrow, kind, node);
    assert InAccess(tcx, len, ai, access, depth, node);
    assert Meets(tcx, len, bi, ai, borrow, kind, access, depth, node, node);
  }

  /** The answer is exact, in every valuation, for union-free places whose elements are definite. */
  lemma ExactWhenDefinite(tcx: TyCtxt, len: Lengths, bi: Indices, ai: Indices, borrow: Place, kind: BorrowKind,
                          access: Place, depth: AccessDepth)
    requires WellTyped(tcx, borrow) && WellTyped(tcx, access)
    requires SubsliceLast(borrow) && SubsliceLast(access)
    requires Fits(len, bi, borrow) && Fits(len, ai, access)
    requires UnionFree(tcx, borrow)
    requires !IgnoredDeref(tcx, borrow, 0) && borrow.local !in tcx.threadLocalRefs
    requires AllDefinite(borrow, access)
    ensures BorrowConflictsWithPlace(tcx, borrow, kind, access, depth, BiasOverlap)
            == Conflicts(Intersect(tcx, len, bi, ai, borrow, kind, access, depth))
  {
    var answer := BorrowConflictsWithPlace(tcx, borrow, kind, access, depth, BiasOverlap);
    AlwaysAnswers(tcx, AllAreInvalidated, borrow, kind, access, depth, BiasOverlap);
    if answer == Conflicts(true) {
      UnionFreeNeverParts(tcx, borrow, access, BiasOverlap, 0);
      PositiveAnswer(tcx, borrow, kind, access, depth, BiasOverlap, 0);
      var path := DefinitePath(tcx, len, bi, ai, borrow, access, BiasOverlap,
                               Max(|borrow.projection|, |access.projection|));
      CommonNode(tcx, len, bi, ai, borrow, kind, access, depth, BiasOverlap, path);
    } else {
      OverlapSound(tcx, len, bi, ai, borrow, kind, access, depth);
    }
  }

  /** The static fragment: no index locals, no indices from the end, no empty subslices. */
  predicate StaticElem(e: ProjectionElem) {
    match e
    case Index(_) => false
    case ConstantIndex(_, _, fromEnd) => !fromEnd
    case Subslice(from, to, fromEnd) => !fromEnd && from < to
    case _ => true
  }

  ghost predicate Static(place: Place) {
    forall j :: 0 <= j < |place.projection| ==> StaticElem(place.projection[j])
  }

  lemma StaticExact(tcx: TyCtxt, len: Lengths, bi: Indices, ai: Indices, borrow: Place, kind: BorrowKind,
                    access: Place, depth: AccessDepth)
    requires WellTyped(tcx, borrow) && WellTyped(tcx, access)
    requires SubsliceLast(borrow) && SubsliceLast(access)
    requires Fits(len, bi, borrow) && Fits(len, ai, access)
    requires UnionFree(tcx, borrow)
    requires !IgnoredDeref(tcx, borrow, 0) && borrow.local !in tcx.threadLocalRefs
    requires Static(borrow) && Static(access)
    ensures BorrowConflictsWithPlace(tcx, borrow, kind, access, depth, BiasOverlap)
            == Conflicts(Intersect(tcx, len, bi, ai, borrow, kind, access, depth))
  {
    forall j: nat
      ensures DefiniteAt(borrow, access, j)
    {
      if j < |borrow.projection| {
        assert StaticElem(borrow.projection[j]);
      }
      if j < |access.projection| {
        assert StaticElem(access.projection[j]);
      }
    }
    ExactWhenDefinite(tcx, len, bi, ai, borrow, kind, access, depth);
  }

  // ---------------------------------------------------------------- when a kill is certain

  /** The least length at which an element is within bounds. */
  function MinLength(e: ProjectionElem): nat {
    match e
    case Index(_) => 1
    case ConstantIndex(_, min, _) => min
    case Subslice(from, to, fromEnd) => if fromEnd then from + to else to
    case _ => 0
  }

  function MinLengthAt(place: Place, j: nat): nat {
    if j < |place.projection| then MinLength(place.projection[j]) else 0
  }

  /** Lengths by depth: `special` at depth `j`, elsewhere enough for both places. */
  function LengthsByDepth(borrow: Place, access: Place, j: nat, special: nat): Lengths {
    (node: Node) =>
      if |node.path| == j then special
      else MinLengthAt(borrow, |node.path|) + MinLengthAt(access, |node.path|)
  }

  function ZeroIndices(): Indices {
    (local: Local) => 0
  }

  lemma FitsLengthsByDepth(borrow: Place, access: Place, j: nat, special: nat)
    requires SubsliceLast(borrow) && SubsliceLast(access)
    requires AllSane(borrow) && AllSane(access)
    requires MinLengthAt(borrow, j) <= special && MinLengthAt(access, j) <= special
    ensures Fits(LengthsByDepth(borrow, access, j, special), ZeroIndices(), borrow)
    ensures Fits(LengthsByDepth(borrow, access, j, special), ZeroIndices(), access)
  {
    var len := LengthsByDepth(borrow, access, j, special);
    FitsByDepth(len, ZeroIndices(), borrow, |borrow.projection|);
    FitsByDepth(len, ZeroIndices(), access, |access.projection|);
    assert borrow.projection[..|borrow.projection|] == borrow.projection;
    assert access.projection[..|access.projection|] == access.projection;
  }

  /** A length at which two elements that are not definite select nothing in common. */
  function SeparatingLength(e1: ProjectionElem, e2: ProjectionElem): nat {
    var least := Max(MinLength(e1), MinLength(e2));
    match (e1, e2)
    case (ConstantIndex(o1, _, _), ConstantIndex(o2, _, _)) => if least == o1 + o2 then least + 1 else least
    case _ => least
  }

  lemma Separated(kind: TyKind, e1: ProjectionElem, e2: ProjectionElem, base: Node, len: Lengths, s: Step)
    requires PlaceProjectionConflict(kind, e1, e2, BiasNoOverlap) == EqualOrDisjoint
    requires Sane(e1) && Sane(e2) && !Definite(e1, e2)
    requires len(base) == SeparatingLength(e1, e2)
    ensures !(Stands(len, ZeroIndices(), base, e1, s) && Stands(len, ZeroIndices(), base, e2, s))
  {
  }

  /** Nodes that part at a pair the procedure passed do not part at fields of a union. */
  lemma {:induction false} PassedHere(tcx: TyCtxt, len: Lengths, bi: Indices, ai: Indices, borrow: Place, access: Place,
                                      bias: Bias, m: Node, n: Node, i: nat)
    requires borrow.local == access.local == m.local == n.local
    requires SubsliceLast(borrow) && SubsliceLast(access)
    requires Pointwise(len, bi, borrow.local, borrow.projection, m.path)
    requires Pointwise(len, ai, access.local, access.projection, n.path)
    requires i < |borrow.projection| && i < |access.projection|
    requires Passed(tcx, borrow, access, bias, i + 1)
    requires m.path[..i] == n.path[..i] && m.path[i] != n.path[i]
    ensures !SameStorage(tcx, m, n)
  {
    assert Stands(len, bi, Node(borrow.local, m.path[..i]), borrow.projection[i], m.path[i]);
    assert Stands(len, ai, Node(access.local, n.path[..i]), access.projection[i], n.path[i]);
    assert PlaceProjectionConflict(KindOf(tcx, borrow.local, borrow.projection[..i]),
                                   borrow.projection[i], access.projection[i], bias) == EqualOrDisjoint;
    Apart(tcx, m, n, i);
  }

  lemma {:induction false} PassedApart(tcx: TyCtxt, len: Lengths, bi: Indices, ai: Indices, borrow: Place,
                                       access: Place, bias: Bias, m: Node, n: Node, i: nat, j: nat)
    requires borrow.local == access.local == m.local == n.local
    requires SubsliceLast(borrow) && SubsliceLast(access)
    requires Pointwise(len, bi, borrow.local, borrow.projection, m.path)
    requires Pointwise(len, ai, access.local, access.projection, n.path)
    requires i <= j < |borrow.projection| && j < |access.projection|
    requires Passed(tcx, borrow, access, bias, j + 1)
    requires m.path[..i] == n.path[..i]
    requires !borrow.projection[j].Field?
    requires m.path[j] != n.path[j] || m.path[..j] != n.path[..j]
    ensures !SameStorage(tcx, m, n)
    decreases j - i
  {
    if m.path[i] != n.path[i] {
      PassedHere(tcx, len, bi, ai, borrow, access, bias, m, n, i);
    } else {
      NextPair(m, n, i);
      PassedApart(tcx, len, bi, ai, borrow, access, bias, m, n, i + 1, j);
    }
  }

  /** One pair that is not definite is enough for a valuation without anything in common. */
  lemma NotCertain(tcx: TyCtxt, borrow: Place, access: Place, j: nat) returns (len: Lengths)
    requires borrow.local == access.local
    requires SubsliceLast(borrow) && SubsliceLast(access)
    requires AllSane(borrow) && AllSane(access)
    requires j < |borrow.projection| && j < |access.projection| ==> Passed(tcx, borrow, access, BiasNoOverlap, j + 1)
    requires !DefiniteAt(borrow, access, j)
    ensures Fits(len, ZeroIndices(), borrow) && Fits(len, ZeroIndices(), access)
    ensures !Intersect(tcx, len, ZeroIndices(), ZeroIndices(), borrow, Mut(TwoPhaseBorrow), access, Deep)
  {
    var both := j < |borrow.projection| && j < |access.projection|;
    var special := if both then SeparatingLength(borrow.projection[j], access.projection[j])
                   else Max(MinLengthAt(borrow, j), MinLengthAt(access, j));
    len := LengthsByDepth(borrow, access, j, special);
    FitsLengthsByDepth(borrow, access, j, special);
    forall m, n | InBorrow(len, ZeroIndices(), borrow, Mut(TwoPhaseBorrow), m)
                  && InAccess(tcx, len, ZeroIndices(), access, Deep, n)
      ensures !SameStorage(tcx, m, n)
    {
      BelowPointwise(len, ZeroIndices(), borrow, m);
      BelowPointwise(len, ZeroIndices(), access, n);
      if both {
        var base := Node(borrow.local, m.path[..j]);
        assert Stands(len, ZeroIndices(), base, borrow.projection[j], m.path[j]);
        assert Stands(len, ZeroIndices(), Node(access.local, n.path[..j]), access.projection[j], n.path[j]);
        Separated(KindOf(tcx, borrow.local, borrow.projection[..j]), borrow.projection[j], access.projection[j],
                  base, len, m.path[j]);
        PassedApart(tcx, len, ZeroIndices(), ZeroIndices(), borrow, access, BiasNoOverlap, m, n, 0, j);
      }
    }
  }

  /** The footprints intersect in every valuation both places fit. */
  ghost predicate CertainOverlap(tcx: TyCtxt, borrow: Place, access: Place) {
    forall len, bi, ai :: Fits(len, bi, borrow) && Fits(len, ai, access) ==>
      Intersect(tcx, len, bi, ai, borrow, Mut(TwoPhaseBorrow), access, Deep)
  }

  // ---------------------------------------------------------------- below different fields of a union

  predicate AloneAt(place: Place, j: nat) {
    j < |place.projection| ==> DefiniteAlone(place.projection[j])
  }

  /** The elements at depth `j` are definite: together up to where the places part at a union, and each on its own
      below different fields of the union. */
  predicate SettledAt(borrow: Place, access: Place, parting: Option<nat>, j: nat) {
    if parting.Some? && j > parting.value then AloneAt(borrow, j) && AloneAt(access, j)
    else DefiniteAt(borrow, access, j)
  }

  ghost predicate Settled(tcx: TyCtxt, borrow: Place, access: Place) {
    forall j: nat :: SettledAt(borrow, access, Parting(tcx, borrow, access, BiasNoOverlap, 0), j)
  }

  function Truncated(place: Place, k: nat): Place
    requires k <= |place.projection|
  {
    Place(place.local, place.projection[..k])
  }

  /** A path for both places up to where they part. */
  lemma CommonStart(tcx: TyCtxt, len: Lengths, bi: Indices, ai: Indices, borrow: Place, access: Place, u: nat)
    returns (path: seq<Step>)
    requires borrow.local == access.local && SubsliceLast(borrow) && SubsliceLast(access)
    requires Fits(len, bi, borrow) && Fits(len, ai, access)
    requires u <= |borrow.projection| && u <= |access.projection| && Passed(tcx, borrow, access, BiasNoOverlap, u)
    requires forall j :: 0 <= j < u ==> DefiniteAt(borrow, access, j)
    ensures |path| == u
    ensures Pointwise(len, bi, borrow.local, borrow.projection[..u], path)
    ensures Pointwise(len, ai, access.local, access.projection[..u], path)
  {
    var borrow', access' := Truncated(borrow, u), Truncated(access, u);
    FitsPrefix(len, bi, borrow.local, borrow.projection, u);
    FitsPrefix(len, ai, access.local, access.projection, u);
    forall j | 0 <= j < u
      ensures PlaceProjectionConflict(KindOf(tcx, borrow'.local, borrow'.projection[..j]),
                                      borrow'.projection[j], access'.projection[j], BiasNoOverlap) == EqualOrDisjoint
    {
      assert borrow'.projection[..j] == borrow.projection[..j];
    }
    forall j: nat
      ensures DefiniteAt(borrow', access', j)
    {
      if j < u {
        assert DefiniteAt(borrow, access, j);
      }
    }
    path := DefinitePath(tcx, len, bi, ai, borrow', access', BiasNoOverlap, u);
    CommonPathPointwise(len, bi, ai, borrow', access', path);
  }

  lemma AloneStep(len: Lengths, indices: Indices, place: Place, path: seq<Step>) returns (s: Step)
    requires SubsliceLast(place) && Fits(len, indices, place)
    requires |path| < |place.projection| && Pointwise(len, indices, place.local, place.projection[..|path|], path)
    requires AloneAt(place, |path|)
    ensures Pointwise(len, indices, place.local, place.projection[..|path| + 1], path + [s])
  {
    var k := |path|;
    FitsAt(len, indices, place, path, k);
    s := StepOf(indices, len(Node(place.local, path)), place.projection[k]);
    assert (path + [s])[..k] == path;
    PointwisePrefix(len, indices, place.local, place.projection[..k], path + [s]);
    PointwiseFront(len, indices, place.local, place.projection[..k], place.projection[k], path + [s]);
    assert place.projection[..k + 1] == place.projection[..k] + [place.projection[k]];
  }

  /** Elements that are definite on their own lead on from any path for what comes before them. */
  lemma {:induction false} AlonePath(len: Lengths, indices: Indices, place: Place, path: seq<Step>)
    returns (longer: seq<Step>)
    requires SubsliceLast(place) && Fits(len, indices, place)
    requires |path| <= |place.projection| && Pointwise(len, indices, place.local, place.projection[..|path|], path)
    requires forall j :: |path| <= j ==> AloneAt(place, j)
    ensures |longer| == |place.projection| && Pointwise(len, indices, place.local, place.projection, longer)
    ensures longer[..|path|] == path
    decreases |place.projection| - |path|
  {
    if |path| == |place.projection| {
      assert place.projection[..|path|] == place.projection;
      longer := path;
    } else {
      var s := AloneStep(len, indices, place, path);
      longer := AlonePath(len, indices, place, path + [s]);
      assert longer[..|path|] == longer[..|path| + 1][..|path|];
    }
  }

  /** The node behind a pointer at the end of a path for a place. */
  lemma BelowPointer(len: Lengths, indices: Indices, place: Place, path: seq<Step>)
    requires SubsliceLast(place) && Fits(len, indices, place)
    requires |path| == |place.projection| && Pointwise(len, indices, place.local, place.projection, path)
    ensures Below(len, indices, place, Node(place.local, path + [SDeref]))
  {
    var longer := path + [SDeref];
    assert longer[..|path|] == path;
    PointwisePrefix(len, indices, place.local, place.projection, longer);
    BelowPointwise(len, indices, place, Node(place.local, longer));
  }

  /** Paths that part at different fields of a union, each with a pointer at its end. */
  lemma PointersPart(tcx: TyCtxt, local: Local, m: seq<Step>, n: seq<Step>, u: nat)
    requires u < |m| && u < |n| && m[..u] == n[..u] && m[u] != n[u] && m[u].SField? && n[u].SField?
    requires IsUnion(NodeKind(tcx, Node(local, m[..u])))
    ensures SameStorage(tcx, Node(local, m + [SDeref]), Node(local, n + [SDeref]))
  {
    var p, q := Node(local, m + [SDeref]), Node(local, n + [SDeref]);
    assert p.path[..u] == m[..u] && q.path[..u] == n[..u];
    assert p.path[u..][|m| - u] == SDeref && q.path[u..][|n| - u] == SDeref;
    assert PartsAtUnion(tcx, p, q, u);
  }

  /** What lies behind pointers below different fields of a union shares storage. */
  lemma PartedNodesMeet(tcx: TyCtxt, len: Lengths, bi: Indices, ai: Indices, borrow: Place, access: Place, u: nat,
                        m: seq<Step>, n: seq<Step>)
    requires borrow.local == access.local && SubsliceLast(borrow) && SubsliceLast(access)
    requires Fits(len, bi, borrow) && Fits(len, ai, access)
    requires u < |borrow.projection| && u < |access.projection|
    requires PlaceProjectionConflict(KindOf(tcx, borrow.local, borrow.projection[..u]),
                                     borrow.projection[u], access.projection[u], BiasNoOverlap) == Arbitrary
    requires |m| == |borrow.projection| && Pointwise(len, bi, borrow.local, borrow.projection, m)
    requires |n| == |access.projection| && Pointwise(len, ai, access.local, access.projection, n)
    requires m[..u] == n[..u]
    ensures Intersect(tcx, len, bi, ai, borrow, Mut(TwoPhaseBorrow), access, Deep)
  {
    BelowPointer(len, bi, borrow, m);
    BelowPointer(len, ai, access, n);
    NodeKindOfPrefix(tcx, len, bi, borrow, m, u);
    assert Stands(len, bi, Node(borrow.local, m[..u]), borrow.projection[u], m[u]);
    assert Stands(len, ai, Node(access.local, n[..u]), access.projection[u], n[u]);
    PointersPart(tcx, borrow.local, m, n, u);
    assert Meets(tcx, len, bi, ai, borrow, Mut(TwoPhaseBorrow), access, Deep,
                 Node(borrow.local, m + [SDeref]), Node(borrow.local, n + [SDeref]));
  }

  lemma SettledParts(tcx: TyCtxt, borrow: Place, access: Place, u: nat)
    requires Parting(tcx, borrow, access, BiasNoOverlap, 0) == Some(u) && Settled(tcx, borrow, access)
    ensures forall j :: 0 <= j < u ==> DefiniteAt(borrow, access, j)
    ensures forall j :: u <= j ==> AloneAt(borrow, j) && AloneAt(access, j)
  {
    PartingIs(tcx, borrow, access, BiasNoOverlap, 0);
    forall j: nat
      ensures j < u ==> DefiniteAt(borrow, access, j)
      ensures u <= j ==> AloneAt(borrow, j) && AloneAt(access, j)
    {
      assert SettledAt(borrow, access, Parting(tcx, borrow, access, BiasNoOverlap, 0), j);
    }
  }

  /** Settled places that part at a union overlap in every valuation. */
  lemma PartedIsCertain(tcx: TyCtxt, borrow: Place, access: Place, u: nat)
    requires borrow.local == access.local && SubsliceLast(borrow) && SubsliceLast(access)
    requires Parting(tcx, borrow, access, BiasNoOverlap, 0) == Some(u) && Settled(tcx, borrow, access)
    ensures CertainOverlap(tcx, borrow, access)
  {
    PartingIs(tcx, borrow, access, BiasNoOverlap, 0);
    SettledParts(tcx, borrow, access, u);
    forall len, bi, ai | Fits(len, bi, borrow) && Fits(len, ai, access)
      ensures Intersect(tcx, len, bi, ai, borrow, Mut(TwoPhaseBorrow), access, Deep)
    {
      var path := CommonStart(tcx, len, bi, ai, borrow, access, u);
      var m := AlonePath(len, bi, borrow, path);
      var n := AlonePath(len, ai, access, path);
      PartedNodesMeet(tcx, len, bi, ai, borrow, access, u, m, n);
    }
  }

  /** Lengths that are the least for each of two places that part at different fields. */
  function PartedLengths(borrow: Place, access: Place, u: nat): Lengths
    requires u < |borrow.projection| && borrow.projection[u].Field?
  {
    (node: Node) =>
      if |node.path| <= u then MinLengthAt(borrow, |node.path|) + MinLengthAt(access, |node.path|)
      else if node.path[u] == SField(borrow.projection[u].field) then MinLengthAt(borrow, |node.path|)
      else MinLengthAt(access, |node.path|)
  }

  lemma FitsPartedLengths(borrow: Place, access: Place, u: nat)
    requires SubsliceLast(borrow) && SubsliceLast(access) && AllSane(borrow) && AllSane(access)
    requires u < |borrow.projection| && u < |access.projection|
    requires borrow.projection[u].Field? && access.projection[u].Field? && borrow.projection[u] != access.projection[u]
    ensures Fits(PartedLengths(borrow, access, u), ZeroIndices(), borrow)
    ensures Fits(PartedLengths(borrow, access, u), ZeroIndices(), access)
  {
    var len := PartedLengths(borrow, access, u);
    forall j, path: seq<Step> | 0 <= j < |borrow.projection| && |path| == j
                                && Pointwise(len, ZeroIndices(), borrow.local, borrow.projection[..j], path)
      ensures ElemInBounds(ZeroIndices(), len(Node(borrow.local, path)), borrow.projection[j])
    {
      assert j > u ==> Stands(len, ZeroIndices(), Node(borrow.local, path[..u]), borrow.projection[..j][u], path[u]);
    }
    forall j, path: seq<Step> | 0 <= j < |access.projection| && |path| == j
                                && Pointwise(len, ZeroIndices(), access.local, access.projection[..j], path)
      ensures ElemInBounds(ZeroIndices(), len(Node(access.local, path)), access.projection[j])
    {
      assert j > u ==> Stands(len, ZeroIndices(), Node(access.local, path[..u]), access.projection[..j][u], path[u]);
    }
    FitsByDepth(len, ZeroIndices(), borrow, |borrow.projection|);
    FitsByDepth(len, ZeroIndices(), access, |access.projection|);
    assert borrow.projection[..|borrow.projection|] == borrow.projection;
    assert access.projection[..|access.projection|] == access.projection;
  }

  lemma NothingSelected(len: Lengths, base: Node, e: ProjectionElem, s: Step)
    requires Sane(e) && !DefiniteAlone(e) && len(base) == MinLength(e)
    ensures !Stands(len, ZeroIndices(), base, e, s)
  {
  }

  /** With the least lengths on its side, a place with an element that may select nothing has no nodes. */
  lemma NothingBelow(len: Lengths, place: Place, u: nat, j: nat, node: Node)
    requires SubsliceLast(place) && AllSane(place) && Fits(len, ZeroIndices(), place)
    requires u < j < |place.projection| && place.projection[u].Field? && !AloneAt(place, j)
    requires forall path: seq<Step> :: |path| == j && path[u] == SField(place.projection[u].field) ==>
               len(Node(place.local, path)) == MinLengthAt(place, j)
    ensures !Below(len, ZeroIndices(), place, node)
  {
    BelowPointwise(len, ZeroIndices(), place, node);
    if node.local == place.local && |node.path| >= |place.projection|
       && Stands(len, ZeroIndices(), Node(place.local, node.path[..u]), place.projection[u], node.path[u]) {
      assert node.path[..j][u] == node.path[u];
      NothingSelected(len, Node(place.local, node.path[..j]), place.projection[j], node.path[j]);
    }
  }

  /** Below different fields of a union, an element that may select nothing on its own is enough. */
  lemma NotCertainBelow(tcx: TyCtxt, borrow: Place, access: Place, u: nat, j: nat)
    requires SubsliceLast(borrow) && SubsliceLast(access) && AllSane(borrow) && AllSane(access)
    requires u < |borrow.projection| && u < |access.projection| && u < j
    requires borrow.projection[u].Field? && access.projection[u].Field? && borrow.projection[u] != access.projection[u]
    requires !AloneAt(borrow, j) || !AloneAt(access, j)
    ensures !CertainOverlap(tcx, borrow, access)
  {
    var len, kind := PartedLengths(borrow, access, u), Mut(TwoPhaseBorrow);
    FitsPartedLengths(borrow, access, u);
    forall m, n
      ensures !Meets(tcx, len, ZeroIndices(), ZeroIndices(), borrow, kind, access, Deep, m, n)
    {
      if !AloneAt(borrow, j) {
        NothingBelow(len, borrow, u, j, m);
      } else {
        NothingBelow(len, access, u, j, n);
      }
    }
    assert !Intersect(tcx, len, ZeroIndices(), ZeroIndices(), borrow, kind, access, Deep);
  }

  /** Places that are not settled are apart in some valuation. */
  lemma UnsettledIsNotCertain(tcx: TyCtxt, borrow: Place, access: Place, j: nat)
    requires borrow.local == access.local && SubsliceLast(borrow) && SubsliceLast(access)
    requires AllSane(borrow) && AllSane(access)
    requires Parting(tcx, borrow, access, BiasNoOverlap, 0).Some? || LockstepPassed(tcx, borrow, access, BiasNoOverlap)
    requires !SettledAt(borrow, access, Parting(tcx, borrow, access, BiasNoOverlap, 0), j)
    ensures !CertainOverlap(tcx, borrow, access)
  {
    PartingIs(tcx, borrow, access, BiasNoOverlap, 0);
    var parting := Parting(tcx, borrow, access, BiasNoOverlap, 0);
    if parting.Some? && j > parting.value {
      NotCertainBelow(tcx, borrow, access, parting.value, j);
    } else {
      IndefiniteIsNotCertain(tcx, borrow, access, j);
    }
  }

  lemma IndefiniteIsNotCertain(tcx: TyCtxt, borrow: Place, access: Place, j: nat)
    requires borrow.local == access.local && SubsliceLast(borrow) && SubsliceLast(access)
    requires AllSane(borrow) && AllSane(access)
    requires j < |borrow.projection| && j < |access.projection| ==> Passed(tcx, borrow, access, BiasNoOverlap, j + 1)
    requires !DefiniteAt(borrow, access, j)
    ensures !CertainOverlap(tcx, borrow, access)
  {
    var len := NotCertain(tcx, borrow, access, j);
  }

  /** A positive answer under the bias against overlap, as it is used to kill overwritten loans, means
      that the two places certainly overlap if and only if all elements are definite. */
  lemma CertainExactly(tcx: TyCtxt, borrow: Place, access: Place)
    requires SubsliceLast(borrow) && SubsliceLast(access)
    requires AllSane(borrow) && AllSane(access)
    requires PlacesConflictAnswer(tcx, borrow, access, BiasNoOverlap) == Conflicts(true)
    ensures CertainOverlap(tcx, borrow, access) <==> Settled(tcx, borrow, access)
  {
    var kind := Mut(TwoPhaseBorrow);
    var parting := Parting(tcx, borrow, access, BiasNoOverlap, 0);
    assert PlaceComponentsConflict(tcx, borrow, kind, access, Deep, BiasNoOverlap, 0) == Conflicts(true);
    if parting.None? {
      PositiveAnswer(tcx, borrow, kind, access, Deep, BiasNoOverlap, 0);
    }
    if !Settled(tcx, borrow, access) {
      var j: nat :| !SettledAt(borrow, access, parting, j);
      UnsettledIsNotCertain(tcx, borrow, access, j);
    } else if parting.Some? {
      PartedIsCertain(tcx, borrow, access, parting.value);
    } else {
      DefiniteIsCertain(tcx, borrow, access);
    }
  }

  /** Places that part at no union and have definite elements only overlap in every valuation. */
  lemma DefiniteIsCertain(tcx: TyCtxt, borrow: Place, access: Place)
    requires borrow.local == access.local && SubsliceLast(borrow) && SubsliceLast(access)
    requires Parting(tcx, borrow, access, BiasNoOverlap, 0).None? && Settled(tcx, borrow, access)
    requires PlaceComponentsConflict(tcx, borrow, Mut(TwoPhaseBorrow), access, Deep, BiasNoOverlap, 0) ==
               Conflicts(true)
    ensures CertainOverlap(tcx, borrow, access)
  {
    var kind := Mut(TwoPhaseBorrow);
    PositiveAnswer(tcx, borrow, kind, access, Deep, BiasNoOverlap, 0);
    forall j: nat
      ensures DefiniteAt(borrow, access, j)
    {
      assert SettledAt(borrow, access, None, j);
    }
    forall len, bi, ai | Fits(len, bi, borrow) && Fits(len, ai, access)
      ensures Intersect(tcx, len, bi, ai, borrow, kind, access, Deep)
    {
      var path := DefinitePath(tcx, len, bi, ai, borrow, access, BiasNoOverlap,
                               Max(|borrow.projection|, |access.projection|));
      CommonNode(tcx, len, bi, ai, borrow, kind, access, Deep, BiasNoOverlap, path);
    }
  }

  predicate FromBeginElem(e: ProjectionElem) {
    match e
    case ConstantIndex(_, _, fromEnd) => !fromEnd
    case Subslice(from, to, fromEnd) => !fromEnd && from < to
    case _ => true
  }

  /** Nothing is counted from the end, and no subslice is empty; index locals are allowed. */
  ghost predicate FromBegin(place: Place) {
    forall j :: 0 <= j < |place.projection| ==> FromBeginElem(place.projection[j])
  }

  /** For places counted from the beginning, a positive answer under the bias against overlap is certain. */
  lemma MustOverlap(tcx: TyCtxt, borrow: Place, access: Place)
    requires SubsliceLast(borrow) && SubsliceLast(access)
    requires AllSane(borrow) && AllSane(access)
    requires FromBegin(borrow) && FromBegin(access)
    requires PlacesConflictAnswer(tcx, borrow, access, BiasNoOverlap) == Conflicts(true)
    ensures CertainOverlap(tcx, borrow, access)
  {
    var parting := Parting(tcx, borrow, access, BiasNoOverlap, 0);
    assert PlaceComponentsConflict(tcx, borrow, Mut(TwoPhaseBorrow), access, Deep, BiasNoOverlap, 0) == Conflicts(true);
    PartingIs(tcx, borrow, access, BiasNoOverlap, 0);
    if parting.None? {
      PositiveAnswer(tcx, borrow, Mut(TwoPhaseBorrow), access, Deep, BiasNoOverlap, 0);
    }
    forall j: nat
      ensures SettledAt(borrow, access, parting, j)
    {
      if j < |borrow.projection| {
        assert FromBeginElem(borrow.projection[j]);
      }
      if j < |access.projection| {
        assert FromBeginElem(access.projection[j]);
      }
      if j < |borrow.projection| && j < |access.projection| && (parting.None? || j < parting.value) {
        assert PlaceProjectionConflict(KindOf(tcx, borrow.local, borrow.projection[..j]), borrow.projection[j],
                                       access.projection[j], BiasNoOverlap) == EqualOrDisjoint;
      }
    }
    CertainExactly(tcx, borrow, access);
  }

  /** The claim that a positive answer under the bias against overlap is certain fails for indices from different ends:
      element 1 and the last element of the slice behind a reference differ when there are three. */
  lemma MixedEndsAreNotCertain(tcx: TyCtxt, l: Local)
    requires tcx.kindAt(l, []) == RefTy(true) && tcx.kindAt(l, [ToPointee]) == SliceTy
    ensures var borrow := Place(l, [Deref, ConstantIndex(1, 2, false)]);
            var access := Place(l, [Deref, ConstantIndex(1, 1, true)]);
            && WellTyped(tcx, borrow) && WellTyped(tcx, access)
            && PlacesConflictAnswer(tcx, borrow, access, BiasNoOverlap) == Conflicts(true)
            && !CertainOverlap(tcx, borrow, access)
  {
    var borrow := Place(l, [Deref, ConstantIndex(1, 2, false)]);
    var access := Place(l, [Deref, ConstantIndex(1, 1, true)]);
    assert PlaceComponentsConflict(tcx, borrow, Mut(TwoPhaseBorrow), access, Deep, BiasNoOverlap, 2) == Conflicts(true);
    assert TypePath(borrow.projection[..0]) == [] && TypePath(access.projection[..0]) == [];
    assert TypePath(borrow.projection[..1]) == [ToPointee] && TypePath(access.projection[..1]) == [ToPointee];
    assert PlaceComponentsConflict(tcx, borrow, Mut(TwoPhaseBorrow), access, Deep, BiasNoOverlap, 1) == Conflicts(true);
    CertainExactly(tcx, borrow, access);
    assert Parting(tcx, borrow, access, BiasNoOverlap, 2).None?;
    assert Parting(tcx, borrow, access, BiasNoOverlap, 1).None?;
    assert Parting(tcx, borrow, access, BiasNoOverlap, 0) == None;
    assert !SettledAt(borrow, access, None, 1);
  }

  // ---------------------------------------------------------------- when an overlap is possible

  /** A length at which two elements that passed select something in common. */
  function MeetingLength(e1: ProjectionElem, e2: ProjectionElem): nat {
    match (e1, e2)
    case (ConstantIndex(o1, min1, end1), ConstantIndex(o2, min2, end2)) =>
      if end1 == end2 then Max(min1, min2) else o1 + o2
    case (ConstantIndex(o, min, end), Subslice(from, to, subEnd)) => IndexMeetingLength(o, min, end, from, to, subEnd)
    case (Subslice(from, to, subEnd), ConstantIndex(o, min, end)) => IndexMeetingLength(o, min, end, from, to, subEnd)
    case (Subslice(f1, t1, _), Subslice(f2, t2, _)) => Max(f1, f2) + Max(t1, t2) + 1
    case _ => 0
  }

  function IndexMeetingLength(o: nat, min: nat, end: bool, from: nat, to: nat, subEnd: bool): nat {
    if !subEnd then Max(min, to) else if end then Max(min, from + o) else Max(min, o + to + 1)
  }

  function AloneMeetingLength(e: ProjectionElem): nat {
    MinLength(e) + 1
  }

  function MeetingLengthAt(borrow: Place, access: Place, j: nat): nat {
    if j < |borrow.projection| && j < |access.projection| then MeetingLength(borrow.projection[j], access.projection[j])
    else if j < |borrow.projection| then AloneMeetingLength(borrow.projection[j])
    else if j < |access.projection| then AloneMeetingLength(access.projection[j])
    else 0
  }

  predicate NonEmptyArraySubslice(e: ProjectionElem) {
    e.Subslice? && !e.fromEnd ==> e.from < e.to
  }

  lemma MeetingStep(len: Lengths, indices: Indices, base: Node, kind: TyKind, e1: ProjectionElem, e2: ProjectionElem)
    returns (s: Step)
    requires PlaceProjectionConflict(kind, e1, e2, BiasOverlap) == EqualOrDisjoint
    requires Sane(e1) && Sane(e2) && NonEmptyArraySubslice(e1) && NonEmptyArraySubslice(e2)
    requires !e1.Index? && !e2.Index?
    requires e1.Subslice? && e2.Subslice? ==> e1.fromEnd == e2.fromEnd
    requires len(base) == MeetingLength(e1, e2)
    ensures ElemInBounds(indices, len(base), e1) && ElemInBounds(indices, len(base), e2)
    ensures Stands(len, indices, base, e1, s) && Stands(len, indices, base, e2, s)
  {
    s := StepOf(indices, len(base), if e1.Subslice? then e2 else e1);
    if e1.Subslice? && e2.Subslice? {
      s := SElem(Max(e1.from, e2.from));
    }
  }

  ghost predicate ConflictFragment(tcx: TyCtxt, borrow: Place, access: Place) {
    && WellTyped(tcx, borrow) && WellTyped(tcx, access)
    && SubsliceLast(borrow) && SubsliceLast(access)
    && AllSane(borrow) && AllSane(access)
    && IndexFree(borrow) && IndexFree(access)
    && (forall j :: 0 <= j < |borrow.projection| ==> NonEmptyArraySubslice(borrow.projection[j]))
    && (forall j :: 0 <= j < |access.projection| ==> NonEmptyArraySubslice(access.projection[j]))
    && UnionFree(tcx, borrow)
  }

  function MeetingLengths(borrow: Place, access: Place): Lengths {
    (node: Node) => MeetingLengthAt(borrow, access, |node.path|)
  }

  /** Two elements at the same depth of well-typed places that passed up to there have the same type. */
  lemma SameKind(tcx: TyCtxt, borrow: Place, access: Place, j: nat)
    requires borrow.local == access.local
    requires SubsliceLast(borrow) && SubsliceLast(access)
    requires LockstepPassed(tcx, borrow, access, BiasOverlap)
    requires j < |borrow.projection| && j < |access.projection|
    ensures KindOf(tcx, borrow.local, borrow.projection[..j]) == KindOf(tcx, access.local, access.projection[..j])
  {
    assert Passed(tcx, borrow, access, BiasOverlap, j);
    PassedTypes(tcx, borrow, access, BiasOverlap, j);
  }

  lemma {:induction false} MeetingPath(tcx: TyCtxt, indices: Indices, borrow: Place, access: Place, k: nat)
    returns (path: seq<Step>)
    requires borrow.local == access.local
    requires ConflictFragment(tcx, borrow, access)
    requires LockstepPassed(tcx, borrow, access, BiasOverlap)
    requires k <= Max(|borrow.projection|, |access.projection|)
    ensures |path| == k
    ensures CommonPath(MeetingLengths(borrow, access), indices, indices, borrow, access, path)
  {
    if k == 0 {
      path := [];
    } else {
      var j := k - 1;
      path := MeetingPath(tcx, indices, borrow, access, j);
      var len, base := MeetingLengths(borrow, access), Node(borrow.local, path);
      var s;
      if j < |borrow.projection| && j < |access.projection| {
        SameKind(tcx, borrow, access, j);
        assert ElemFitsKind(KindOf(tcx, borrow.local, borrow.projection[..j]), borrow.projection[j]);
        assert ElemFitsKind(KindOf(tcx, access.local, access.projection[..j]), access.projection[j]);
        s := MeetingStep(len, indices, base, KindOf(tcx, borrow.local, borrow.projection[..j]),
                         borrow.projection[j], access.projection[j]);
      } else {
        s := StepOf(indices, len(base), if j < |borrow.projection| then borrow.projection[j] else access.projection[j]);
      }
      assert (path + [s])[..j] == path;
      CommonPathExtend(len, indices, indices, borrow, access, path, s);
      path := path + [s];
    }
  }

  lemma MeetingLengthsFit(tcx: TyCtxt, indices: Indices, borrow: Place, access: Place)
    requires borrow.local == access.local
    requires ConflictFragment(tcx, borrow, access)
    requires LockstepPassed(tcx, borrow, access, BiasOverlap)
    ensures Fits(MeetingLengths(borrow, access), indices, borrow)
    ensures Fits(MeetingLengths(borrow, access), indices, access)
  {
    var len := MeetingLengths(borrow, access);
    forall j, path: seq<Step> | 0 <= j < Max(|borrow.projection|, |access.projection|) && |path| == j
      ensures j < |borrow.projection| ==> ElemInBounds(indices, len(Node(borrow.local, path)), borrow.projection[j])
      ensures j < |access.projection| ==> ElemInBounds(indices, len(Node(access.local, path)), access.projection[j])
    {
      if j < |borrow.projection| && j < |access.projection| {
        SameKind(tcx, borrow, access, j);
        assert ElemFitsKind(KindOf(tcx, borrow.local, borrow.projection[..j]), borrow.projection[j]);
        assert ElemFitsKind(KindOf(tcx, access.local, access.projection[..j]), access.projection[j]);
        var s := MeetingStep(len, indices, Node(borrow.local, path), KindOf(tcx, borrow.local, borrow.projection[..j]),
                             borrow.projection[j], access.projection[j]);
      }
    }
    FitsByDepth(len, indices, borrow, |borrow.projection|);
    FitsByDepth(len, indices, access, |access.projection|);
    assert borrow.projection[..|borrow.projection|] == borrow.projection;
    assert access.projection[..|access.projection|] == access.projection;
  }

  /** The footprints intersect in some valuation. */
  ghost predicate PossibleOverlap(tcx: TyCtxt, borrow: Place, kind: BorrowKind, access: Place, depth: AccessDepth) {
    exists len, bi, ai :: Fits(len, bi, borrow) && Fits(len, ai, access)
                       && Intersect(tcx, len, bi, ai, borrow, kind, access, depth)
  }

  /** The bias towards overlap gives the best possible answer: for union-free places without index
      locals, it reports a conflict if and only if the footprints intersect for some slice lengths. */
  lemma PossibleExactly(tcx: TyCtxt, borrow: Place, kind: BorrowKind, access: Place, depth: AccessDepth)
    requires ConflictFragment(tcx, borrow, access)
    requires !IgnoredDeref(tcx, borrow, 0) && borrow.local !in tcx.threadLocalRefs
    ensures BorrowConflictsWithPlace(tcx, borrow, kind, access, depth, BiasOverlap)
            == Conflicts(PossibleOverlap(tcx, borrow, kind, access, depth))
  {
    AlwaysAnswers(tcx, AllAreInvalidated, borrow, kind, access, depth, BiasOverlap);
    if BorrowConflictsWithPlace(tcx, borrow, kind, access, depth, BiasOverlap) == Conflicts(true) {
      UnionFreeNeverParts(tcx, borrow, access, BiasOverlap, 0);
      PositiveAnswer(tcx, borrow, kind, access, depth, BiasOverlap, 0);
      MeetingLengthsFit(tcx, ZeroIndices(), borrow, access);
      var path := MeetingPath(tcx, ZeroIndices(), borrow, access, Max(|borrow.projection|, |access.projection|));
      CommonNode(tcx, MeetingLengths(borrow, access), ZeroIndices(), ZeroIndices(), borrow, kind, access, depth,
                 BiasOverlap, path);
    } else {
      forall len, bi, ai | Fits(len, bi, borrow) && Fits(len, ai, access)
        ensures !Intersect(tcx, len, bi, ai, borrow, kind, access, depth)
      {
        OverlapSound(tcx, len, bi, ai, borrow, kind, access, depth);
      }
    }
  }

  // ---------------------------------------------------------------- why subslices come last

  function ThreeElements(): Lengths {
    (node: Node) => 3
  }

  /** Elements of overlapping subslices are compared by their offset within the subslice: the walk calls
      `x[0..2][1]` and `x[1..3][0]` disjoint, and both are element 1 of the array. */
  lemma NestedSubslices(tcx: TyCtxt, l: Local)
    ensures var borrow := Place(l, [Subslice(0, 2, false), ConstantIndex(1, 2, false)]);
            var access := Place(l, [Subslice(1, 3, false), ConstantIndex(0, 2, false)]);
            && PlacesConflictAnswer(tcx, borrow, access, BiasOverlap) == Conflicts(false)
            && ViewOf(ThreeElements(), ZeroIndices(), l, borrow.projection) == Some(Whole([SElem(1)]))
            && ViewOf(ThreeElements(), ZeroIndices(), l, access.projection) == Some(Whole([SElem(1)]))
  {
    var borrow := Place(l, [Subslice(0, 2, false), ConstantIndex(1, 2, false)]);
    var access := Place(l, [Subslice(1, 3, false), ConstantIndex(0, 2, false)]);
    assert PlaceComponentsConflict(tcx, borrow, Mut(TwoPhaseBorrow), access, Deep, BiasOverlap, 1) == Conflicts(false);
    var len := ThreeElements();
    assert borrow.projection[..1] == [Subslice(0, 2, false)] && access.projection[..1] == [Subslice(1, 3, false)];
    assert ViewOf(len, ZeroIndices(), l, borrow.projection[..1]) == Some(Window([], 0, 2));
    assert ViewOf(len, ZeroIndices(), l, access.projection[..1]) == Some(Window([], 1, 3));
    assert ProjectView(len, ZeroIndices(), l, Window([], 0, 2), ConstantIndex(1, 2, false)) == Whole([SElem(1)]);
    assert ProjectView(len, ZeroIndices(), l, Window([], 1, 3), ConstantIndex(0, 2, false)) == Whole([SElem(1)]);
  }
}
