/** What places mean: sets of nodes of a memory tree. The answers of `places_conflict.rs` are
    measured against it. */
module Footprint {
  import opened Mir
  import opened PlacesConflict

  // ---------------------------------------------------------------- memory

  datatype Step = SDeref | SField(field: nat) | SElem(index: nat) | SVariant(variant: nat) | SCast | SSubtype

  /** A node of the memory tree of a local. A node stands for the storage that belongs to a value
      itself (a scalar, a discriminant, a length, a pointer), not for its parts. */
  datatype Node = Node(local: Local, path: seq<Step>)

  /** The lengths of arrays and slices, and the values of the locals used as indices. */
  type Lengths = Node -> nat
  type Indices = Local -> nat

  function TypeStepAt(s: Step): TypeStep {
    match s
    case SDeref => ToPointee
    case SField(f) => ToField(f)
    case SElem(_) => ToElement
    case SVariant(v) => ToVariant(v)
    case SCast => ToCast
    case SSubtype => ToSubtype
  }

  function NodeTypePath(path: seq<Step>): (types: seq<TypeStep>)
    ensures |types| == |path|
    ensures forall j :: 0 <= j < |types| ==> types[j] == TypeStepAt(path[j])
  {
    seq(|path|, j requires 0 <= j < |path| => TypeStepAt(path[j]))
  }

  function NodeKind(tcx: TyCtxt, node: Node): TyKind {
    tcx.kindAt(node.local, NodeTypePath(node.path))
  }

  predicate HasDeref(path: seq<Step>) {
    exists j :: 0 <= j < |path| && path[j] == SDeref
  }

  predicate IsUnion(kind: TyKind) {
    kind.AdtTy? && kind.shape.UnionShape?
  }

  /** Two nodes share storage when they are the same node, or when they part at different fields of
      one union and either both stay within the union's own storage or both follow a pointer. */
  ghost predicate SameStorage(tcx: TyCtxt, m: Node, n: Node) {
    || m == n
    || (m.local == n.local && exists i: nat :: PartsAtUnion(tcx, m, n, i))
  }

  ghost predicate PartsAtUnion(tcx: TyCtxt, m: Node, n: Node, i: nat) {
    && i < |m.path| && i < |n.path|
    && m.path[..i] == n.path[..i]
    && m.path[i] != n.path[i]
    && m.path[i].SField? && n.path[i].SField?
    && IsUnion(NodeKind(tcx, Node(m.local, m.path[..i])))
    && (HasDeref(m.path[i..]) <==> HasDeref(n.path[i..]))
  }

  // ---------------------------------------------------------------- denotation of places

  /** A place denotes one node, or, when it selects a subslice, the elements `lo..hi` of a node. */
  datatype View = Whole(path: seq<Step>) | Window(path: seq<Step>, lo: nat, hi: nat)

  function ViewLength(len: Lengths, local: Local, v: View): int {
    match v
    case Whole(p) => len(Node(local, p))
    case Window(_, lo, hi) => hi - lo
  }

  function ViewLow(v: View): nat {
    if v.Window? then v.lo else 0
  }

  /** An element selects within its view: an index is within the length, and a slice pattern matched,
      so that the length is at least the length the pattern asked for. */
  predicate ElemInBounds(indices: Indices, length: int, e: ProjectionElem) {
    match e
    case Index(l) => indices(l) < length
    case ConstantIndex(o, min, false) => o < min <= length
    case ConstantIndex(o, min, true) => 1 <= o <= min <= length
    case Subslice(from, to, false) => from <= to <= length
    case Subslice(from, to, true) => from + to <= length
    case _ => true
  }

  function ProjectView(len: Lengths, indices: Indices, local: Local, v: View, e: ProjectionElem): View
    requires ElemInBounds(indices, ViewLength(len, local, v), e)
  {
    var low, length := ViewLow(v), ViewLength(len, local, v);
    match e
    case Deref => Whole(v.path + [SDeref])
    case Field(f) => Whole(v.path + [SField(f)])
    case Index(l) => Whole(v.path + [SElem(low + indices(l))])
    case ConstantIndex(o, _, fromEnd) => Whole(v.path + [SElem(low + if fromEnd then length - o else o)])
    case Subslice(from, to, fromEnd) => Window(v.path, low + from, low + if fromEnd then length - to else to)
    case Downcast(variant) => Whole(v.path + [SVariant(variant)])
    case OpaqueCast => Whole(v.path + [SCast])
    case Subtype => Whole(v.path + [SSubtype])
  }

  /** The view of a place, unless some element is out of bounds. */
  function ViewOf(len: Lengths, indices: Indices, local: Local, projection: seq<ProjectionElem>): Option<View>
    decreases |projection|
  {
    if projection == [] then Some(Whole([]))
    else
      var k := |projection| - 1;
      match ViewOf(len, indices, local, projection[..k])
      case None => None
      case Some(v) =>
        if ElemInBounds(indices, ViewLength(len, local, v), projection[k])
        then Some(ProjectView(len, indices, local, v, projection[k])) else None
  }

  ghost predicate Fits(len: Lengths, indices: Indices, place: Place) {
    ViewOf(len, indices, place.local, place.projection).Some?
  }

  /** The path is that of a node the view selects. */
  ghost predicate Selected(v: View, path: seq<Step>) {
    match v
    case Whole(p) => path == p
    case Window(p, lo, hi) =>
      |path| == |p| + 1 && path[..|p|] == p && path[|p|].SElem? && lo <= path[|p|].index < hi
  }

  function BaseLength(v: View): nat {
    if v.Whole? then |v.path| else |v.path| + 1
  }

  /** The node belongs to the place or to something below it. */
  ghost predicate Below(len: Lengths, indices: Indices, place: Place, node: Node)
    requires Fits(len, indices, place)
  {
    var v := ViewOf(len, indices, place.local, place.projection).value;
    node.local == place.local && |node.path| >= BaseLength(v) && Selected(v, node.path[..BaseLength(v)])
  }

  function BelowBase(len: Lengths, indices: Indices, place: Place): nat
    requires Fits(len, indices, place)
  {
    BaseLength(ViewOf(len, indices, place.local, place.projection).value)
  }

  /** Does dropping the value at `base` touch the node `tail` below it? A destructor may touch
      whatever its fields lead to; without one, the contents of a box are dropped but nothing behind
      a reference or a raw pointer is, and the fields of a union are never dropped. */
  ghost predicate DropTouches(tcx: TyCtxt, local: Local, base: seq<Step>, tail: seq<Step>)
    decreases |tail|
  {
    if tail == [] then true
    else
      var kind := NodeKind(tcx, Node(local, base));
      match tail[0]
      case SDeref => kind.BoxTy? && DropTouches(tcx, local, base + [SDeref], tail[1..])
      case SField(_) =>
        if kind.AdtTy? && kind.hasDtor then true
        else if IsUnion(kind) then !HasDeref(tail)
        else DropTouches(tcx, local, base + [tail[0]], tail[1..])
      case _ => DropTouches(tcx, local, base + [tail[0]], tail[1..])
  }

  /** A borrow protects everything below its place; a shallow (fake) borrow protects the place only. */
  ghost predicate InBorrow(len: Lengths, indices: Indices, borrow: Place, kind: BorrowKind, node: Node)
    requires Fits(len, indices, borrow)
  {
    && Below(len, indices, borrow, node)
    && (kind == Fake(ShallowFake) ==> |node.path| == BelowBase(len, indices, borrow))
  }

  /** The nodes an access to `place` of the given depth touches. */
  ghost predicate InAccess(tcx: TyCtxt, len: Lengths, indices: Indices, place: Place, depth: AccessDepth, node: Node)
    requires Fits(len, indices, place)
  {
    && Below(len, indices, place, node)
    && var k := BelowBase(len, indices, place);
       match depth
       case Shallow(Some(_)) => |node.path| == k
       case Shallow(None) => !HasDeref(node.path[k..])
       case Deep => true
       case DropDepth => DropTouches(tcx, node.local, node.path[..k], node.path[k..])
  }

  ghost predicate Meets(tcx: TyCtxt, len: Lengths, borrowIndices: Indices, accessIndices: Indices,
                        borrow: Place, kind: BorrowKind, access: Place, depth: AccessDepth, m: Node, n: Node)
    requires Fits(len, borrowIndices, borrow) && Fits(len, accessIndices, access)
  {
    && InBorrow(len, borrowIndices, borrow, kind, m)
    && InAccess(tcx, len, accessIndices, access, depth, n)
    && SameStorage(tcx, m, n)
  }

  /** The footprints of the borrow and of the access have storage in common. */
  ghost predicate Intersect(tcx: TyCtxt, len: Lengths, borrowIndices: Indices, accessIndices: Indices,
                            borrow: Place, kind: BorrowKind, access: Place, depth: AccessDepth)
    requires Fits(len, borrowIndices, borrow) && Fits(len, accessIndices, access)
  {
    exists m, n :: Meets(tcx, len, borrowIndices, accessIndices, borrow, kind, access, depth, m, n)
  }

  // ---------------------------------------------------------------- pointwise reading

  /** The steps an element of a place may stand for. */
  ghost predicate Stands(len: Lengths, indices: Indices, base: Node, e: ProjectionElem, s: Step) {
    match e
    case Deref => s == SDeref
    case Field(f) => s == SField(f)
    case Index(l) => s == SElem(indices(l)) && indices(l) < len(base)
    case ConstantIndex(o, min, false) => s == SElem(o) && o < min <= len(base)
    case ConstantIndex(o, min, true) => s.SElem? && s.index == len(base) - o && 1 <= o <= min <= len(base)
    case Subslice(from, to, false) => s.SElem? && from <= s.index < to <= len(base)
    case Subslice(from, to, true) => s.SElem? && from <= s.index < len(base) - to
    case Downcast(v) => s == SVariant(v)
    case OpaqueCast => s == SCast
    case Subtype => s == SSubtype
  }

  ghost predicate Pointwise(len: Lengths, indices: Indices, local: Local, projection: seq<ProjectionElem>,
                            path: seq<Step>) {
    && |path| >= |projection|
    && forall j :: 0 <= j < |projection| ==> Stands(len, indices, Node(local, path[..j]), projection[j], path[j])
  }

  ghost predicate SubsliceFree(projection: seq<ProjectionElem>) {
    forall j :: 0 <= j < |projection| ==> !projection[j].Subslice?
  }

  lemma PointwiseFront(len: Lengths, indices: Indices, local: Local, front: seq<ProjectionElem>, e: ProjectionElem,
                       path: seq<Step>)
    ensures Pointwise(len, indices, local, front + [e], path) <==>
              && Pointwise(len, indices, local, front, path)
              && |path| > |front| && Stands(len, indices, Node(local, path[..|front|]), e, path[|front|])
  {
    var projection := front + [e];
    assert forall j :: 0 <= j < |front| ==> projection[j] == front[j];
    assert projection[|front|] == e;
  }

  lemma PointwisePrefix(len: Lengths, indices: Indices, local: Local, projection: seq<ProjectionElem>, path: seq<Step>)
    requires |path| >= |projection|
    ensures Pointwise(len, indices, local, projection, path) <==>
              Pointwise(len, indices, local, projection, path[..|projection|])
  {
    var short := path[..|projection|];
    assert forall j :: 0 <= j < |projection| ==> short[j] == path[j] && short[..j] == path[..j];
  }

  lemma ProjectStands(len: Lengths, indices: Indices, local: Local, base: seq<Step>, e: ProjectionElem)
    returns (s: Step)
    requires ElemInBounds(indices, ViewLength(len, local, Whole(base)), e) && !e.Subslice?
    ensures ProjectView(len, indices, local, Whole(base), e) == Whole(base + [s])
    ensures Stands(len, indices, Node(local, base), e, s)
  {
    var path := ProjectView(len, indices, local, Whole(base), e).path;
    s := path[|base|];
  }

  /** Without subslices a place denotes one node, and each step of its path is determined. */
  lemma {:induction false} WholeView(len: Lengths, indices: Indices, local: Local, projection: seq<ProjectionElem>)
    requires ViewOf(len, indices, local, projection).Some?
    requires SubsliceFree(projection)
    ensures var v := ViewOf(len, indices, local, projection).value;
            v.Whole? && |v.path| == |projection| && Pointwise(len, indices, local, projection, v.path)
    decreases |projection|
  {
    if projection != [] {
      var k := |projection| - 1;
      WholeView(len, indices, local, projection[..k]);
      var u := ViewOf(len, indices, local, projection[..k]).value;
      var v := ViewOf(len, indices, local, projection).value;
      var s := ProjectStands(len, indices, local, u.path, projection[k]);
      assert v.path[..k] == u.path;
      PointwisePrefix(len, indices, local, projection[..k], v.path);
      PointwiseFront(len, indices, local, projection[..k], projection[k], v.path);
      assert projection == projection[..k] + [projection[k]];
    }
  }

  lemma {:induction false} PointwiseUnique(len: Lengths, indices: Indices, local: Local,
                                           projection: seq<ProjectionElem>, p: seq<Step>, q: seq<Step>)
    requires SubsliceFree(projection)
    requires Pointwise(len, indices, local, projection, p) && Pointwise(len, indices, local, projection, q)
    ensures p[..|projection|] == q[..|projection|]
    decreases |projection|
  {
    if projection != [] {
      var k := |projection| - 1;
      assert projection == projection[..k] + [projection[k]];
      PointwiseFront(len, indices, local, projection[..k], projection[k], p);
      PointwiseFront(len, indices, local, projection[..k], projection[k], q);
      PointwiseUnique(len, indices, local, projection[..k], p, q);
      assert p[..k + 1] == p[..k] + [p[k]] && q[..k + 1] == q[..k] + [q[k]];
    }
  }

  lemma WholePointwise(len: Lengths, indices: Indices, local: Local, projection: seq<ProjectionElem>, path: seq<Step>)
    requires ViewOf(len, indices, local, projection).Some?
    requires SubsliceFree(projection)
    requires |path| >= |projection|
    ensures Pointwise(len, indices, local, projection, path) <==>
              ViewOf(len, indices, local, projection) == Some(Whole(path[..|projection|]))
  {
    WholeView(len, indices, local, projection);
    var v := ViewOf(len, indices, local, projection).value;
    PointwisePrefix(len, indices, local, projection, path);
    assert v.path[..|projection|] == v.path;
    if Pointwise(len, indices, local, projection, path) {
      PointwiseUnique(len, indices, local, projection, path, v.path);
    }
  }

  /** For a place with subslices only at its end, being below the place is a statement about each
      step of the node's path on its own. */
  lemma BelowPointwise(len: Lengths, indices: Indices, place: Place, node: Node)
    requires SubsliceLast(place) && Fits(len, indices, place)
    ensures BelowBase(len, indices, place) == |place.projection|
    ensures Below(len, indices, place, node) <==>
              node.local == place.local && Pointwise(len, indices, place.local, place.projection, node.path)
  {
    var n := |place.projection|;
    if n == 0 || !place.projection[n - 1].Subslice? {
      WholeView(len, indices, place.local, place.projection);
      if |node.path| >= n {
        WholePointwise(len, indices, place.local, place.projection, node.path);
      }
    } else {
      BelowWindow(len, indices, place, node);
    }
  }

  /** A place that ends in a subslice denotes a window of the node before it. */
  lemma WindowView(len: Lengths, indices: Indices, local: Local, front: seq<ProjectionElem>, e: ProjectionElem)
    returns (path: seq<Step>)
    requires SubsliceFree(front) && e.Subslice? && ViewOf(len, indices, local, front + [e]).Some?
    ensures |path| == |front| && ViewOf(len, indices, local, front) == Some(Whole(path))
    ensures var length := len(Node(local, path));
            && ElemInBounds(indices, length, e)
            && ViewOf(len, indices, local, front + [e])
               == Some(Window(path, e.from, if e.fromEnd then length - e.to else e.to))
  {
    assert (front + [e])[..|front|] == front;
    WholeView(len, indices, local, front);
    path := ViewOf(len, indices, local, front).value.path;
  }

  lemma BelowWindow(len: Lengths, indices: Indices, place: Place, node: Node)
    requires SubsliceLast(place) && Fits(len, indices, place)
    requires place.projection != [] && place.projection[|place.projection| - 1].Subslice?
    ensures BelowBase(len, indices, place) == |place.projection|
    ensures Below(len, indices, place, node) <==>
              node.local == place.local && Pointwise(len, indices, place.local, place.projection, node.path)
  {
    var k := |place.projection| - 1;
    var front, e := place.projection[..k], place.projection[k];
    assert place.projection == front + [e];
    var path := WindowView(len, indices, place.local, front, e);
    if |node.path| > k {
      PointwiseFront(len, indices, place.local, front, e, node.path);
      WholePointwise(len, indices, place.local, front, node.path);
      assert node.path[..k + 1][..k] == node.path[..k];
    }
  }
}
