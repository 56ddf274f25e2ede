/** A negative answer of the overlap procedure is right: the borrow and the access have no storage in
    common, whatever the index locals hold and however long the slices are. */
module OverlapSoundness {
  import opened Mir
  import opened PlacesConflict
  import opened Footprint

  lemma NodeKindOfPrefix(tcx: TyCtxt, len: Lengths, indices: Indices, place: Place, path: seq<Step>, j: nat)
    requires SubsliceLast(place)
    requires Pointwise(len, indices, place.local, place.projection, path)
    requires j < |place.projection|
    ensures NodeKind(tcx, Node(place.local, path[..j])) == KindOf(tcx, place.local, place.projection[..j])
  {
    var prefix := path[..j];
    forall i | 0 <= i < j
      ensures TypeStepAt(prefix[i]) == TypeStepOf(place.projection[i])
    {
      assert Stands(len, indices, Node(place.local, path[..i]), place.projection[i], path[i]);
    }
    assert NodeTypePath(prefix) == TypePath(place.projection[..j]);
  }

  /** Nodes that agree up to `j` and part there, other than at a union, share no storage. */
  lemma Apart(tcx: TyCtxt, m: Node, n: Node, j: nat)
    requires j <= |m.path| && j <= |n.path|
    requires m.path[..j] == n.path[..j]
    requires j == |m.path| < |n.path| || j == |n.path| < |m.path|
          || (j < |m.path| && j < |n.path| && m.path[j] != n.path[j] && !PartsAtUnion(tcx, m, n, j))
    ensures !SameStorage(tcx, m, n)
  {
    forall i: nat
      ensures !PartsAtUnion(tcx, m, n, i)
    {
      if i < j {
        assert m.path[i] == m.path[..j][i] == n.path[..j][i] == n.path[i];
      } else if j < i && i < |m.path| && i < |n.path| {
        assert m.path[..i][j] == m.path[j] && n.path[..i][j] == n.path[j];
      }
    }
  }

  /** Elements judged disjoint on a common base stand for different steps. */
  lemma DisjointSteps(len: Lengths, bi: Indices, ai: Indices, base: Node, kind: TyKind,
                      e1: ProjectionElem, e2: ProjectionElem, s1: Step, s2: Step)
    requires PlaceProjectionConflict(kind, e1, e2, BiasOverlap) == Disjoint
    requires Stands(len, bi, base, e1, s1) && Stands(len, ai, base, e2, s2)
    ensures s1 != s2
    ensures s1.SField? && s2.SField? ==> !IsUnion(kind)
  {
  }

  /** Two nodes, one in the borrow and one in the access, that agree on their first `k` steps. */
  ghost predicate Pair(tcx: TyCtxt, len: Lengths, bi: Indices, ai: Indices, borrow: Place, kind: BorrowKind,
                       access: Place, depth: AccessDepth, m: Node, n: Node, k: nat) {
    && SubsliceLast(borrow) && SubsliceLast(access)
    && borrow.local == access.local == m.local == n.local
    && Fits(len, bi, borrow) && Fits(len, ai, access)
    && InBorrow(len, bi, borrow, kind, m)
    && InAccess(tcx, len, ai, access, depth, n)
    && k <= |m.path| && k <= |n.path|
    && m.path[..k] == n.path[..k]
  }

  lemma NextPair(m: Node, n: Node, k: nat)
    requires k < |m.path| && k < |n.path|
    requires m.path[..k] == n.path[..k] && m.path[k] == n.path[k]
    ensures m.path[..k + 1] == n.path[..k + 1]
  {
    assert m.path[..k + 1] == m.path[..k] + [m.path[k]];
    assert n.path[..k + 1] == n.path[..k] + [n.path[k]];
  }

  lemma {:induction false} ComponentsSound(tcx: TyCtxt, len: Lengths, bi: Indices, ai: Indices,
                                           borrow: Place, kind: BorrowKind, access: Place, depth: AccessDepth,
                                           m: Node, n: Node, j: nat)
    requires Pair(tcx, len, bi, ai, borrow, kind, access, depth, m, n, j)
    requires j <= |borrow.projection| && j <= |access.projection|
    requires PlaceComponentsConflict(tcx, borrow, kind, access, depth, BiasOverlap, j) == Conflicts(false)
    ensures !SameStorage(tcx, m, n)
    decreases |borrow.projection| - j
  {
    BelowPointwise(len, bi, borrow, m);
    BelowPointwise(len, ai, access, n);
    if j < |borrow.projection| && j < |access.projection| {
      var baseKind := KindOf(tcx, borrow.local, borrow.projection[..j]);
      NodeKindOfPrefix(tcx, len, bi, borrow, m.path, j);
      assert Stands(len, bi, Node(borrow.local, m.path[..j]), borrow.projection[j], m.path[j]);
      assert Stands(len, ai, Node(access.local, n.path[..j]), access.projection[j], n.path[j]);
      if PlaceProjectionConflict(baseKind, borrow.projection[j], access.projection[j], BiasOverlap) == Disjoint {
        DisjointSteps(len, bi, ai, Node(m.local, m.path[..j]), baseKind,
                      borrow.projection[j], access.projection[j], m.path[j], n.path[j]);
        Apart(tcx, m, n, j);
      } else if m.path[j] == n.path[j] {
        NextPair(m, n, j);
        ComponentsSound(tcx, len, bi, ai, borrow, kind, access, depth, m, n, j + 1);
      } else {
        Apart(tcx, m, n, j);
      }
    } else if |borrow.projection| > |access.projection| {
      RemainderSound(tcx, len, bi, ai, borrow, kind, access, depth, m, n);
    } else {
      Apart(tcx, m, n, j);
    }
  }

  /** Why the rest of a borrow does not conflict: a pointer at `stop` that the access does not follow,
      with no destructor on the way when the access is a drop. */
  lemma {:induction false} StoppingDeref(tcx: TyCtxt, borrow: Place, depth: AccessDepth, j: nat) returns (stop: nat)
    requires j <= |borrow.projection|
    requires !depth.Shallow? || depth.artificial == None
    requires RemainderConflict(tcx, borrow, depth, j) == Conflicts(false)
    ensures j <= stop < |borrow.projection|
    ensures borrow.projection[stop].Deref?
    ensures !depth.Deep?
    ensures depth.DropDepth? ==> DropBlockedAt(tcx, borrow, j, stop)
    decreases |borrow.projection| - j
  {
    var k := KindOf(tcx, borrow.local, borrow.projection[..j]);
    if borrow.projection[j].Deref? && (depth.Shallow? || (k == RefTy(true) && depth.DropDepth?)) {
      stop := j;
    } else {
      stop := StoppingDeref(tcx, borrow, depth, j + 1);
    }
  }

  /** A mutable reference is dereferenced at `stop`, and no destructor runs from `from` to there. */
  ghost predicate DropBlockedAt(tcx: TyCtxt, borrow: Place, from: nat, stop: nat)
    requires stop < |borrow.projection|
  {
    && borrow.projection[stop].Deref?
    && KindOf(tcx, borrow.local, borrow.projection[..stop]) == RefTy(true)
    && forall i :: from <= i < stop && borrow.projection[i].Field? ==>
         var k := KindOf(tcx, borrow.local, borrow.projection[..i]); !(k.AdtTy? && k.hasDtor)
  }

  lemma RemainderSound(tcx: TyCtxt, len: Lengths, bi: Indices, ai: Indices,
                       borrow: Place, kind: BorrowKind, access: Place, depth: AccessDepth, m: Node, n: Node)
    requires |access.projection| < |borrow.projection|
    requires Pair(tcx, len, bi, ai, borrow, kind, access, depth, m, n, |access.projection|)
    requires RemainderConflict(tcx, borrow, depth, |access.projection|) == Conflicts(false)
    ensures !SameStorage(tcx, m, n)
  {
    var a := |access.projection|;
    BelowPointwise(len, bi, borrow, m);
    BelowPointwise(len, ai, access, n);
    if depth.Shallow? && depth.artificial.Some? {
      Apart(tcx, m, n, a);
    } else {
      var stop := StoppingDeref(tcx, borrow, depth, a);
      assert Stands(len, bi, Node(borrow.local, m.path[..stop]), borrow.projection[stop], m.path[stop]);
      if depth.Shallow? {
        PointerNotFollowed(tcx, m, n, a, stop);
      } else {
        DropStops(tcx, len, bi, borrow, m, n, a, stop);
      }
    }
  }

  /** A node behind a pointer shares no storage with one that is reached without a pointer. */
  lemma {:induction false} PointerNotFollowed(tcx: TyCtxt, m: Node, n: Node, p: nat, stop: nat)
    requires p <= stop < |m.path| && p <= |n.path|
    requires m.path[..p] == n.path[..p]
    requires m.path[stop] == SDeref && !HasDeref(n.path[p..])
    ensures !SameStorage(tcx, m, n)
    decreases stop - p
  {
    if |n.path| == p {
      Apart(tcx, m, n, p);
    } else if m.path[p] != n.path[p] {
      assert m.path[p..][stop - p] == SDeref;
      Apart(tcx, m, n, p);
    } else {
      assert n.path[p..][0] == n.path[p];
      NextPair(m, n, p);
      var rest := n.path[p..];
      assert n.path[p + 1..] == rest[1..];
      PointerNotFollowed(tcx, m, n, p + 1, stop);
    }
  }

  /** Dropping what the access denotes does not get past the mutable reference at `stop`. */
  lemma {:induction false} DropStops(tcx: TyCtxt, len: Lengths, bi: Indices, borrow: Place, m: Node, n: Node,
                                     p: nat, stop: nat)
    requires SubsliceLast(borrow) && borrow.local == m.local == n.local
    requires Pointwise(len, bi, borrow.local, borrow.projection, m.path)
    requires p <= stop < |borrow.projection| && p <= |n.path|
    requires m.path[..p] == n.path[..p]
    requires DropBlockedAt(tcx, borrow, p, stop)
    requires DropTouches(tcx, n.local, n.path[..p], n.path[p..])
    ensures !SameStorage(tcx, m, n)
    decreases stop - p
  {
    NodeKindOfPrefix(tcx, len, bi, borrow, m.path, p);
    assert Stands(len, bi, Node(borrow.local, m.path[..stop]), borrow.projection[stop], m.path[stop]);
    assert Stands(len, bi, Node(borrow.local, m.path[..p]), borrow.projection[p], m.path[p]);
    if |n.path| == p {
      Apart(tcx, m, n, p);
    } else if n.path[p].SField? && IsUnion(NodeKind(tcx, Node(n.local, n.path[..p]))) && m.path[p].SField? {
      PointerNotFollowed(tcx, m, n, p, stop);
    } else if m.path[p] != n.path[p] {
      Apart(tcx, m, n, p);
    } else {
      NextPair(m, n, p);
      assert n.path[..p] + [n.path[p]] == n.path[..p + 1];
      assert n.path[p..][1..] == n.path[p + 1..];
      DropStops(tcx, len, bi, borrow, m, n, p + 1, stop);
    }
  }

  /** Soundness: a negative answer under the bias towards overlap leaves no storage in common. */
  lemma OverlapSound(tcx: TyCtxt, len: Lengths, bi: Indices, ai: Indices,
                     borrow: Place, kind: BorrowKind, access: Place, depth: AccessDepth)
    requires SubsliceLast(borrow) && SubsliceLast(access)
    requires Fits(len, bi, borrow) && Fits(len, ai, access)
    requires BorrowConflictsWithPlace(tcx, borrow, kind, access, depth, BiasOverlap) == Conflicts(false)
    ensures !Intersect(tcx, len, bi, ai, borrow, kind, access, depth)
  {
    forall m, n | InBorrow(len, bi, borrow, kind, m) && InAccess(tcx, len, ai, access, depth, n)
      ensures !SameStorage(tcx, m, n)
    {
      if borrow.local == access.local {
        ComponentsSound(tcx, len, bi, ai, borrow, kind, access, depth, m, n, 0);
      }
    }
  }
}
