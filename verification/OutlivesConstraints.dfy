/** Outlives constraints between regions: the set of `constraints/mod.rs`, the graph of `constraints/graph.rs` with its
    virtual edges out of `'static`, and what forcing regions to outlive `'static` does to reachability. */
module OutlivesConstraints {
  import opened Mir

  datatype Category = Internal | IllegalUniverse | OtherCategory

  datatype OutlivesConstraint = OutlivesConstraint(sup: RegionVid, sub: RegionVid, category: Category)

  /** The set of constraints; `'a: 'a` is not worth keeping. */
  class OutlivesConstraintSet {
    var outlives: seq<OutlivesConstraint>

    constructor ()
      ensures outlives == []
    {
      outlives := [];
    }

    method Push(c: OutlivesConstraint)
      modifies this
      ensures outlives == old(outlives) + Kept([c])
    {
      assert Kept([c]) == Kept([c][1..]) + [] || Kept([c]) == [c] + Kept([c][1..]);
      if c.sup == c.sub {
        return;
      }
      outlives := outlives + [c];
    }
  }

  /** The constraints that pushing keeps. */
  function Kept(constraints: seq<OutlivesConstraint>): seq<OutlivesConstraint> {
    if constraints == [] then []
    else (if constraints[0].sup == constraints[0].sub then [] else [constraints[0]]) + Kept(constraints[1..])
  }

  // ---------------------------------------------------------------- the constraint graph

  datatype Direction = Normal | Reverse

  function StartRegion(d: Direction, c: OutlivesConstraint): RegionVid {
    if d.Normal? then c.sup else c.sub
  }

  function EndRegion(d: Direction, c: OutlivesConstraint): RegionVid {
    if d.Normal? then c.sub else c.sup
  }

  datatype ConstraintGraph = ConstraintGraph(
    direction: Direction,
    firstConstraints: seq<Option<nat>>,
    nextConstraints: seq<Option<nat>>)

  ghost predicate RegionsBelow(outlives: seq<OutlivesConstraint>, n: nat) {
    forall i :: 0 <= i < |outlives| ==> outlives[i].sup < n && outlives[i].sub < n
  }

  /** The indices from `k` on of the constraints that start at `r`, in ascending order. */
  ghost function EdgeIndices(d: Direction, outlives: seq<OutlivesConstraint>, r: RegionVid, k: nat): seq<nat>
    requires k <= |outlives|
    decreases |outlives| - k
  {
    if k == |outlives| then []
    else if StartRegion(d, outlives[k]) == r then [k] + EdgeIndices(d, outlives, r, k + 1)
    else EdgeIndices(d, outlives, r, k + 1)
  }

  lemma {:induction false} EdgeIndicesAre(d: Direction, outlives: seq<OutlivesConstraint>, r: RegionVid, k: nat)
    requires k <= |outlives|
    ensures var s := EdgeIndices(d, outlives, r, k);
            && (forall i: nat :: i in s <==> k <= i < |outlives| && StartRegion(d, outlives[i]) == r)
            && (forall j, l :: 0 <= j < l < |s| ==> s[j] < s[l])
    decreases |outlives| - k
  {
    if k < |outlives| {
      EdgeIndicesAre(d, outlives, r, k + 1);
      var rest := EdgeIndices(d, outlives, r, k + 1);
      forall j | 0 <= j < |rest|
        ensures rest[j] > k
      {
        assert rest[j] in rest;
      }
    }
  }

  /** `list` is what following `next` from `start` yields. */
  ghost predicate Links(next: seq<Option<nat>>, start: Option<nat>, list: seq<nat>)
    decreases |list|
  {
    match start
    case None => list == []
    case Some(i) => list != [] && list[0] == i && i < |next| && Links(next, next[i], list[1..])
  }

  lemma {:induction false} LinksFrame(before: seq<Option<nat>>, after: seq<Option<nat>>, start: Option<nat>,
                                      list: seq<nat>)
    requires Links(before, start, list)
    requires |after| == |before| && forall i :: i in list && i < |before| ==> after[i] == before[i]
    ensures Links(after, start, list)
    decreases |list|
  {
    if start.Some? {
      assert list[0] in list;
      LinksFrame(before, after, before[start.value], list[1..]);
    }
  }

  /** The lists of the regions, as far as constraint `k` and later ones go. */
  ghost predicate GraphFrom(d: Direction, outlives: seq<OutlivesConstraint>, first: seq<Option<nat>>,
                            next: seq<Option<nat>>, k: nat)
    requires k <= |outlives|
  {
    && |next| == |outlives|
    && forall r :: 0 <= r < |first| ==> Links(next, first[r], EdgeIndices(d, outlives, r, k))
  }

  /** Each region's list enumerates its constraints in ascending order. */
  ghost predicate GraphOf(outlives: seq<OutlivesConstraint>, g: ConstraintGraph) {
    GraphFrom(g.direction, outlives, g.firstConstraints, g.nextConstraints, 0)
  }

  lemma AddToGraph(d: Direction, outlives: seq<OutlivesConstraint>, first: seq<Option<nat>>, next: seq<Option<nat>>,
                   k: nat)
    requires k < |outlives| && StartRegion(d, outlives[k]) < |first|
    requires GraphFrom(d, outlives, first, next, k + 1)
    ensures var s := StartRegion(d, outlives[k]);
            GraphFrom(d, outlives, first[s := Some(k)], next[k := first[s]], k)
  {
    var s := StartRegion(d, outlives[k]);
    var first', next' := first[s := Some(k)], next[k := first[s]];
    forall r | 0 <= r < |first|
      ensures Links(next', first'[r], EdgeIndices(d, outlives, r, k))
    {
      AddedLinks(d, outlives, next, next', first[r], r, k);
    }
  }

  /** The list of one region after constraint `k` has been put in front of the list of its start region. */
  lemma AddedLinks(d: Direction, outlives: seq<OutlivesConstraint>, next: seq<Option<nat>>, next': seq<Option<nat>>,
                   start: Option<nat>, r: RegionVid, k: nat)
    requires k < |outlives| == |next| == |next'|
    requires Links(next, start, EdgeIndices(d, outlives, r, k + 1))
    requires forall i :: k < i < |next| ==> next'[i] == next[i]
    requires r == StartRegion(d, outlives[k]) ==> next'[k] == start
    ensures Links(next', if r == StartRegion(d, outlives[k]) then Some(k) else start, EdgeIndices(d, outlives, r, k))
  {
    var rest := EdgeIndices(d, outlives, r, k + 1);
    EdgeIndicesAre(d, outlives, r, k + 1);
    LinksFrame(next, next', start, rest);
    assert ([k] + rest)[1..] == rest;
  }

  /** Builds the graph, going through the constraints from the last to the first. */
  method NewConstraintGraph(d: Direction, outlives: seq<OutlivesConstraint>, numRegionVars: nat)
    returns (g: ConstraintGraph)
    requires RegionsBelow(outlives, numRegionVars)
    ensures GraphOf(outlives, g)
    ensures g.direction == d && |g.firstConstraints| == numRegionVars
  {
    var first := new Option<nat>[numRegionVars](_ => None);
    var next := new Option<nat>[|outlives|](_ => None);
    var idx: nat := |outlives|;
    while idx > 0
      invariant idx <= |outlives|
      invariant forall i :: 0 <= i < idx ==> next[i] == None
      invariant GraphFrom(d, outlives, first[..], next[..], idx)
      decreases idx
    {
      idx := idx - 1;
      var start := StartRegion(d, outlives[idx]);
      assert next[idx].None?;
      AddToGraph(d, outlives, first[..], next[..], idx);
      ghost var first', next' := first[..][start := Some(idx)], next[..][idx := first[start]];
      next[idx] := first[start];
      first[start] := Some(idx);
      assert first[..] == first' && next[..] == next';
    }
    g := ConstraintGraph(d, first[..], next[..]);
  }

  // ---------------------------------------------------------------- edges of a region

  function StaticEdge(staticRegion: RegionVid, r: RegionVid): OutlivesConstraint {
    OutlivesConstraint(staticRegion, r, Internal)
  }

  /** The virtual edges of `'static` to the regions from `k` on. */
  ghost function StaticEdges(staticRegion: RegionVid, k: nat, n: nat): seq<OutlivesConstraint>
    requires k <= n
    decreases n - k
  {
    if k == n then [] else [StaticEdge(staticRegion, k)] + StaticEdges(staticRegion, k + 1, n)
  }

  ghost function ConstraintsAt(outlives: seq<OutlivesConstraint>, indices: seq<nat>): seq<OutlivesConstraint> {
    if indices == [] then []
    else (if indices[0] < |outlives| then [outlives[indices[0]]] else []) + ConstraintsAt(outlives, indices[1..])
  }

  /** The outgoing edges of `r`: its constraints, except that `'static` in the normal direction has all regions. */
  ghost function OutgoingEdges(d: Direction, outlives: seq<OutlivesConstraint>, n: nat, staticRegion: RegionVid,
                               r: RegionVid)
    : seq<OutlivesConstraint>
  {
    if r == staticRegion && d.Normal? then StaticEdges(staticRegion, 0, n)
    else ConstraintsAt(outlives, EdgeIndices(d, outlives, r, 0))
  }

  /** The edges of a list of constraints and the virtual edges that follow. */
  ghost function EdgesLeft(constraints: seq<OutlivesConstraint>, indices: seq<nat>, staticRegion: RegionVid,
                           nextStaticIdx: Option<nat>, n: nat): seq<OutlivesConstraint>
    requires nextStaticIdx.Some? ==> nextStaticIdx.value < n
  {
    ConstraintsAt(constraints, indices)
    + match nextStaticIdx
      case Some(k) => StaticEdges(staticRegion, k, n)
      case None => []
  }

  lemma NextStaticEdge(constraints: seq<OutlivesConstraint>, staticRegion: RegionVid, k: nat, n: nat)
    requires k < n
    ensures EdgesLeft(constraints, [], staticRegion, Some(k), n) ==
              [StaticEdge(staticRegion, k)]
              + EdgesLeft(constraints, [], staticRegion, if k == n - 1 then None else Some(k + 1), n)
  {
    assert ConstraintsAt(constraints, []) == [];
    assert StaticEdges(staticRegion, n, n) == [];
  }

  /** The iterator over outgoing edges. */
  class Edges {
    const graph: ConstraintGraph
    const constraints: seq<OutlivesConstraint>
    const staticRegion: RegionVid
    var pointer: Option<nat>
    var nextStaticIdx: Option<nat>
    ghost var indices: seq<nat>

    ghost predicate Valid()
      reads this
    {
      && GraphOf(constraints, graph)
      && Links(graph.nextConstraints, pointer, indices)
      && (nextStaticIdx.Some? ==> nextStaticIdx.value < |graph.firstConstraints|)
    }

    /** What the iterator has still to yield. */
    ghost function Remaining(): seq<OutlivesConstraint>
      reads this
      requires Valid()
    {
      EdgesLeft(constraints, indices, staticRegion, nextStaticIdx, |graph.firstConstraints|)
    }

    /** `outgoing_edges`. */
    constructor (graph: ConstraintGraph, constraints: seq<OutlivesConstraint>, regionSup: RegionVid,
                 staticRegion: RegionVid)
      requires GraphOf(constraints, graph) && regionSup < |graph.firstConstraints|
      ensures Valid() && this.graph == graph && this.constraints == constraints
      ensures Remaining() ==
                OutgoingEdges(graph.direction, constraints, |graph.firstConstraints|, staticRegion, regionSup)
    {
      this.graph, this.constraints, this.staticRegion := graph, constraints, staticRegion;
      if regionSup == staticRegion && graph.direction.Normal? {
        pointer, nextStaticIdx, indices := None, Some(0), [];
      } else {
        pointer, nextStaticIdx := graph.firstConstraints[regionSup], None;
        indices := EdgeIndices(graph.direction, constraints, regionSup, 0);
      }
    }

    method Next() returns (edge: Option<OutlivesConstraint>)
      requires Valid()
      modifies this
      ensures Valid()
      ensures if old(Remaining()) == [] then edge == None && Remaining() == []
              else edge == Some(old(Remaining())[0]) && Remaining() == old(Remaining())[1..]
    {
      if pointer.Some? {
        edge := NextConstraint();
      } else if nextStaticIdx.Some? {
        edge := NextStatic();
      } else {
        edge := None;
      }
    }

    /** Follows the list of the region. */
    method NextConstraint() returns (edge: Option<OutlivesConstraint>)
      requires Valid() && pointer.Some?
      modifies this
      ensures Valid() && edge.Some? && old(Remaining()) == [edge.value] + Remaining()
    {
      var p := pointer.value;
      ghost var all := Remaining();
      pointer := graph.nextConstraints[p];
      indices := indices[1..];
      assert all == [constraints[p]] + Remaining();
      edge := Some(constraints[p]);
    }

    /** Once the list has ended: the next virtual edge of `'static`. */
    method NextStatic() returns (edge: Option<OutlivesConstraint>)
      requires Valid() && pointer.None? && nextStaticIdx.Some?
      modifies this
      ensures Valid() && edge.Some? && old(Remaining()) == [edge.value] + Remaining()
    {
      var k := nextStaticIdx.value;
      assert indices == [];
      NextStaticEdge(constraints, staticRegion, k, |graph.firstConstraints|);
      nextStaticIdx := if k == |graph.firstConstraints| - 1 then None else Some(k + 1);
      edge := Some(StaticEdge(staticRegion, k));
    }
  }

  /** The successors of a region in the region graph, in the order the iterator yields them. */
  method OutgoingRegions(graph: ConstraintGraph, constraints: seq<OutlivesConstraint>, r: RegionVid,
                         staticRegion: RegionVid)
    returns (regions: seq<RegionVid>)
    requires GraphOf(constraints, graph) && r < |graph.firstConstraints|
    ensures forall s: RegionVid :: s in regions <==>
              RegionEdge(graph.direction, constraints, |graph.firstConstraints|, staticRegion, r, s)
  {
    var edges := new Edges(graph, constraints, r, staticRegion);
    ghost var all := edges.Remaining();
    regions := CollectRegions(edges);
    ghost var n := |graph.firstConstraints|;
    forall s: RegionVid
      ensures s in regions <==> RegionEdge(graph.direction, constraints, n, staticRegion, r, s)
    {
      OutgoingAre(graph.direction, constraints, n, staticRegion, r, s);
      EndRegionsAre(graph.direction, all, s);
    }
  }

  lemma EndRegionsAre(d: Direction, edges: seq<OutlivesConstraint>, s: RegionVid)
    ensures s in EndRegions(d, edges) <==> LeadsTo(d, edges, s)
  {
    if LeadsTo(d, edges, s) {
      var j :| 0 <= j < |edges| && EndRegion(d, edges[j]) == s;
      assert EndRegions(d, edges)[j] == s;
    }
  }

  ghost function EndRegions(d: Direction, edges: seq<OutlivesConstraint>): (regions: seq<RegionVid>)
    ensures |regions| == |edges|
    ensures forall j :: 0 <= j < |edges| ==> regions[j] == EndRegion(d, edges[j])
  {
    seq(|edges|, j requires 0 <= j < |edges| => EndRegion(d, edges[j]))
  }

  /** Drains the iterator. */
  method CollectRegions(edges: Edges) returns (regions: seq<RegionVid>)
    requires edges.Valid()
    modifies edges
    ensures regions == EndRegions(edges.graph.direction, old(edges.Remaining()))
  {
    ghost var yielded, left := [], edges.Remaining();
    regions := [];
    var done := false;
    while !done
      invariant edges.Valid() && left == edges.Remaining()
      invariant old(edges.Remaining()) == yielded + left && (done ==> left == [])
      invariant regions == EndRegions(edges.graph.direction, yielded)
      decreases |left|, !done
    {
      var edge := edges.Next();
      if edge.Some? {
        YieldFirst(edges.graph.direction, yielded, left);
        regions := regions + [EndRegion(edges.graph.direction, edge.value)];
        yielded := yielded + [edge.value];
      } else {
        done := true;
      }
      left := edges.Remaining();
    }
    assert yielded + [] == yielded;
  }

  lemma YieldFirst(d: Direction, yielded: seq<OutlivesConstraint>, left: seq<OutlivesConstraint>)
    requires left != []
    ensures yielded + left == (yielded + [left[0]]) + left[1..]
    ensures EndRegions(d, yielded + [left[0]]) == EndRegions(d, yielded) + [EndRegion(d, left[0])]
  {
  }

  /** There is an edge from `a` to `b`: a constraint, or a virtual edge out of `'static`. */
  ghost predicate RegionEdge(d: Direction, outlives: seq<OutlivesConstraint>, n: nat, staticRegion: RegionVid,
                             a: RegionVid, b: RegionVid) {
    if a == staticRegion && d.Normal? then b < n
    else exists i :: 0 <= i < |outlives| && StartRegion(d, outlives[i]) == a && EndRegion(d, outlives[i]) == b
  }

  lemma {:induction false} StaticEdgesAre(staticRegion: RegionVid, k: nat, n: nat)
    requires k <= n
    ensures |StaticEdges(staticRegion, k, n)| == n - k
    ensures forall j :: 0 <= j < n - k ==> StaticEdges(staticRegion, k, n)[j] == StaticEdge(staticRegion, k + j)
    decreases n - k
  {
    if k < n {
      StaticEdgesAre(staticRegion, k + 1, n);
    }
  }

  lemma {:induction false} ConstraintsAtAre(outlives: seq<OutlivesConstraint>, indices: seq<nat>)
    requires forall j :: 0 <= j < |indices| ==> indices[j] < |outlives|
    ensures |ConstraintsAt(outlives, indices)| == |indices|
    ensures forall j :: 0 <= j < |indices| ==> ConstraintsAt(outlives, indices)[j] == outlives[indices[j]]
  {
    if indices != [] {
      ConstraintsAtAre(outlives, indices[1..]);
    }
  }

  ghost predicate LeadsTo(d: Direction, edges: seq<OutlivesConstraint>, s: RegionVid) {
    exists j :: 0 <= j < |edges| && EndRegion(d, edges[j]) == s
  }

  /** The edges of `'static` in the normal direction lead to every region, each once and in order. */
  lemma StaticOutgoing(outlives: seq<OutlivesConstraint>, n: nat, staticRegion: RegionVid)
    ensures var edges := OutgoingEdges(Normal, outlives, n, staticRegion, staticRegion);
            |edges| == n && forall j :: 0 <= j < n ==> EndRegion(Normal, edges[j]) == j
  {
    StaticEdgesAre(staticRegion, 0, n);
  }

  /** The outgoing edges of a region lead exactly to its successors. */
  lemma OutgoingAre(d: Direction, outlives: seq<OutlivesConstraint>, n: nat, staticRegion: RegionVid, r: RegionVid,
                    s: RegionVid)
    ensures LeadsTo(d, OutgoingEdges(d, outlives, n, staticRegion, r), s) <==>
              RegionEdge(d, outlives, n, staticRegion, r, s)
  {
    var edges := OutgoingEdges(d, outlives, n, staticRegion, r);
    if r == staticRegion && d.Normal? {
      StaticOutgoing(outlives, n, staticRegion);
      if s < n {
        assert EndRegion(d, edges[s]) == s;
      }
    } else {
      ConstraintOutgoing(d, outlives, r, s);
    }
  }

  lemma ConstraintOutgoing(d: Direction, outlives: seq<OutlivesConstraint>, r: RegionVid, s: RegionVid)
    ensures LeadsTo(d, ConstraintsAt(outlives, EdgeIndices(d, outlives, r, 0)), s) <==>
              exists i :: 0 <= i < |outlives| && StartRegion(d, outlives[i]) == r && EndRegion(d, outlives[i]) == s
  {
    var indices := EdgeIndices(d, outlives, r, 0);
    EdgeIndicesAre(d, outlives, r, 0);
    assert forall j :: 0 <= j < |indices| ==> indices[j] in indices;
    ConstraintsAtAre(outlives, indices);
    if i :| 0 <= i < |outlives| && StartRegion(d, outlives[i]) == r && EndRegion(d, outlives[i]) == s {
      assert i in indices;
      var j :| 0 <= j < |indices| && indices[j] == i;
      assert EndRegion(d, ConstraintsAt(outlives, indices)[j]) == s;
    }
  }

  /** The two directions are transposes of each other, apart from the virtual edges out of `'static`. */
  lemma Transposed(outlives: seq<OutlivesConstraint>, n: nat, staticRegion: RegionVid, a: RegionVid, b: RegionVid)
    requires RegionsBelow(outlives, n)
    ensures RegionEdge(Reverse, outlives, n, staticRegion, b, a) ==> RegionEdge(Normal, outlives, n, staticRegion, a, b)
    ensures RegionEdge(Normal, outlives, n, staticRegion, a, b) ==>
              RegionEdge(Reverse, outlives, n, staticRegion, b, a) || (a == staticRegion && b < n)
  {
    if RegionEdge(Reverse, outlives, n, staticRegion, b, a) {
      var i :| 0 <= i < |outlives| && StartRegion(Reverse, outlives[i]) == b && EndRegion(Reverse, outlives[i]) == a;
      assert StartRegion(Normal, outlives[i]) == a && EndRegion(Normal, outlives[i]) == b;
    }
    if a != staticRegion && RegionEdge(Normal, outlives, n, staticRegion, a, b) {
      var i :| 0 <= i < |outlives| && StartRegion(Normal, outlives[i]) == a && EndRegion(Normal, outlives[i]) == b;
      assert StartRegion(Reverse, outlives[i]) == b && EndRegion(Reverse, outlives[i]) == a;
    }
  }

  // ---------------------------------------------------------------- reachability

  ghost predicate RegionPath(outlives: seq<OutlivesConstraint>, n: nat, staticRegion: RegionVid, path: seq<RegionVid>) {
    |path| > 0 && forall k :: 0 <= k < |path| - 1 ==>
      RegionEdge(Normal, outlives, n, staticRegion, path[k], path[k + 1])
  }

  ghost predicate Reaches(outlives: seq<OutlivesConstraint>, n: nat, staticRegion: RegionVid, a: RegionVid,
                          b: RegionVid) {
    exists path :: RegionPath(outlives, n, staticRegion, path) && path[0] == a && path[|path| - 1] == b
  }

  lemma ReachesSelf(outlives: seq<OutlivesConstraint>, n: nat, staticRegion: RegionVid, a: RegionVid)
    ensures Reaches(outlives, n, staticRegion, a, a)
  {
    assert RegionPath(outlives, n, staticRegion, [a]);
  }

  lemma ReachesStep(outlives: seq<OutlivesConstraint>, n: nat, staticRegion: RegionVid, a: RegionVid, b: RegionVid,
                    c: RegionVid)
    requires Reaches(outlives, n, staticRegion, a, b) && RegionEdge(Normal, outlives, n, staticRegion, b, c)
    ensures Reaches(outlives, n, staticRegion, a, c)
  {
    var path :| RegionPath(outlives, n, staticRegion, path) && path[0] == a && path[|path| - 1] == b;
    var longer := path + [c];
    forall k | 0 <= k < |longer| - 1
      ensures RegionEdge(Normal, outlives, n, staticRegion, longer[k], longer[k + 1])
    {
      if k < |path| - 1 {
        assert RegionEdge(Normal, outlives, n, staticRegion, path[k], path[k + 1]);
      }
    }
    assert RegionPath(outlives, n, staticRegion, longer);
  }

  lemma ReachesJoin(outlives: seq<OutlivesConstraint>, n: nat, staticRegion: RegionVid, a: RegionVid, b: RegionVid,
                    c: RegionVid)
    requires Reaches(outlives, n, staticRegion, a, b) && Reaches(outlives, n, staticRegion, b, c)
    ensures Reaches(outlives, n, staticRegion, a, c)
  {
    var path :| RegionPath(outlives, n, staticRegion, path) && path[0] == b && path[|path| - 1] == c;
    ReachesAlong(outlives, n, staticRegion, a, path, |path| - 1);
  }

  lemma {:induction false} ReachesAlong(outlives: seq<OutlivesConstraint>, n: nat, staticRegion: RegionVid,
                                        a: RegionVid, path: seq<RegionVid>, k: nat)
    requires RegionPath(outlives, n, staticRegion, path) && k < |path|
    requires Reaches(outlives, n, staticRegion, a, path[0])
    ensures Reaches(outlives, n, staticRegion, a, path[k])
  {
    if k > 0 {
      ReachesAlong(outlives, n, staticRegion, a, path, k - 1);
      assert RegionEdge(Normal, outlives, n, staticRegion, path[k - 1], path[k - 1 + 1]);
      ReachesStep(outlives, n, staticRegion, a, path[k - 1], path[k]);
    }
  }

  lemma {:induction false} KeptAre(constraints: seq<OutlivesConstraint>)
    ensures forall c :: c in Kept(constraints) <==> c in constraints && c.sup != c.sub
  {
    if constraints != [] {
      KeptAre(constraints[1..]);
      assert constraints == [constraints[0]] + constraints[1..];
    }
  }

  lemma EdgeByMember(outlives: seq<OutlivesConstraint>, n: nat, staticRegion: RegionVid, a: RegionVid, b: RegionVid)
    requires a != staticRegion
    ensures RegionEdge(Normal, outlives, n, staticRegion, a, b) <==>
              exists c :: c in outlives && c.sup == a && c.sub == b
  {
    if RegionEdge(Normal, outlives, n, staticRegion, a, b) {
      var i :| 0 <= i < |outlives| && StartRegion(Normal, outlives[i]) == a && EndRegion(Normal, outlives[i]) == b;
      assert outlives[i] in outlives;
    }
    if c :| c in outlives && c.sup == a && c.sub == b {
      var i :| 0 <= i < |outlives| && outlives[i] == c;
      assert StartRegion(Normal, outlives[i]) == a && EndRegion(Normal, outlives[i]) == b;
    }
  }

  /** Each step of a path over one set of constraints can be made over another. */
  lemma {:induction false} PathTransfers(outlives: seq<OutlivesConstraint>, outlives': seq<OutlivesConstraint>, n: nat,
                                         staticRegion: RegionVid, path: seq<RegionVid>, k: nat)
    requires RegionPath(outlives, n, staticRegion, path) && k < |path|
    requires forall a, b :: RegionEdge(Normal, outlives, n, staticRegion, a, b) ==>
               a == b || RegionEdge(Normal, outlives', n, staticRegion, a, b)
    ensures Reaches(outlives', n, staticRegion, path[0], path[k])
  {
    if k == 0 {
      ReachesSelf(outlives', n, staticRegion, path[0]);
    } else {
      PathTransfers(outlives, outlives', n, staticRegion, path, k - 1);
      assert RegionEdge(Normal, outlives, n, staticRegion, path[k - 1], path[k - 1 + 1]);
      if path[k - 1] != path[k] {
        ReachesStep(outlives', n, staticRegion, path[0], path[k - 1], path[k]);
      }
    }
  }

  lemma EdgeKept(constraints: seq<OutlivesConstraint>, n: nat, staticRegion: RegionVid, a: RegionVid, b: RegionVid)
    ensures RegionEdge(Normal, constraints, n, staticRegion, a, b) ==>
              a == b || RegionEdge(Normal, Kept(constraints), n, staticRegion, a, b)
    ensures RegionEdge(Normal, Kept(constraints), n, staticRegion, a, b) ==>
              RegionEdge(Normal, constraints, n, staticRegion, a, b)
  {
    if a != staticRegion {
      KeptAre(constraints);
      EdgeByMember(constraints, n, staticRegion, a, b);
      EdgeByMember(Kept(constraints), n, staticRegion, a, b);
    }
  }

  /** Dropping constraints of a region on itself leaves reachability unchanged. */
  lemma SelfConstraintsDoNotMatter(constraints: seq<OutlivesConstraint>, n: nat, staticRegion: RegionVid, a: RegionVid,
                                   b: RegionVid)
    ensures Reaches(Kept(constraints), n, staticRegion, a, b) <==> Reaches(constraints, n, staticRegion, a, b)
  {
    forall x, y
      ensures RegionEdge(Normal, constraints, n, staticRegion, x, y) ==>
                x == y || RegionEdge(Normal, Kept(constraints), n, staticRegion, x, y)
      ensures RegionEdge(Normal, Kept(constraints), n, staticRegion, x, y) ==>
                RegionEdge(Normal, constraints, n, staticRegion, x, y)
    {
      EdgeKept(constraints, n, staticRegion, x, y);
    }
    if Reaches(constraints, n, staticRegion, a, b) {
      var path :| RegionPath(constraints, n, staticRegion, path) && path[0] == a && path[|path| - 1] == b;
      PathTransfers(constraints, Kept(constraints), n, staticRegion, path, |path| - 1);
    }
    if Reaches(Kept(constraints), n, staticRegion, a, b) {
      var path :| RegionPath(Kept(constraints), n, staticRegion, path) && path[0] == a && path[|path| - 1] == b;
      PathTransfers(Kept(constraints), constraints, n, staticRegion, path, |path| - 1);
    }
  }

  // ---------------------------------------------------------------- outliving 'static

  /** Strongly connected components with what is annotated to them. Which components have incompatible universes is left
      open. */
  datatype Sccs = Sccs(
    sccOf: RegionVid -> nat,
    all: seq<nat>,
    representative: nat -> RegionVid,
    incompatible: nat -> bool)

  ghost predicate SccsOf(outlives: seq<OutlivesConstraint>, n: nat, staticRegion: RegionVid, sccs: Sccs) {
    && (forall a, b :: 0 <= a < n && 0 <= b < n ==>
          (sccs.sccOf(a) == sccs.sccOf(b) <==>
           Reaches(outlives, n, staticRegion, a, b) && Reaches(outlives, n, staticRegion, b, a)))
    && (forall a :: 0 <= a < n ==> sccs.sccOf(a) in sccs.all)
    && (forall s :: s in sccs.all ==> sccs.representative(s) < n && sccs.sccOf(sccs.representative(s)) == s)
  }

  type ComputeSccs = seq<OutlivesConstraint> -> Sccs

  /** The constraint that makes an incompatible component outlive `'static`, unless it is the component of `'static`. */
  function ForcedStatic(sccs: Sccs, staticRegion: RegionVid, scc: nat): seq<OutlivesConstraint> {
    if scc == sccs.sccOf(staticRegion) || !sccs.incompatible(scc) then []
    else [OutlivesConstraint(sccs.representative(scc), staticRegion, IllegalUniverse)]
  }

  function AllForcedStatic(sccs: Sccs, staticRegion: RegionVid, all: seq<nat>): seq<OutlivesConstraint> {
    if all == [] then []
    else
      var n := |all| - 1;
      AllForcedStatic(sccs, staticRegion, all[..n]) + ForcedStatic(sccs, staticRegion, all[n])
  }

  method PushForced(set_: OutlivesConstraintSet, representative: RegionVid, staticRegion: RegionVid)
    requires representative != staticRegion
    modifies set_
    ensures set_.outlives == old(set_.outlives) + [OutlivesConstraint(representative, staticRegion, IllegalUniverse)]
  {
    var forced := OutlivesConstraint(representative, staticRegion, IllegalUniverse);
    assert Kept([forced]) == [forced] + Kept([forced][1..]) == [forced];
    set_.Push(forced);
  }

  lemma NextForced(sccs: Sccs, staticRegion: RegionVid, k: nat)
    requires k < |sccs.all|
    ensures AllForcedStatic(sccs, staticRegion, sccs.all[..k + 1]) ==
              AllForcedStatic(sccs, staticRegion, sccs.all[..k]) + ForcedStatic(sccs, staticRegion, sccs.all[k])
  {
    assert sccs.all[..k + 1][..k] == sccs.all[..k];
  }

  /** A component without `'static` is represented by another region. */
  lemma RepresentativesAreOthers(outlives: seq<OutlivesConstraint>, n: nat, staticRegion: RegionVid, sccs: Sccs)
    requires SccsOf(outlives, n, staticRegion, sccs) && staticRegion < n
    ensures forall k :: 0 <= k < |sccs.all| && sccs.all[k] != sccs.sccOf(staticRegion) ==>
              sccs.representative(sccs.all[k]) != staticRegion
  {
    forall k | 0 <= k < |sccs.all| && sccs.all[k] != sccs.sccOf(staticRegion)
      ensures sccs.representative(sccs.all[k]) != staticRegion
    {
      assert sccs.all[k] in sccs.all;
    }
  }

  method AddOutlivesStatic(set_: OutlivesConstraintSet, n: nat, staticRegion: RegionVid, computeSccs: ComputeSccs)
    returns (sccs: Sccs)
    requires SccsOf(set_.outlives, n, staticRegion, computeSccs(set_.outlives)) && staticRegion < n
    modifies set_
    ensures set_.outlives == old(set_.outlives)
              + AllForcedStatic(computeSccs(old(set_.outlives)), staticRegion, computeSccs(old(set_.outlives)).all)
    ensures sccs == computeSccs(set_.outlives)
  {
    ghost var before := set_.outlives;
    sccs := computeSccs(set_.outlives);
    RepresentativesAreOthers(before, n, staticRegion, sccs);
    var addedConstraints := false;
    for k := 0 to |sccs.all|
      invariant set_.outlives == before + AllForcedStatic(sccs, staticRegion, sccs.all[..k])
      invariant !addedConstraints ==> set_.outlives == before
    {
      var scc := sccs.all[k];
      NextForced(sccs, staticRegion, k);
      if scc != sccs.sccOf(staticRegion) && sccs.incompatible(scc) {
        addedConstraints := true;
        PushForced(set_, sccs.representative(scc), staticRegion);
      }
    }
    assert sccs.all[..|sccs.all|] == sccs.all;
    if addedConstraints {
      sccs := computeSccs(set_.outlives);
    }
  }

  /** `a` reaches a component with incompatible universes. */
  ghost predicate ReachesIncompatible(outlives: seq<OutlivesConstraint>, n: nat, staticRegion: RegionVid, sccs: Sccs,
                                      a: RegionVid) {
    exists r :: 0 <= r < n && sccs.incompatible(sccs.sccOf(r)) && Reaches(outlives, n, staticRegion, a, r)
  }

  lemma {:induction false} AllForcedAre(sccs: Sccs, staticRegion: RegionVid, all: seq<nat>)
    ensures forall c :: c in AllForcedStatic(sccs, staticRegion, all) <==>
              exists s :: s in all && s != sccs.sccOf(staticRegion) && sccs.incompatible(s)
                       && c == OutlivesConstraint(sccs.representative(s), staticRegion, IllegalUniverse)
    decreases |all|
  {
    if all != [] {
      var front, last := all[..|all| - 1], all[|all| - 1];
      AllForcedAre(sccs, staticRegion, front);
      assert all == front + [last];
    }
  }

  /** The new edges lead from representatives of incompatible components to `'static`. */
  lemma ForcedEdge(outlives: seq<OutlivesConstraint>, n: nat, staticRegion: RegionVid, sccs: Sccs, a: RegionVid,
                   b: RegionVid)
    requires a != staticRegion
    ensures RegionEdge(Normal, outlives + AllForcedStatic(sccs, staticRegion, sccs.all), n, staticRegion, a, b) <==>
              || RegionEdge(Normal, outlives, n, staticRegion, a, b)
              || (b == staticRegion && exists s ::
                    && s in sccs.all && s != sccs.sccOf(staticRegion) && sccs.incompatible(s)
                    && a == sccs.representative(s))
  {
    var forced := AllForcedStatic(sccs, staticRegion, sccs.all);
    AllForcedAre(sccs, staticRegion, sccs.all);
    EdgeByMember(outlives, n, staticRegion, a, b);
    EdgeByMember(outlives + forced, n, staticRegion, a, b);
    assert forall c :: c in outlives + forced <==> c in outlives || c in forced;
    if s :| s in sccs.all && s != sccs.sccOf(staticRegion) && sccs.incompatible(s) && a == sccs.representative(s) {
      assert OutlivesConstraint(sccs.representative(s), staticRegion, IllegalUniverse) in forced;
    }
  }

  /** Without meeting an incompatible component, a path uses old edges only. */
  lemma {:induction false} OldPath(outlives: seq<OutlivesConstraint>, n: nat, staticRegion: RegionVid, sccs: Sccs,
                                   path: seq<RegionVid>, k: nat)
    requires SccsOf(outlives, n, staticRegion, sccs) && staticRegion < n
    requires RegionPath(outlives + AllForcedStatic(sccs, staticRegion, sccs.all), n, staticRegion, path) && k < |path|
    ensures Reaches(outlives, n, staticRegion, path[0], path[k])
            || ReachesIncompatible(outlives, n, staticRegion, sccs, path[0])
  {
    if k == 0 {
      ReachesSelf(outlives, n, staticRegion, path[0]);
    } else {
      OldPath(outlives, n, staticRegion, sccs, path, k - 1);
      var a, b := path[k - 1], path[k];
      assert RegionEdge(Normal, outlives + AllForcedStatic(sccs, staticRegion, sccs.all), n, staticRegion, path[k - 1],
                        path[k - 1 + 1]);
      if Reaches(outlives, n, staticRegion, path[0], a) {
        if a != staticRegion {
          ForcedEdge(outlives, n, staticRegion, sccs, a, b);
        }
        if RegionEdge(Normal, outlives, n, staticRegion, a, b) {
          ReachesStep(outlives, n, staticRegion, path[0], a, b);
        } else {
          var s :| s in sccs.all && s != sccs.sccOf(staticRegion) && sccs.incompatible(s)
              && a == sccs.representative(s);
          assert sccs.incompatible(sccs.sccOf(a));
        }
      }
    }
  }

  /** A region that reaches an incompatible component comes to reach `'static`. */
  lemma ComesToReachStatic(outlives: seq<OutlivesConstraint>, n: nat, staticRegion: RegionVid, sccs: Sccs, a: RegionVid)
    requires SccsOf(outlives, n, staticRegion, sccs) && staticRegion < n
    requires ReachesIncompatible(outlives, n, staticRegion, sccs, a)
    ensures Reaches(outlives + AllForcedStatic(sccs, staticRegion, sccs.all), n, staticRegion, a, staticRegion)
  {
    var outlives' := outlives + AllForcedStatic(sccs, staticRegion, sccs.all);
    var r :| 0 <= r < n && sccs.incompatible(sccs.sccOf(r)) && Reaches(outlives, n, staticRegion, a, r);
    var s := sccs.sccOf(r);
    if s == sccs.sccOf(staticRegion) {
      ReachesJoin(outlives, n, staticRegion, a, r, staticRegion);
      OldReachesNew(outlives, n, staticRegion, sccs, a, staticRegion);
    } else {
      var rep := sccs.representative(s);
      assert sccs.sccOf(rep) == s;
      ReachesJoin(outlives, n, staticRegion, a, r, rep);
      OldReachesNew(outlives, n, staticRegion, sccs, a, rep);
      assert rep != staticRegion;
      ForcedEdge(outlives, n, staticRegion, sccs, rep, staticRegion);
      ReachesStep(outlives', n, staticRegion, a, rep, staticRegion);
    }
  }

  lemma OldReachesNew(outlives: seq<OutlivesConstraint>, n: nat, staticRegion: RegionVid, sccs: Sccs, a: RegionVid,
                      b: RegionVid)
    requires Reaches(outlives, n, staticRegion, a, b)
    ensures Reaches(outlives + AllForcedStatic(sccs, staticRegion, sccs.all), n, staticRegion, a, b)
  {
    var outlives' := outlives + AllForcedStatic(sccs, staticRegion, sccs.all);
    forall x, y | RegionEdge(Normal, outlives, n, staticRegion, x, y)
      ensures RegionEdge(Normal, outlives', n, staticRegion, x, y)
    {
      if x != staticRegion {
        ForcedEdge(outlives, n, staticRegion, sccs, x, y);
      }
    }
    var path :| RegionPath(outlives, n, staticRegion, path) && path[0] == a && path[|path| - 1] == b;
    PathTransfers(outlives, outlives', n, staticRegion, path, |path| - 1);
  }

  /** After the constraints have been added, a region reaches exactly what it reached before, and everything if it
      reached a component with incompatible universes. */
  lemma StaticClosureExactly(outlives: seq<OutlivesConstraint>, n: nat, staticRegion: RegionVid, sccs: Sccs,
                             a: RegionVid, b: RegionVid)
    requires SccsOf(outlives, n, staticRegion, sccs) && staticRegion < n
    requires a < n && b < n
    ensures Reaches(outlives + AllForcedStatic(sccs, staticRegion, sccs.all), n, staticRegion, a, b) <==>
              Reaches(outlives, n, staticRegion, a, b) || ReachesIncompatible(outlives, n, staticRegion, sccs, a)
  {
    var outlives' := outlives + AllForcedStatic(sccs, staticRegion, sccs.all);
    if Reaches(outlives', n, staticRegion, a, b) {
      var path :| RegionPath(outlives', n, staticRegion, path) && path[0] == a && path[|path| - 1] == b;
      OldPath(outlives, n, staticRegion, sccs, path, |path| - 1);
    }
    if Reaches(outlives, n, staticRegion, a, b) {
      OldReachesNew(outlives, n, staticRegion, sccs, a, b);
    }
    if ReachesIncompatible(outlives, n, staticRegion, sccs, a) {
      ComesToReachStatic(outlives, n, staticRegion, sccs, a);
      ReachesStep(outlives', n, staticRegion, a, staticRegion, b);
    }
  }

  /** In particular, such a region and `'static` then reach each other. */
  lemma MutuallyReachableWithStatic(outlives: seq<OutlivesConstraint>, n: nat, staticRegion: RegionVid, sccs: Sccs,
                                    a: RegionVid)
    requires SccsOf(outlives, n, staticRegion, sccs) && staticRegion < n && a < n
    ensures var outlives' := outlives + AllForcedStatic(sccs, staticRegion, sccs.all);
            Reaches(outlives', n, staticRegion, a, staticRegion)
            && Reaches(outlives', n, staticRegion, staticRegion, a) <==>
              Reaches(outlives, n, staticRegion, a, staticRegion)
              || ReachesIncompatible(outlives, n, staticRegion, sccs, a)
  {
    var outlives' := outlives + AllForcedStatic(sccs, staticRegion, sccs.all);
    StaticClosureExactly(outlives, n, staticRegion, sccs, a, staticRegion);
    ReachesSelf(outlives', n, staticRegion, staticRegion);
    ReachesStep(outlives', n, staticRegion, staticRegion, staticRegion, a);
  }
}
