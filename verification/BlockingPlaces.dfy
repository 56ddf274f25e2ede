/** The search of `expiry_order.rs` for the places that block a place, on the graph of who blocks whom. */
module BlockingPlaces {
  import opened Mir

  // ---------------------------------------------------------------- the blocking graph

  datatype PcgNode = CurrentPlace(place: Place) | OldPlace(place: Place, at: Location) | RegionProjection(id: nat)

  datatype EdgeData = Borrow(kind: Option<BorrowKind>, remote: bool) | Expansion(baseMutability: Option<bool>)
      | Abstraction | OtherEdge

  /** A hyperedge: the nodes in `blockedBy` block the nodes in `blocked`. */
  datatype EdgeKind = EdgeKind(data: EdgeData, blocked: set<PcgNode>, blockedBy: seq<PcgNode>)

  type Graph = seq<EdgeKind>

  function EdgesBlocking(graph: Graph, node: PcgNode, isValidEdge: EdgeKind -> bool): (edges: seq<EdgeKind>)
    ensures forall e :: e in edges <==> e in graph && node in e.blocked && isValidEdge(e)
  {
    if graph == [] then []
    else
      var rest := EdgesBlocking(graph[1..], node, isValidEdge);
      assert graph == [graph[0]] + graph[1..];
      if node in graph[0].blocked && isValidEdge(graph[0]) then [graph[0]] + rest else rest
  }

  /** The valid edges that block one of `nodes`. */
  function EdgesBlockingAny(graph: Graph, nodes: seq<PcgNode>, isValidEdge: EdgeKind -> bool): (edges: seq<EdgeKind>)
    ensures forall e :: e in edges <==> e in graph && isValidEdge(e) && exists n :: n in nodes && n in e.blocked
  {
    if nodes == [] then []
    else
      assert nodes == [nodes[0]] + nodes[1..];
      EdgesBlocking(graph, nodes[0], isValidEdge) + EdgesBlockingAny(graph, nodes[1..], isValidEdge)
  }

  function CurrentPlaces(nodes: seq<PcgNode>): set<Place> {
    set n | n in nodes && n.CurrentPlace? :: n.place
  }

  // ---------------------------------------------------------------- edge paths

  datatype Query = Query(graph: Graph, start: PcgNode, isBlockingEdge: set<EdgeKind> -> bool,
                         isValidEdge: EdgeKind -> bool)

  ghost predicate Follows(q: Query, e: EdgeKind, f: EdgeKind) {
    f in EdgesBlockingAny(q.graph, e.blockedBy, q.isValidEdge)
  }

  /** A path of valid edges whose first one blocks the start. */
  ghost predicate Trail(q: Query, t: seq<EdgeKind>) {
    && |t| > 0
    && t[0] in EdgesBlocking(q.graph, q.start, q.isValidEdge)
    && forall k :: 0 <= k < |t| - 1 ==> Follows(q, t[k], t[k + 1])
  }

  function KindsOf(t: seq<EdgeKind>): set<EdgeKind> {
    set e | e in t
  }

  /** `p` blocks the start: a trail whose edges together satisfy the blocking condition ends at `p`. */
  ghost predicate BlocksVia(q: Query, t: seq<EdgeKind>, p: Place) {
    Trail(q, t) && q.isBlockingEdge(KindsOf(t)) && p in CurrentPlaces(t[|t| - 1].blockedBy)
  }

  ghost predicate Blocks(q: Query, p: Place) {
    exists t :: BlocksVia(q, t, p)
  }

  ghost predicate NoRepeats(t: seq<EdgeKind>) {
    forall i, j :: 0 <= i < j < |t| ==> t[i] != t[j]
  }

  /** No cycle can be reached from the start. */
  ghost predicate Acyclic(q: Query) {
    forall t :: Trail(q, t) ==> NoRepeats(t)
  }

  lemma TrailExtend(q: Query, t: seq<EdgeKind>, e: EdgeKind)
    requires Trail(q, t) && Follows(q, t[|t| - 1], e)
    ensures Trail(q, t + [e])
  {
    var longer := t + [e];
    forall k | 0 <= k < |longer| - 1
      ensures Follows(q, longer[k], longer[k + 1])
    {
      if k < |t| - 1 {
        assert Follows(q, t[k], t[k + 1]);
      }
    }
  }

  lemma TrailEdges(q: Query, t: seq<EdgeKind>, k: nat)
    requires Trail(q, t) && k < |t|
    ensures t[k] in q.graph && q.isValidEdge(t[k])
  {
    if k > 0 {
      assert Follows(q, t[k - 1], t[k - 1 + 1]);
    }
  }

  // ---------------------------------------------------------------- how long trails can be

  lemma {:induction false} DistinctWithin(t: seq<EdgeKind>, s: set<EdgeKind>)
    requires NoRepeats(t) && KindsOf(t) <= s
    ensures |t| <= |s|
  {
    if t != [] {
      var last := |t| - 1;
      assert t[last] in KindsOf(t);
      forall e | e in KindsOf(t[..last])
        ensures e in s - {t[last]}
      {
        var k :| 0 <= k < last && t[k] == e;
        assert t[k] in KindsOf(t) && t[k] != t[last];
      }
      DistinctWithin(t[..last], s - {t[last]});
    }
  }

  /** Once a cycle can be reached there are trails of any length. */
  lemma {:induction false} CyclePumps(q: Query, t: seq<EdgeKind>, i: nat, j: nat, n: nat)
    returns (longer: seq<EdgeKind>)
    requires Trail(q, t) && i < j < |t| && t[i] == t[j]
    ensures Trail(q, longer) && |longer| > n
    decreases n - |t|
  {
    if |t| > n {
      return t;
    }
    var around := t[..j + 1] + t[i + 1..];
    forall k | 0 <= k < |around| - 1
      ensures Follows(q, around[k], around[k + 1])
    {
      if k < j {
        assert Follows(q, t[k], t[k + 1]);
      } else {
        var k' := k - j + i;
        assert around[k] == t[k'] && around[k + 1] == t[k' + 1];
        assert Follows(q, t[k'], t[k' + 1]);
      }
    }
    longer := CyclePumps(q, around, i, j, n);
  }

  ghost predicate TrailsWithin(q: Query, n: nat) {
    forall t :: Trail(q, t) ==> |t| <= n
  }

  /** The trails are bounded exactly on acyclic graphs. */
  lemma BoundedExactlyWhenAcyclic(q: Query)
    ensures Acyclic(q) <==> exists n :: TrailsWithin(q, n)
  {
    if Acyclic(q) {
      forall t | Trail(q, t)
        ensures |t| <= |KindsOf(q.graph)|
      {
        forall e | e in KindsOf(t)
          ensures e in KindsOf(q.graph)
        {
          var k :| 0 <= k < |t| && t[k] == e;
          TrailEdges(q, t, k);
        }
        DistinctWithin(t, KindsOf(q.graph));
      }
      assert TrailsWithin(q, |KindsOf(q.graph)|);
    } else {
      var t :| Trail(q, t) && !NoRepeats(t);
      var i, j :| 0 <= i < j < |t| && t[i] == t[j];
      forall n: nat
        ensures !TrailsWithin(q, n)
      {
        var longer := CyclePumps(q, t, i, j, n);
      }
    }
  }

  // ---------------------------------------------------------------- the work left

  /** An edge to visit, with the kinds of the edges on the way to it. */
  datatype Visit = Visit(edge: EdgeKind, kindSet: set<EdgeKind>)

  /** The number of edge paths that go on from `e` without repeating an edge. */
  ghost function Weight(q: Query, seen: set<EdgeKind>, e: EdgeKind): (n: nat)
    ensures n > 0
    decreases KindsOf(q.graph) - seen, 1, 0
  {
    if e in seen || e !in KindsOf(q.graph) then 1
    else
      assert e in KindsOf(q.graph) - seen;
      1 + WeightOfAll(q, seen + {e}, EdgesBlockingAny(q.graph, e.blockedBy, q.isValidEdge))
  }

  ghost function WeightOfAll(q: Query, seen: set<EdgeKind>, es: seq<EdgeKind>): nat
    decreases KindsOf(q.graph) - seen, 2, |es|
  {
    if es == [] then 0 else Weight(q, seen, es[0]) + WeightOfAll(q, seen, es[1..])
  }

  ghost function Work(q: Query, toVisit: seq<Visit>): nat {
    if toVisit == [] then 0
    else Work(q, toVisit[..|toVisit| - 1]) + Weight(q, toVisit[|toVisit| - 1].kindSet, toVisit[|toVisit| - 1].edge)
  }

  function Visits(edges: seq<EdgeKind>, kindSet: set<EdgeKind>): (visits: seq<Visit>)
    ensures |visits| == |edges|
    ensures forall k :: 0 <= k < |edges| ==> visits[k] == Visit(edges[k], kindSet)
  {
    seq(|edges|, k requires 0 <= k < |edges| => Visit(edges[k], kindSet))
  }

  lemma {:induction false} WeightOfLast(q: Query, seen: set<EdgeKind>, es: seq<EdgeKind>)
    requires es != []
    ensures WeightOfAll(q, seen, es) == WeightOfAll(q, seen, es[..|es| - 1]) + Weight(q, seen, es[|es| - 1])
  {
    var last := |es| - 1;
    if last == 0 {
      assert es[1..] == [] && es[..last] == [];
    } else {
      assert es[1..][..last - 1] == es[..last][1..];
      WeightOfLast(q, seen, es[1..]);
    }
  }

  lemma {:induction false} WorkGrows(q: Query, toVisit: seq<Visit>, edges: seq<EdgeKind>, kindSet: set<EdgeKind>)
    ensures Work(q, toVisit + Visits(edges, kindSet)) == Work(q, toVisit) + WeightOfAll(q, kindSet, edges)
  {
    var more := Visits(edges, kindSet);
    if edges == [] {
      assert toVisit + more == toVisit;
    } else {
      var last := |edges| - 1;
      WorkGrows(q, toVisit, edges[..last], kindSet);
      WeightOfLast(q, kindSet, edges);
      assert toVisit + more == (toVisit + Visits(edges[..last], kindSet)) + [Visit(edges[last], kindSet)];
      assert (toVisit + more)[..|toVisit| + last] == toVisit + Visits(edges[..last], kindSet);
    }
  }

  // ---------------------------------------------------------------- the search

  ghost predicate TrailOf(q: Query, visit: Visit, t: seq<EdgeKind>) {
    Trail(q, t) && visit.edge == t[|t| - 1] && visit.kindSet == KindsOf(t[..|t| - 1])
  }

  /** `trails[i]` is the way to the edge at `toVisit[i]`. */
  ghost predicate Pending(q: Query, toVisit: seq<Visit>, trails: seq<seq<EdgeKind>>) {
    |trails| == |toVisit| && forall i :: 0 <= i < |toVisit| ==> TrailOf(q, toVisit[i], trails[i])
  }

  ghost predicate Ahead(trails: seq<seq<EdgeKind>>, t: seq<EdgeKind>) {
    exists i :: 0 <= i < |trails| && trails[i] <= t
  }

  /** The places of a trail have been found, or it goes on from one of `trails`. */
  ghost predicate Covered(q: Query, places: set<Place>, trails: seq<seq<EdgeKind>>, t: seq<EdgeKind>) {
    (forall p :: BlocksVia(q, t, p) ==> p in places) || Ahead(trails, t)
  }

  ghost predicate Progress(q: Query, places: set<Place>, trails: seq<seq<EdgeKind>>) {
    && (forall p :: p in places ==> Blocks(q, p))
    && (forall t :: Trail(q, t) ==> Covered(q, places, trails, t))
  }

  ghost function TrailsVia(t: seq<EdgeKind>, edges: seq<EdgeKind>): (trails: seq<seq<EdgeKind>>)
    ensures |trails| == |edges|
    ensures forall k :: 0 <= k < |edges| ==> trails[k] == t + [edges[k]]
  {
    seq(|edges|, k requires 0 <= k < |edges| => t + [edges[k]])
  }

  lemma PendingStart(q: Query, edges: seq<EdgeKind>)
    requires edges == EdgesBlocking(q.graph, q.start, q.isValidEdge)
    ensures Pending(q, Visits(edges, {}), TrailsVia([], edges))
    ensures Progress(q, {}, TrailsVia([], edges))
  {
    var trails := TrailsVia([], edges);
    forall k | 0 <= k < |edges|
      ensures TrailOf(q, Visits(edges, {})[k], trails[k])
    {
      assert trails[k] == [edges[k]];
    }
    forall t | Trail(q, t)
      ensures Ahead(trails, t)
    {
      var k :| 0 <= k < |edges| && edges[k] == t[0];
      assert trails[k] == [edges[k]] && trails[k] <= t;
    }
  }

  lemma LongerTrailOf(q: Query, curr: Visit, t: seq<EdgeKind>, e: EdgeKind)
    requires TrailOf(q, curr, t) && Follows(q, curr.edge, e)
    ensures TrailOf(q, Visit(e, curr.kindSet + {curr.edge}), t + [e])
  {
    KindsOfExtended(t);
    TrailExtend(q, t, e);
    assert (t + [e])[..|t|] == t;
  }

  /** What popping an edge and pushing those that block its blocking nodes does to the pending trails. */
  lemma PendingStep(q: Query, toVisit: seq<Visit>, trails: seq<seq<EdgeKind>>, next: seq<EdgeKind>)
    requires toVisit != [] && Pending(q, toVisit, trails)
    requires next == EdgesBlockingAny(q.graph, toVisit[|toVisit| - 1].edge.blockedBy, q.isValidEdge)
    ensures var last := |toVisit| - 1;
            Pending(q, toVisit[..last] + Visits(next, toVisit[last].kindSet + {toVisit[last].edge}),
                    trails[..last] + TrailsVia(trails[last], next))
  {
    var last := |toVisit| - 1;
    assert TrailOf(q, toVisit[last], trails[last]);
    forall k | 0 <= k < |next|
      ensures TrailOf(q, Visits(next, toVisit[last].kindSet + {toVisit[last].edge})[k],
                      TrailsVia(trails[last], next)[k])
    {
      LongerTrailOf(q, toVisit[last], trails[last], next[k]);
    }
  }

  lemma KindsOfExtended(t: seq<EdgeKind>)
    requires t != []
    ensures KindsOf(t) == KindsOf(t[..|t| - 1]) + {t[|t| - 1]}
  {
    assert t == t[..|t| - 1] + [t[|t| - 1]];
  }

  /** A trail that goes on from the popped trail goes on from a pushed one. */
  lemma {:induction false} AheadStep(q: Query, trails: seq<seq<EdgeKind>>, next: seq<EdgeKind>, u: seq<EdgeKind>)
    requires trails != [] && trails[|trails| - 1] != [] && u != trails[|trails| - 1]
    requires var t := trails[|trails| - 1]; forall e :: Follows(q, t[|t| - 1], e) ==> e in next
    requires Trail(q, u) && Ahead(trails, u)
    ensures Ahead(trails[..|trails| - 1] + TrailsVia(trails[|trails| - 1], next), u)
  {
    var last := |trails| - 1;
    var t := trails[last];
    var trails' := trails[..last] + TrailsVia(t, next);
    var i :| 0 <= i < |trails| && trails[i] <= u;
    if i < last {
      assert trails'[i] <= u;
    } else {
      var e := u[|t|];
      assert t[|t| - 1] == u[|t| - 1];
      assert Follows(q, u[|t| - 1], u[|t| - 1 + 1]);
      assert Follows(q, t[|t| - 1], e);
      assert e in next;
      var k :| 0 <= k < |next| && next[k] == e;
      assert trails'[last + k] == t + [next[k]] <= u;
    }
  }

  /** The places at the end of a popped trail are found. */
  lemma {:induction false} FoundStep(q: Query, places: set<Place>, t: seq<EdgeKind>, places': set<Place>)
    requires Trail(q, t) && forall p :: p in places ==> Blocks(q, p)
    requires places' == if q.isBlockingEdge(KindsOf(t)) then places + CurrentPlaces(t[|t| - 1].blockedBy) else places
    ensures forall p :: p in places' ==> Blocks(q, p)
    ensures forall p :: BlocksVia(q, t, p) ==> p in places'
  {
    forall p | p in places' && p !in places
      ensures Blocks(q, p)
    {
      assert BlocksVia(q, t, p);
    }
  }

  /** The places at the end of a popped trail are found; every longer trail goes on from a pushed one. */
  lemma {:induction false} ProgressStep(q: Query, places: set<Place>, trails: seq<seq<EdgeKind>>, places': set<Place>,
                                        next: seq<EdgeKind>)
    requires trails != [] && Progress(q, places, trails) && Trail(q, trails[|trails| - 1])
    requires var t := trails[|trails| - 1];
             && next == EdgesBlockingAny(q.graph, t[|t| - 1].blockedBy, q.isValidEdge)
             && places' == if q.isBlockingEdge(KindsOf(t)) then places + CurrentPlaces(t[|t| - 1].blockedBy) else places
    ensures Progress(q, places', trails[..|trails| - 1] + TrailsVia(trails[|trails| - 1], next))
  {
    var t := trails[|trails| - 1];
    var trails' := trails[..|trails| - 1] + TrailsVia(t, next);
    FoundStep(q, places, t, places');
    forall u | Trail(q, u)
      ensures Covered(q, places', trails', u)
    {
      assert Covered(q, places, trails, u);
      if u != t && Ahead(trails, u) {
        AheadStep(q, trails, next, u);
      }
    }
  }

  /** On an acyclic graph an edge is never among the edges on the way to it. */
  lemma {:induction false} NotOnTheWay(q: Query, visit: Visit, t: seq<EdgeKind>)
    requires Acyclic(q) && TrailOf(q, visit, t)
    ensures visit.edge in q.graph && visit.edge !in visit.kindSet
  {
    TrailEdges(q, t, |t| - 1);
    assert NoRepeats(t);
  }

  /** So the work left shrinks. */
  lemma {:induction false} WorkShrinks(q: Query, rest: seq<Visit>, curr: Visit, next: seq<EdgeKind>)
    requires curr.edge in q.graph && curr.edge !in curr.kindSet
    requires next == EdgesBlockingAny(q.graph, curr.edge.blockedBy, q.isValidEdge)
    ensures Work(q, rest + Visits(next, curr.kindSet + {curr.edge})) < Work(q, rest + [curr])
  {
    WorkGrows(q, rest, next, curr.kindSet + {curr.edge});
    assert (rest + [curr])[..|rest|] == rest;
    assert curr.edge in KindsOf(q.graph);
    assert Weight(q, curr.kindSet, curr.edge) == 1 + WeightOfAll(q, curr.kindSet + {curr.edge}, next);
  }

  lemma {:induction false} StepShrinks(q: Query, toVisit: seq<Visit>, t: seq<EdgeKind>, next: seq<EdgeKind>)
    requires toVisit != [] && Acyclic(q) && TrailOf(q, toVisit[|toVisit| - 1], t)
    requires next == EdgesBlockingAny(q.graph, toVisit[|toVisit| - 1].edge.blockedBy, q.isValidEdge)
    ensures var last := |toVisit| - 1;
            Work(q, toVisit[..last] + Visits(next, toVisit[last].kindSet + {toVisit[last].edge})) < Work(q, toVisit)
  {
    var last := |toVisit| - 1;
    NotOnTheWay(q, toVisit[last], t);
    WorkShrinks(q, toVisit[..last], toVisit[last], next);
    assert toVisit == toVisit[..last] + [toVisit[last]];
  }

  // ---------------------------------------------------------------- when the search ends

  /** One round of the loop: the last edge is popped, and the edges that block its blocking nodes are pushed. */
  function Round(q: Query, toVisit: seq<Visit>): seq<Visit> {
    if toVisit == [] then []
    else
      var last := |toVisit| - 1;
      var curr := toVisit[last].edge;
      toVisit[..last] + Visits(EdgesBlockingAny(q.graph, curr.blockedBy, q.isValidEdge), toVisit[last].kindSet + {curr})
  }

  /** What is to be visited after `n` rounds of the loop. */
  function Rounds(q: Query, n: nat): seq<Visit> {
    if n == 0 then Visits(EdgesBlocking(q.graph, q.start, q.isValidEdge), {}) else Round(q, Rounds(q, n - 1))
  }

  lemma NextRound(q: Query, n: nat, toVisit: seq<Visit>)
    requires Rounds(q, n) == toVisit
    ensures Rounds(q, n + 1) == Round(q, toVisit)
  {
  }

  ghost predicate AtMost(trails: seq<seq<EdgeKind>>, n: nat) {
    forall i :: 0 <= i < |trails| ==> |trails[i]| <= n
  }

  /** All trails but the short ones go on from one of `trails`. */
  ghost predicate ShortOrAhead(q: Query, trails: seq<seq<EdgeKind>>, n: nat) {
    forall u :: Trail(q, u) ==> |u| <= n || Ahead(trails, u)
  }

  lemma AtMostStep(trails: seq<seq<EdgeKind>>, n: nat, next: seq<EdgeKind>)
    requires trails != [] && AtMost(trails, n)
    ensures AtMost(trails[..|trails| - 1] + TrailsVia(trails[|trails| - 1], next), n + 1)
  {
  }

  /** A round of the loop goes one edge further along the popped trail. */
  lemma ShortOrAheadStep(q: Query, trails: seq<seq<EdgeKind>>, n: nat, next: seq<EdgeKind>)
    requires trails != [] && trails[|trails| - 1] != []
    requires AtMost(trails, n + 1) && ShortOrAhead(q, trails, n)
    requires var t := trails[|trails| - 1]; next == EdgesBlockingAny(q.graph, t[|t| - 1].blockedBy, q.isValidEdge)
    ensures ShortOrAhead(q, trails[..|trails| - 1] + TrailsVia(trails[|trails| - 1], next), n + 1)
  {
    var t := trails[|trails| - 1];
    forall u | Trail(q, u) && |u| > n + 1
      ensures Ahead(trails[..|trails| - 1] + TrailsVia(t, next), u)
    {
      AheadStep(q, trails, next, u);
    }
  }

  lemma PendingRound(q: Query, toVisit: seq<Visit>, n: nat, trails: seq<seq<EdgeKind>>)
    returns (trails': seq<seq<EdgeKind>>)
    requires Pending(q, toVisit, trails) && AtMost(trails, n + 1) && ShortOrAhead(q, trails, n)
    ensures Pending(q, Round(q, toVisit), trails') && AtMost(trails', n + 2) && ShortOrAhead(q, trails', n + 1)
  {
    if trails == [] {
      trails' := [];
    } else {
      var last := |trails| - 1;
      var next := EdgesBlockingAny(q.graph, toVisit[last].edge.blockedBy, q.isValidEdge);
      assert TrailOf(q, toVisit[last], trails[last]);
      PendingStep(q, toVisit, trails, next);
      AtMostStep(trails, n + 1, next);
      ShortOrAheadStep(q, trails, n, next);
      trails' := trails[..last] + TrailsVia(trails[last], next);
    }
  }

  lemma FirstTrails(q: Query, edges: seq<EdgeKind>)
    requires edges == EdgesBlocking(q.graph, q.start, q.isValidEdge)
    ensures Pending(q, Visits(edges, {}), TrailsVia([], edges))
    ensures AtMost(TrailsVia([], edges), 1) && ShortOrAhead(q, TrailsVia([], edges), 0)
  {
    PendingStart(q, edges);
    var trails := TrailsVia([], edges);
    forall u | Trail(q, u)
      ensures Ahead(trails, u)
    {
      var k :| 0 <= k < |edges| && edges[k] == u[0];
      assert trails[k] == [edges[k]] && trails[k] <= u;
    }
  }

  /** The trails pending after `n` rounds. */
  lemma {:induction false} PendingRounds(q: Query, n: nat) returns (toVisit: seq<Visit>, trails: seq<seq<EdgeKind>>)
    ensures toVisit == Rounds(q, n) && Pending(q, toVisit, trails) && AtMost(trails, n + 1)
            && ShortOrAhead(q, trails, n)
  {
    var edges := EdgesBlocking(q.graph, q.start, q.isValidEdge);
    FirstTrails(q, edges);
    toVisit, trails := Visits(edges, {}), TrailsVia([], edges);
    for k := 0 to n
      invariant toVisit == Rounds(q, k)
      invariant Pending(q, toVisit, trails) && AtMost(trails, k + 1) && ShortOrAhead(q, trails, k)
    {
      trails := PendingRound(q, toVisit, k, trails);
      NextRound(q, k, toVisit);
      toVisit := Round(q, toVisit);
    }
  }

  /** On an acyclic graph a round leaves less work. */
  lemma RoundShrinks(q: Query, toVisit: seq<Visit>, trails: seq<seq<EdgeKind>>)
    requires Acyclic(q) && toVisit != [] && Pending(q, toVisit, trails)
    ensures Work(q, Round(q, toVisit)) < Work(q, toVisit)
  {
    var last := |toVisit| - 1;
    assert TrailOf(q, toVisit[last], trails[last]);
    StepShrinks(q, toVisit, trails[last], EdgesBlockingAny(q.graph, toVisit[last].edge.blockedBy, q.isValidEdge));
  }

  /** On an acyclic graph nothing is left to visit in the end. */
  lemma {:induction false} RunsOut(q: Query, n: nat, work: nat) returns (m: nat)
    requires Acyclic(q) && work == Work(q, Rounds(q, n))
    ensures Rounds(q, m) == []
    decreases work
  {
    var toVisit, trails := PendingRounds(q, n);
    if toVisit == [] {
      m := n;
    } else {
      RoundShrinks(q, toVisit, trails);
      NextRound(q, n, toVisit);
      m := RunsOut(q, n + 1, Work(q, Round(q, toVisit)));
    }
  }

  /** Without a set of visited edges, the loop ends if and only if it can come to no cycle. */
  lemma EndsExactlyWhenAcyclic(q: Query)
    ensures (exists n: nat :: Rounds(q, n) == []) <==> Acyclic(q)
  {
    if n: nat :| Rounds(q, n) == [] {
      var toVisit, trails := PendingRounds(q, n);
      BoundedByRounds(q, trails, n);
      BoundedExactlyWhenAcyclic(q);
    }
    if Acyclic(q) {
      var m := RunsOut(q, 0, Work(q, Rounds(q, 0)));
    }
  }

  lemma BoundedByRounds(q: Query, trails: seq<seq<EdgeKind>>, n: nat)
    requires trails == [] && ShortOrAhead(q, trails, n)
    ensures TrailsWithin(q, n)
  {
    forall u | Trail(q, u)
      ensures |u| <= n
    {
      assert !Ahead(trails, u);
    }
  }

  /** What a round adds to the places found. */
  function PlacesAfter(q: Query, toVisit: seq<Visit>, places: set<Place>): set<Place>
    requires toVisit != []
  {
    var last := toVisit[|toVisit| - 1];
    if q.isBlockingEdge(last.kindSet + {last.edge}) then places + CurrentPlaces(last.edge.blockedBy) else places
  }

  lemma PoppedTrail(q: Query, toVisit: seq<Visit>, trails: seq<seq<EdgeKind>>)
    requires toVisit != [] && Pending(q, toVisit, trails)
    ensures var curr, t := toVisit[|toVisit| - 1], trails[|toVisit| - 1];
            Trail(q, t) && curr.edge == t[|t| - 1] && curr.kindSet + {curr.edge} == KindsOf(t)
  {
    assert TrailOf(q, toVisit[|toVisit| - 1], trails[|toVisit| - 1]);
    KindsOfExtended(trails[|toVisit| - 1]);
  }

  /** The places at the end of the popped trail are found, and longer trails go on from a pushed one. */
  lemma RoundFinds(q: Query, curr: Visit, places: set<Place>, trails: seq<seq<EdgeKind>>, next: seq<EdgeKind>,
                   places': set<Place>)
    requires trails != [] && Progress(q, places, trails)
    requires var t := trails[|trails| - 1];
             Trail(q, t) && curr.edge == t[|t| - 1] && curr.kindSet + {curr.edge} == KindsOf(t)
    requires next == EdgesBlockingAny(q.graph, curr.edge.blockedBy, q.isValidEdge)
    requires places' == if q.isBlockingEdge(curr.kindSet + {curr.edge}) then places + CurrentPlaces(curr.edge.blockedBy)
             else places
    ensures Progress(q, places', trails[..|trails| - 1] + TrailsVia(trails[|trails| - 1], next))
  {
    ProgressStep(q, places, trails, places', next);
  }

  lemma RoundProgress(q: Query, toVisit: seq<Visit>, places: set<Place>, trails: seq<seq<EdgeKind>>)
    returns (trails': seq<seq<EdgeKind>>)
    requires toVisit != [] && Pending(q, toVisit, trails) && Progress(q, places, trails)
    ensures Pending(q, Round(q, toVisit), trails') && Progress(q, PlacesAfter(q, toVisit, places), trails')
  {
    var last := |toVisit| - 1;
    var next := EdgesBlockingAny(q.graph, toVisit[last].edge.blockedBy, q.isValidEdge);
    PendingStep(q, toVisit, trails, next);
    PoppedTrail(q, toVisit, trails);
    RoundFinds(q, toVisit[last], places, trails, next, PlacesAfter(q, toVisit, places));
    trails' := trails[..last] + TrailsVia(trails[last], next);
  }

  lemma NothingPending(q: Query, places: set<Place>)
    requires Progress(q, places, [])
    ensures forall p :: p in places <==> Blocks(q, p)
  {
    forall p | Blocks(q, p)
      ensures p in places
    {
      var t :| BlocksVia(q, t, p);
      assert Covered(q, places, [], t);
    }
  }

  /** Pops an edge, notes the places at its end, and pushes the edges that block its blocking nodes. */
  method VisitNext(graph: Graph, isBlockingEdge: set<EdgeKind> -> bool, isValidEdge: EdgeKind -> bool,
                   toVisit: seq<Visit>, places: set<Place>, ghost start: PcgNode)
    returns (toVisit': seq<Visit>, places': set<Place>)
    requires toVisit != []
    ensures toVisit' == Round(Query(graph, start, isBlockingEdge, isValidEdge), toVisit)
    ensures places' == PlacesAfter(Query(graph, start, isBlockingEdge, isValidEdge), toVisit, places)
  {
    var last := |toVisit| - 1;
    var curr := toVisit[last].edge;
    var kindSet := toVisit[last].kindSet + {curr};
    places' := places;
    if isBlockingEdge(kindSet) {
      places' := places + CurrentPlaces(curr.blockedBy);
    }
    toVisit' := toVisit[..last] + Visits(EdgesBlockingAny(graph, curr.blockedBy, isValidEdge), kindSet);
  }

  /** `places_blocking`: exactly the current places that block `place`. */
  method PlacesBlocking(place: Place, graph: Graph, isBlockingEdge: set<EdgeKind> -> bool,
                        isValidEdge: EdgeKind -> bool)
    returns (places: set<Place>)
    requires Acyclic(Query(graph, CurrentPlace(place), isBlockingEdge, isValidEdge))
    ensures forall p :: p in places <==> Blocks(Query(graph, CurrentPlace(place), isBlockingEdge, isValidEdge), p)
  {
    ghost var q := Query(graph, CurrentPlace(place), isBlockingEdge, isValidEdge);
    var edges := EdgesBlocking(graph, CurrentPlace(place), isValidEdge);
    var toVisit := Visits(edges, {});
    ghost var trails := TrailsVia([], edges);
    ghost var rounds := 0;
    places := {};
    PendingStart(q, edges);
    while toVisit != []
      invariant toVisit == Rounds(q, rounds)
      invariant Pending(q, toVisit, trails)
      invariant Progress(q, places, trails)
      decreases Work(q, toVisit)
    {
      RoundShrinks(q, toVisit, trails);
      NextRound(q, rounds, toVisit);
      trails := RoundProgress(q, toVisit, places, trails);
      toVisit, places := VisitNext(graph, isBlockingEdge, isValidEdge, toVisit, places, CurrentPlace(place));
      rounds := rounds + 1;
    }
    NothingPending(q, places);
  }

  // ---------------------------------------------------------------- the two expiry-order mutations

  predicate IsMut(kind: BorrowKind) {
    kind == Mut(DefaultMut)
  }

  predicate IsMutBorrow(e: EdgeKind) {
    e.data.Borrow? && e.data.kind.Some? && IsMut(e.data.kind.value)
  }

  predicate ValidEdge(e: EdgeKind) {
    match e.data
    case Borrow(_, _) => IsMutBorrow(e)
    case Expansion(m) => m == Some(true)
    case _ => true
  }

  /** The blocking condition of `BorrowExpiryOrder`. */
  predicate MutBorrowAmong(kinds: set<EdgeKind>) {
    exists e :: e in kinds && IsMutBorrow(e)
  }

  /** The blocking condition of `AbstractExpiryOrder`. */
  predicate MutBorrowAndAbstractionAmong(kinds: set<EdgeKind>) {
    (exists e :: e in kinds && e.data.Abstraction?) && MutBorrowAmong(kinds)
  }

  /** The places blocked by a mutable borrow of a local place. */
  function MutablyBorrowedPlaces(graph: Graph): set<Place> {
    set e, n | e in graph && IsMutBorrow(e) && !e.data.remote && n in e.blocked && n.CurrentPlace? :: n.place
  }

  function ExpiryQuery(graph: Graph, place: Place, isBlockingEdge: set<EdgeKind> -> bool): Query {
    Query(graph, CurrentPlace(place), isBlockingEdge, ValidEdge)
  }

  /** A pair to mutate: a mutably borrowed place and a place that blocks it, both of user variables. */
  ghost predicate IsSequence(graph: Graph, userVariables: set<Local>, isBlockingEdge: set<EdgeKind> -> bool,
                             pair: (Place, Place)) {
    && pair.0 in MutablyBorrowedPlaces(graph) && pair.0.local in userVariables && pair.1.local in userVariables
    && Blocks(ExpiryQuery(graph, pair.0, isBlockingEdge), pair.1)
  }

  ghost predicate Distinct(pairs: seq<(Place, Place)>) {
    forall i, j :: 0 <= i < j < |pairs| ==> pairs[i] != pairs[j]
  }

  /** Pairs one place with each of a set of blocking places. */
  method PushSequences(sequences: seq<(Place, Place)>, place: Place, blocking: set<Place>, userVariables: set<Local>)
    returns (extended: seq<(Place, Place)>)
    requires Distinct(sequences) && forall pair :: pair in sequences ==> pair.0 != place
    ensures Distinct(extended)
    ensures forall pair :: pair in extended <==>
              pair in sequences || (pair.0 == place && pair.1 in blocking && pair.1.local in userVariables)
  {
    extended := sequences;
    var rest := blocking;
    while rest != {}
      invariant rest <= blocking && Distinct(extended)
      invariant forall pair :: pair in extended <==>
                  pair in sequences || (pair.0 == place && pair.1 in blocking - rest && pair.1.local in userVariables)
      decreases rest
    {
      var b :| b in rest;
      if b.local in userVariables {
        extended := extended + [(place, b)];
      }
      rest := rest - {b};
    }
  }

  /** The pairs that `make_stream` collects, each once. */
  method MutantSequences(graph: Graph, userVariables: set<Local>, isBlockingEdge: set<EdgeKind> -> bool)
    returns (sequences: seq<(Place, Place)>)
    requires forall p :: p in MutablyBorrowedPlaces(graph) ==> Acyclic(ExpiryQuery(graph, p, isBlockingEdge))
    ensures Distinct(sequences)
    ensures forall pair :: pair in sequences <==> IsSequence(graph, userVariables, isBlockingEdge, pair)
  {
    sequences := [];
    var borrowed := MutablyBorrowedPlaces(graph);
    var rest := borrowed;
    while rest != {}
      invariant rest <= borrowed && Distinct(sequences)
      invariant forall pair :: pair in sequences <==>
                  pair.0 !in rest && IsSequence(graph, userVariables, isBlockingEdge, pair)
      decreases rest
    {
      var place :| place in rest;
      if place.local in userVariables {
        var blocking := PlacesBlocking(place, graph, isBlockingEdge, ValidEdge);
        sequences := PushSequences(sequences, place, blocking, userVariables);
      }
      rest := rest - {place};
    }
  }

  /** A trail through a borrow edge, of whatever kind, that ends at `p`. */
  ghost predicate EndsAfterBorrow(q: Query, t: seq<EdgeKind>, p: Place) {
    && Trail(q, t) && p in CurrentPlaces(t[|t| - 1].blockedBy)
    && exists k :: 0 <= k < |t| && t[k].data.Borrow?
  }

  /** Every abstract-expiry pair is a borrow-expiry pair, and the borrow-expiry pairs are those with a trail through
      some borrow edge, since only mutable borrow edges are valid. */
  lemma ExpiryPairs(graph: Graph, place: Place, p: Place)
    ensures Blocks(ExpiryQuery(graph, place, MutBorrowAndAbstractionAmong), p) ==>
              Blocks(ExpiryQuery(graph, place, MutBorrowAmong), p)
    ensures Blocks(ExpiryQuery(graph, place, MutBorrowAmong), p) <==>
            exists t :: EndsAfterBorrow(ExpiryQuery(graph, place, MutBorrowAmong), t, p)
  {
    var any := ExpiryQuery(graph, place, MutBorrowAmong);
    var both := ExpiryQuery(graph, place, MutBorrowAndAbstractionAmong);
    if Blocks(both, p) {
      var t :| BlocksVia(both, t, p);
      SameTrails(both, any, t);
      assert BlocksVia(any, t, p);
    }
    if Blocks(any, p) {
      var t :| BlocksVia(any, t, p);
      var e :| e in KindsOf(t) && IsMutBorrow(e);
      var k :| 0 <= k < |t| && t[k] == e;
      assert EndsAfterBorrow(any, t, p);
    }
    forall t: seq<EdgeKind> | EndsAfterBorrow(any, t, p)
      ensures Blocks(any, p)
    {
      var k :| 0 <= k < |t| && t[k].data.Borrow?;
      TrailEdges(any, t, k);
      assert t[k] in KindsOf(t);
      assert BlocksVia(any, t, p);
    }
  }

  /** Trails do not depend on the blocking condition. */
  lemma SameTrails(q: Query, r: Query, t: seq<EdgeKind>)
    requires Trail(q, t) && q.graph == r.graph && q.start == r.start && q.isValidEdge == r.isValidEdge
    ensures Trail(r, t)
  {
    forall k | 0 <= k < |t| - 1
      ensures Follows(r, t[k], t[k + 1])
    {
      assert Follows(q, t[k], t[k + 1]);
    }
  }

  // ---------------------------------------------------------------- the pairs, read off the graph

  /** Nothing but exclusive access is passed on along the edge: a borrow is mutable, and what is expanded is a mutable
      reference. */
  predicate Exclusive(e: EdgeKind) {
    && (e.data.Borrow? ==> e.data.kind == Some(Mut(DefaultMut)))
    && (e.data.Expansion? ==> e.data.baseMutability == Some(true))
  }

  /** Edges of the graph, each of which blocks a node that the one before is blocked by, from `from` to `to`. */
  ghost predicate ExclusiveTrail(graph: Graph, from: Place, t: seq<EdgeKind>, to: Place) {
    && |t| > 0 && CurrentPlace(from) in t[0].blocked && CurrentPlace(to) in t[|t| - 1].blockedBy
    && (forall k :: 0 <= k < |t| ==> t[k] in graph && Exclusive(t[k]))
    && (forall k :: 0 <= k < |t| - 1 ==> Touching(t[k], t[k + 1]))
  }

  /** A local place is mutably borrowed by an edge of the graph. */
  ghost predicate LentOut(graph: Graph, place: Place) {
    exists e :: e in graph && e.data == Borrow(Some(Mut(DefaultMut)), false) && CurrentPlace(place) in e.blocked
  }

  lemma LentOutExactly(graph: Graph, place: Place)
    ensures place in MutablyBorrowedPlaces(graph) <==> LentOut(graph, place)
  {
    if place in MutablyBorrowedPlaces(graph) {
      var e, n :| e in graph && IsMutBorrow(e) && !e.data.remote && n in e.blocked && n.CurrentPlace?
          && n.place == place;
      assert n == CurrentPlace(place) && e.data == Borrow(Some(Mut(DefaultMut)), false);
    }
  }

  predicate Touching(e: EdgeKind, f: EdgeKind) {
    exists n :: n in e.blockedBy && n in f.blocked
  }

  lemma ExclusiveFollows(graph: Graph, e: EdgeKind, f: EdgeKind)
    ensures f in EdgesBlockingAny(graph, e.blockedBy, ValidEdge) <==> f in graph && Exclusive(f) && Touching(e, f)
  {
  }

  lemma TrailIsExclusive(graph: Graph, place: Place, isBlockingEdge: set<EdgeKind> -> bool, t: seq<EdgeKind>, p: Place)
    requires Trail(ExpiryQuery(graph, place, isBlockingEdge), t) && p in CurrentPlaces(t[|t| - 1].blockedBy)
    ensures ExclusiveTrail(graph, place, t, p)
  {
    var q := ExpiryQuery(graph, place, isBlockingEdge);
    forall k | 0 <= k < |t|
      ensures t[k] in graph && Exclusive(t[k])
    {
      TrailEdges(q, t, k);
    }
    forall k | 0 <= k < |t| - 1
      ensures Touching(t[k], t[k + 1])
    {
      assert Follows(q, t[k], t[k + 1]);
      ExclusiveFollows(graph, t[k], t[k + 1]);
    }
  }

  lemma ExclusiveIsTrail(graph: Graph, place: Place, isBlockingEdge: set<EdgeKind> -> bool, t: seq<EdgeKind>, p: Place)
    requires ExclusiveTrail(graph, place, t, p)
    ensures Trail(ExpiryQuery(graph, place, isBlockingEdge), t) && p in CurrentPlaces(t[|t| - 1].blockedBy)
  {
    var q := ExpiryQuery(graph, place, isBlockingEdge);
    forall k | 0 <= k < |t| - 1
      ensures Follows(q, t[k], t[k + 1])
    {
      ExclusiveFollows(graph, t[k], t[k + 1]);
    }
    assert t[0] in graph && Exclusive(t[0]);
  }

  ghost predicate ThroughBorrow(t: seq<EdgeKind>) {
    exists k :: 0 <= k < |t| && t[k].data.Borrow?
  }

  ghost predicate ThroughAbstraction(t: seq<EdgeKind>) {
    exists k :: 0 <= k < |t| && t[k].data.Abstraction?
  }

  lemma ConditionsExactly(graph: Graph, place: Place, t: seq<EdgeKind>, p: Place)
    requires ExclusiveTrail(graph, place, t, p)
    ensures MutBorrowAmong(KindsOf(t)) <==> ThroughBorrow(t)
    ensures MutBorrowAndAbstractionAmong(KindsOf(t)) <==> ThroughBorrow(t) && ThroughAbstraction(t)
  {
    if ThroughBorrow(t) {
      var k :| 0 <= k < |t| && t[k].data.Borrow?;
      assert Exclusive(t[k]) && t[k] in KindsOf(t) && IsMutBorrow(t[k]);
    }
    if ThroughAbstraction(t) {
      var k :| 0 <= k < |t| && t[k].data.Abstraction?;
      assert t[k] in KindsOf(t);
    }
  }

  /** The pairs of the first mutation: a place that is lent out and the end of a trail of exclusive edges from it with a
      borrow among them. */
  lemma BorrowExpiryExactly(graph: Graph, userVariables: set<Local>, pair: (Place, Place))
    ensures IsSequence(graph, userVariables, MutBorrowAmong, pair) <==>
              && pair.0.local in userVariables && pair.1.local in userVariables && LentOut(graph, pair.0)
              && exists t :: ExclusiveTrail(graph, pair.0, t, pair.1) && ThroughBorrow(t)
  {
    LentOutExactly(graph, pair.0);
    forall t: seq<EdgeKind>
      ensures BlocksVia(ExpiryQuery(graph, pair.0, MutBorrowAmong), t, pair.1) <==>
                ExclusiveTrail(graph, pair.0, t, pair.1) && ThroughBorrow(t)
    {
      if Trail(ExpiryQuery(graph, pair.0, MutBorrowAmong), t) && pair.1 in CurrentPlaces(t[|t| - 1].blockedBy) {
        TrailIsExclusive(graph, pair.0, MutBorrowAmong, t, pair.1);
      }
      if ExclusiveTrail(graph, pair.0, t, pair.1) {
        ExclusiveIsTrail(graph, pair.0, MutBorrowAmong, t, pair.1);
        ConditionsExactly(graph, pair.0, t, pair.1);
      }
    }
  }

  /** The pairs of the second mutation: there is an abstraction edge on the trail as well. */
  lemma AbstractExpiryExactly(graph: Graph, userVariables: set<Local>, pair: (Place, Place))
    ensures IsSequence(graph, userVariables, MutBorrowAndAbstractionAmong, pair) <==>
              && pair.0.local in userVariables && pair.1.local in userVariables && LentOut(graph, pair.0)
              && exists t :: ExclusiveTrail(graph, pair.0, t, pair.1) && ThroughBorrow(t) && ThroughAbstraction(t)
  {
    LentOutExactly(graph, pair.0);
    forall t: seq<EdgeKind>
      ensures BlocksVia(ExpiryQuery(graph, pair.0, MutBorrowAndAbstractionAmong), t, pair.1) <==>
                ExclusiveTrail(graph, pair.0, t, pair.1) && ThroughBorrow(t) && ThroughAbstraction(t)
    {
      if Trail(ExpiryQuery(graph, pair.0, MutBorrowAndAbstractionAmong), t)
          && pair.1 in CurrentPlaces(t[|t| - 1].blockedBy) {
        TrailIsExclusive(graph, pair.0, MutBorrowAndAbstractionAmong, t, pair.1);
      }
      if ExclusiveTrail(graph, pair.0, t, pair.1) {
        ExclusiveIsTrail(graph, pair.0, MutBorrowAndAbstractionAmong, t, pair.1);
        ConditionsExactly(graph, pair.0, t, pair.1);
      }
    }
  }
}
