/** The search of `find_use.rs` for the nearest use of a variable whose type mentions a region. */
module UseFinder {
  import opened Mir
  import opened BorrowSets

  // ---------------------------------------------------------------- definitions and uses

  datatype DefUse = Def | UseLive(local: Local) | UseDrop(local: Local)

  /** `categorize`: what a mention of `local` counts as. */
  function Categorize(u: LocalUse): DefUse {
    match u.context
    case Store => Def
    case CallOutput => Def
    case AsmOutput => Def
    case YieldOutput => Def
    case StorageMarker => Def
    case Ascription => UseLive(u.local)
    case OtherUse => UseLive(u.local)
    case DropUse => UseDrop(u.local)
  }

  function UsesAt(body: Body, p: Location): seq<LocalUse>
    requires IsPoint(body, p)
  {
    if IsTerminatorPoint(body, p) then TerminatorUses(body.blocks[p.block].terminator.kind)
    else StatementUses(body.blocks[p.block].statements[p.index].kind)
  }

  /** The last mention of a local that matters decides. */
  function LastDefUse(uses: seq<LocalUse>, mentioning: set<Local>): Option<DefUse> {
    if uses == [] then None
    else
      var last := |uses| - 1;
      if uses[last].local in mentioning then Some(Categorize(uses[last])) else LastDefUse(uses[..last], mentioning)
  }

  // ---------------------------------------------------------------- where to search

  /** Where to search: the points of a region, from a start point, for locals whose types mention the region. */
  datatype Search = Search(body: Body, region: set<Location>, mentioning: set<Local>, start: Location)

  ghost predicate ValidSearch(s: Search) {
    WellFormed(s.body) && IsPoint(s.body, s.start)
  }

  /** The points that follow `p`, without those entered only to clean up while unwinding. */
  function NextPoints(body: Body, p: Location): seq<Location>
    requires IsPoint(body, p)
  {
    if IsTerminatorPoint(body, p) then
      var kind := body.blocks[p.block].terminator.kind;
      BlockStarts(Successors(kind), Unwind(kind))
    else [Location(p.block, p.index + 1)]
  }

  function BlockStarts(blocks: seq<BasicBlock>, unwind: Option<UnwindAction>): seq<Location> {
    if blocks == [] then []
    else if unwind == Some(Cleanup(blocks[0])) then BlockStarts(blocks[1..], unwind)
    else [Location(blocks[0], 0)] + BlockStarts(blocks[1..], unwind)
  }

  lemma {:induction false} BlockStartsAre(blocks: seq<BasicBlock>, unwind: Option<UnwindAction>)
    ensures forall q :: q in BlockStarts(blocks, unwind) <==>
              q.index == 0 && q.block in blocks && unwind != Some(Cleanup(q.block))
  {
    if blocks != [] {
      BlockStartsAre(blocks[1..], unwind);
      assert blocks == [blocks[0]] + blocks[1..];
    }
  }

  lemma NextPointsAreEdges(body: Body, p: Location, q: Location)
    requires WellFormed(body) && IsPoint(body, p) && q in NextPoints(body, p)
    ensures Edge(body, p, q)
  {
    if IsTerminatorPoint(body, p) {
      var kind := body.blocks[p.block].terminator.kind;
      BlockStartsAre(Successors(kind), Unwind(kind));
    }
  }

  function PointsOfBlock(b: BasicBlock, n: nat): (points: set<Location>)
    ensures forall p: Location :: p in points <==> p.block == b && p.index < n
  {
    if n == 0 then {} else PointsOfBlock(b, n - 1) + {Location(b, n - 1)}
  }

  function PointsBelow(body: Body, n: nat): (points: set<Location>)
    requires n <= |body.blocks|
    ensures forall p :: p in points <==> IsPoint(body, p) && p.block < n
  {
    if n == 0 then {} else PointsBelow(body, n - 1) + PointsOfBlock(n - 1, |body.blocks[n - 1].statements| + 1)
  }

  /** The search as a graph: what follows a point, and what is found at it. */
  datatype Exploration = Exploration(
    start: Location,
    region: set<Location>,
    points: set<Location>,
    next: Location -> seq<Location>,
    defUse: Location -> Option<DefUse>)

  function ExplorationOf(s: Search): Exploration {
    Exploration(s.start, s.region, PointsBelow(s.body, |s.body.blocks|),
                (p: Location) => if IsPoint(s.body, p) then NextPoints(s.body, p) else [],
                (p: Location) => if IsPoint(s.body, p) then LastDefUse(UsesAt(s.body, p), s.mentioning) else None)
  }

  ghost predicate ValidExploration(s: Exploration) {
    && s.start in s.points
    && forall p, q :: p in s.points && q in s.next(p) ==> q in s.points
  }

  lemma SearchIsValid(s: Search)
    requires ValidSearch(s)
    ensures ValidExploration(ExplorationOf(s))
  {
    forall p, q | IsPoint(s.body, p) && q in NextPoints(s.body, p)
      ensures IsPoint(s.body, q)
    {
      NextPointsAreEdges(s.body, p, q);
    }
  }

  // ---------------------------------------------------------------- the search as paths

  predicate Continues(s: Exploration, p: Location) {
    p in s.region && s.defUse(p).None?
  }

  /** A path from the start on which the search goes on at every point before the last. */
  ghost predicate Walk(s: Exploration, path: seq<Location>) {
    && |path| > 0 && path[0] == s.start
    && forall k :: 0 <= k < |path| - 1 ==> WalkStep(s, path[k], path[k + 1])
  }

  ghost predicate WalkStep(s: Exploration, p: Location, q: Location) {
    p in s.points && Continues(s, p) && q in s.next(p)
  }

  /** The search can be at `p` after `d` steps. */
  ghost predicate AtDistance(s: Exploration, d: nat, p: Location) {
    exists path :: Walk(s, path) && |path| == d + 1 && path[d] == p
  }

  /** What the search reports at `p`, if anything. */
  function CauseAt(s: Exploration, p: Location): Option<DefUse> {
    if p in s.region && s.defUse(p).Some? && !s.defUse(p).value.Def? then s.defUse(p) else None
  }

  lemma {:induction false} WalkPoints(s: Exploration, path: seq<Location>, k: nat)
    requires ValidExploration(s) && Walk(s, path) && k < |path|
    ensures path[k] in s.points
  {
    if k > 0 {
      assert WalkStep(s, path[k - 1], path[k - 1 + 1]);
      WalkPoints(s, path, k - 1);
    }
  }

  lemma AtDistancePoint(s: Exploration, d: nat, p: Location)
    requires ValidExploration(s) && AtDistance(s, d, p)
    ensures p in s.points
  {
    var path :| Walk(s, path) && |path| == d + 1 && path[d] == p;
    WalkPoints(s, path, d);
  }

  lemma AtDistanceStep(s: Exploration, d: nat, p: Location, q: Location)
    requires AtDistance(s, d, p) && WalkStep(s, p, q)
    ensures AtDistance(s, d + 1, q)
  {
    var path :| Walk(s, path) && |path| == d + 1 && path[d] == p;
    var longer := path + [q];
    forall k | 0 <= k < |longer| - 1
      ensures WalkStep(s, longer[k], longer[k + 1])
    {
      if k < d {
        assert WalkStep(s, path[k], path[k + 1]);
      }
    }
    assert Walk(s, longer);
  }

  lemma AtDistanceBefore(s: Exploration, d: nat, q: Location) returns (p: Location)
    requires AtDistance(s, d + 1, q)
    ensures AtDistance(s, d, p) && WalkStep(s, p, q)
  {
    var path :| Walk(s, path) && |path| == d + 2 && path[d + 1] == q;
    p := path[d];
    assert WalkStep(s, path[d], path[d + 1]);
    var shorter := path[..d + 1];
    assert forall k :: 0 <= k < |shorter| - 1 ==> WalkStep(s, path[k], path[k + 1]);
    assert Walk(s, shorter);
  }

  // ---------------------------------------------------------------- the breadth-first invariant

  /** Every point at distance `d` in the region has been visited, or is in `queue`. */
  ghost predicate Seen(s: Exploration, d: nat, visited: set<Location>, queue: seq<Location>) {
    forall p :: AtDistance(s, d, p) && p in s.region ==> p in visited || p in queue
  }

  ghost predicate VisitedPoint(s: Exploration, visited: set<Location>, queue: seq<Location>, p: Location) {
    && p in s.points && CauseAt(s, p).None?
    && (Continues(s, p) ==> forall q :: q in s.next(p) && q in s.region ==> q in visited || q in queue)
  }

  /** The queue holds points at distance `d`, followed by points at distance `d + 1`; everything nearer has been
      visited, and what follows visited points has been visited or is in the queue. */
  ghost predicate Frontier(s: Exploration, d: nat, visited: set<Location>, near: seq<Location>, far: seq<Location>) {
    && ValidExploration(s)
    && (forall p :: p in near ==> AtDistance(s, d, p))
    && (forall p :: p in far ==> AtDistance(s, d + 1, p))
    && (forall k: nat :: k < d ==> Seen(s, k, visited, []))
    && Seen(s, d, visited, near)
    && (forall p :: p in visited ==> VisitedPoint(s, visited, near + far, p))
  }

  lemma FrontierStart(s: Exploration)
    requires ValidExploration(s)
    ensures Frontier(s, 0, {}, [s.start], [])
  {
    assert Walk(s, [s.start]);
    forall p | AtDistance(s, 0, p)
      ensures p == s.start
    {
      var path :| Walk(s, path) && |path| == 1 && path[0] == p;
    }
  }

  /** When no near point is left, the far ones come next. */
  lemma FrontierAdvance(s: Exploration, d: nat, visited: set<Location>, far: seq<Location>)
    requires Frontier(s, d, visited, [], far)
    ensures Frontier(s, d + 1, visited, far, [])
  {
    assert [] + far == far && far + [] == far;
    forall q | AtDistance(s, d + 1, q) && q in s.region
      ensures q in visited || q in far
    {
      var p := AtDistanceBefore(s, d, q);
      assert p in visited;
      assert VisitedPoint(s, visited, [] + far, p);
    }
  }

  /** The front of a queue that is not empty is a near point, at distance `d'`. */
  lemma FrontierFirst(s: Exploration, d: nat, visited: set<Location>, near: seq<Location>, far: seq<Location>)
    returns (d': nat, near': seq<Location>, far': seq<Location>)
    requires Frontier(s, d, visited, near, far) && near + far != []
    ensures Frontier(s, d', visited, near', far') && near' != [] && near' + far' == near + far
    ensures near'[0] in s.points && AtDistance(s, d', near'[0])
  {
    d', near', far' := d, near, far;
    if near == [] {
      FrontierAdvance(s, d, visited, far);
      d', near', far' := d + 1, far, [];
    }
    assert near'[0] in near';
    AtDistancePoint(s, d', near'[0]);
  }

  /** Whatever has been visited or queued stays so. */
  ghost predicate Grows(visited: set<Location>, queue: seq<Location>, visited': set<Location>, queue': seq<Location>) {
    forall p :: p in visited || p in queue ==> p in visited' || p in queue'
  }

  lemma VisitedGrows(s: Exploration, visited: set<Location>, queue: seq<Location>, visited': set<Location>,
                     queue': seq<Location>, p: Location)
    requires VisitedPoint(s, visited, queue, p)
    requires forall q :: q in s.region && (q in visited || q in queue) ==> q in visited' || q in queue'
    ensures VisitedPoint(s, visited', queue', p)
  {
  }

  /** A point that is outside the region or has been visited is dropped. */
  lemma FrontierSkip(s: Exploration, d: nat, visited: set<Location>, near: seq<Location>, far: seq<Location>)
    requires near != [] && Frontier(s, d, visited, near, far)
    requires near[0] !in s.region || near[0] in visited
    ensures Frontier(s, d, visited, near[1..], far)
  {
    assert near == [near[0]] + near[1..];
    assert near + far == [near[0]] + (near[1..] + far);
    forall p | p in visited
      ensures VisitedPoint(s, visited, near[1..] + far, p)
    {
      VisitedGrows(s, visited, near + far, visited, near[1..] + far, p);
    }
  }

  lemma SeenMoves(s: Exploration, d: nat, visited: set<Location>, queue: seq<Location>, visited': set<Location>,
                  queue': seq<Location>)
    requires Seen(s, d, visited, queue) && Grows(visited, queue, visited', queue')
    ensures Seen(s, d, visited', queue')
  {
  }

  /** A point without a use is visited, and what follows it joins the queue, unless it is a definition. */
  lemma FrontierVisit(s: Exploration, d: nat, visited: set<Location>, near: seq<Location>, far: seq<Location>,
                      next: seq<Location>)
    requires near != [] && Frontier(s, d, visited, near, far)
    requires near[0] in s.points && near[0] in s.region && CauseAt(s, near[0]).None?
    requires next == if Continues(s, near[0]) then s.next(near[0]) else []
    ensures Frontier(s, d, visited + {near[0]}, near[1..], far + next)
  {
    var p, visited' := near[0], visited + {near[0]};
    var queue, queue' := near + far, near[1..] + (far + next);
    assert near == [p] + near[1..];
    assert queue == [p] + (near[1..] + far) && queue' == (near[1..] + far) + next;
    assert Grows(visited, queue, visited', queue');
    assert Grows(visited, near, visited', near[1..]);
    SeenMoves(s, d, visited, near, visited', near[1..]);
    forall k: nat | k < d
      ensures Seen(s, k, visited', [])
    {
      SeenMoves(s, k, visited, [], visited', []);
    }
    forall q | q in far + next
      ensures AtDistance(s, d + 1, q)
    {
      if q !in far {
        AtDistanceStep(s, d, p, q);
      }
    }
    forall v | v in visited'
      ensures VisitedPoint(s, visited', queue', v)
    {
      if v in visited {
        VisitedGrows(s, visited, queue, visited', queue', v);
      }
    }
  }

  /** Nothing nearer than the front of the queue is a use. */
  lemma NoNearerUse(s: Exploration, d: nat, visited: set<Location>, near: seq<Location>, far: seq<Location>, k: nat,
                    q: Location)
    requires Frontier(s, d, visited, near, far)
    requires k < d && AtDistance(s, k, q) && q in s.points
    ensures CauseAt(s, q).None?
  {
    assert Seen(s, k, visited, []);
    if q in s.region {
      assert VisitedPoint(s, visited, near + far, q);
    }
  }

  ghost predicate NearestAt(s: Exploration, d: nat) {
    forall k: nat, q :: AtDistance(s, k, q) && q in s.points && CauseAt(s, q).Some? ==> k >= d
  }

  lemma FrontierNearest(s: Exploration, d: nat, visited: set<Location>, near: seq<Location>, far: seq<Location>)
    requires Frontier(s, d, visited, near, far)
    ensures NearestAt(s, d)
  {
    forall k: nat, q | AtDistance(s, k, q) && q in s.points && CauseAt(s, q).Some?
      ensures k >= d
    {
      if k < d {
        NoNearerUse(s, d, visited, near, far, k, q);
      }
    }
  }

  ghost predicate NoUse(s: Exploration) {
    forall k: nat, q :: AtDistance(s, k, q) && q in s.points ==> CauseAt(s, q).None?
  }

  lemma NothingFound(s: Exploration, d: nat, visited: set<Location>)
    requires Frontier(s, d, visited, [], [])
    ensures NoUse(s)
  {
    forall k: nat, q | AtDistance(s, k, q) && q in s.points
      ensures CauseAt(s, q).None?
    {
      if q in s.region {
        FrontierExhausted(s, d, visited, k, q);
      }
    }
  }

  /** With an empty queue, no use can be reached. */
  lemma {:induction false} FrontierExhausted(s: Exploration, d: nat, visited: set<Location>, k: nat, q: Location)
    requires Frontier(s, d, visited, [], [])
    requires AtDistance(s, k, q) && q in s.region
    ensures q in visited && VisitedPoint(s, visited, [], q)
  {
    var none: seq<Location> := [];
    assert none + [] == [];
    if k < d {
      assert Seen(s, k, visited, []);
    } else if k > d {
      var p := AtDistanceBefore(s, k - 1, q);
      FrontierExhausted(s, d, visited, k - 1, p);
    }
    assert VisitedPoint(s, visited, none + [], q);
  }

  // ---------------------------------------------------------------- the search on the body

  /** Control can go from `p` to `q`, other than to clean up while unwinding. */
  ghost predicate LeadsOn(body: Body, p: Location, q: Location) {
    && Edge(body, p, q)
    && (IsTerminatorPoint(body, p) ==> Unwind(body.blocks[p.block].terminator.kind) != Some(Cleanup(q.block)))
  }

  /** The point lies in the region and mentions no local of interest. */
  ghost predicate QuietAt(s: Search, p: Location) {
    IsPoint(s.body, p) && p in s.region && LastDefUse(UsesAt(s.body, p), s.mentioning).None?
  }

  ghost predicate QuietPath(s: Search, path: seq<Location>) {
    && |path| > 0 && path[0] == s.start
    && forall k :: 0 <= k < |path| - 1 ==> QuietStep(s, path[k], path[k + 1])
  }

  ghost predicate QuietStep(s: Search, p: Location, q: Location) {
    QuietAt(s, p) && LeadsOn(s.body, p, q)
  }

  /** The point lies in the region and uses or drops a local of interest. */
  ghost predicate UsedAt(s: Search, p: Location, cause: DefUse) {
    && IsPoint(s.body, p) && p in s.region && (cause.UseLive? || cause.UseDrop?)
    && LastDefUse(UsesAt(s.body, p), s.mentioning) == Some(cause)
  }

  ghost predicate LeadsToUse(s: Search, path: seq<Location>, p: Location, cause: DefUse) {
    QuietPath(s, path) && path[|path| - 1] == p && UsedAt(s, p, cause)
  }

  lemma StepExactly(s: Search, p: Location, q: Location)
    requires ValidSearch(s)
    ensures WalkStep(ExplorationOf(s), p, q) <==> QuietStep(s, p, q)
  {
    if IsPoint(s.body, p) {
      if IsTerminatorPoint(s.body, p) {
        var kind := s.body.blocks[p.block].terminator.kind;
        BlockStartsAre(Successors(kind), Unwind(kind));
      }
      if q in NextPoints(s.body, p) {
        NextPointsAreEdges(s.body, p, q);
      }
    }
  }

  lemma WalkExactly(s: Search, path: seq<Location>)
    requires ValidSearch(s)
    ensures Walk(ExplorationOf(s), path) <==> QuietPath(s, path)
  {
    forall k | 0 <= k < |path| - 1
      ensures WalkStep(ExplorationOf(s), path[k], path[k + 1]) <==> QuietStep(s, path[k], path[k + 1])
    {
      StepExactly(s, path[k], path[k + 1]);
    }
  }

  /** A path to a use is found by the search at its distance. */
  lemma UseIsCause(s: Search, path: seq<Location>, p: Location, cause: DefUse)
    requires ValidSearch(s) && LeadsToUse(s, path, p, cause)
    ensures AtDistance(ExplorationOf(s), |path| - 1, p) && p in ExplorationOf(s).points
    ensures CauseAt(ExplorationOf(s), p) == Some(cause)
  {
    WalkExactly(s, path);
  }

  /** A path to a use, and none is shorter. */
  ghost predicate NearestUse(s: Search, path: seq<Location>, p: Location, cause: DefUse) {
    && LeadsToUse(s, path, p, cause)
    && forall other, q, c :: LeadsToUse(s, other, q, c) ==> |path| <= |other|
  }

  lemma NearestIsFound(s: Search, p: Location, cause: DefUse)
    requires ValidSearch(s)
    requires p in ExplorationOf(s).points && CauseAt(ExplorationOf(s), p) == Some(cause)
    requires exists d: nat :: AtDistance(ExplorationOf(s), d, p) && NearestAt(ExplorationOf(s), d)
    ensures exists path :: NearestUse(s, path, p, cause)
  {
    var d: nat :| AtDistance(ExplorationOf(s), d, p) && NearestAt(ExplorationOf(s), d);
    var path :| Walk(ExplorationOf(s), path) && |path| == d + 1 && path[d] == p;
    WalkExactly(s, path);
    forall other, q, c | LeadsToUse(s, other, q, c)
      ensures |path| <= |other|
    {
      UseIsCause(s, other, q, c);
    }
    assert NearestUse(s, path, p, cause);
  }

  class Finder {
    const search: Search

    constructor (search: Search)
      ensures this.search == search
    {
      this.search := search;
    }

    /** Visits the locals of a point; every mention of a local that matters overwrites the result. */
    method DefUseAt(p: Location) returns (result: Option<DefUse>)
      requires IsPoint(search.body, p)
      ensures result == LastDefUse(UsesAt(search.body, p), search.mentioning)
    {
      var uses := UsesAt(search.body, p);
      result := None;
      var k := 0;
      while k < |uses|
        invariant k <= |uses|
        invariant result == LastDefUse(uses[..k], search.mentioning)
      {
        assert uses[..k + 1][..k] == uses[..k];
        if uses[k].local in search.mentioning {
          result := Some(Categorize(uses[k]));
        }
        k := k + 1;
      }
      assert uses[..k] == uses;
    }

    /** `s` describes this search. */
    ghost predicate Describes(s: Exploration) {
      && ValidExploration(s) && s.start == search.start && s.region == search.region
      && (forall p {:trigger DescribesAt(s, p)} :: p in s.points ==> DescribesAt(s, p))
    }

    ghost predicate DescribesAt(s: Exploration, p: Location) {
      && IsPoint(search.body, p)
      && s.next(p) == NextPoints(search.body, p)
      && s.defUse(p) == LastDefUse(UsesAt(search.body, p), search.mentioning)
    }

    /** What is found at a point of the search. */
    method Inspect(p: Location, ghost s: Exploration) returns (result: Option<DefUse>)
      requires Describes(s) && p in s.points
      ensures result == s.defUse(p)
    {
      assert DescribesAt(s, p);
      result := DefUseAt(p);
    }

    /** The points that follow `p`, if the search goes on after what was found there. */
    method Follow(p: Location, defUse: Option<DefUse>, ghost s: Exploration) returns (next: seq<Location>)
      requires Describes(s) && p in s.points && p in s.region && defUse == s.defUse(p)
      ensures next == if Continues(s, p) then s.next(p) else []
    {
      assert DescribesAt(s, p);
      next := if defUse.None? then NextPoints(search.body, p) else [];
    }

    /** The breadth-first loop. */
    method Explore(ghost s: Exploration) returns (found: Option<(DefUse, Location)>)
      requires Describes(s)
      ensures match found
              case Some((cause, p)) =>
                && p in s.points && CauseAt(s, p) == Some(cause)
                && exists d: nat :: AtDistance(s, d, p) && NearestAt(s, d)
              case None => NoUse(s)
    {
      var queue := [search.start];
      var visited: set<Location> := {};
      ghost var d: nat := 0;
      ghost var near, far: seq<Location> := queue, [];
      FrontierStart(s);
      while queue != []
        invariant queue == near + far
        invariant Frontier(s, d, visited, near, far)
        invariant visited <= s.points
        decreases s.points - visited, |queue|
      {
        d, near, far := FrontierFirst(s, d, visited, near, far);
        var p := queue[0];
        assert p == near[0];
        queue := queue[1..];
        if p !in search.region || p in visited {
          FrontierSkip(s, d, visited, near, far);
          near := near[1..];
          continue;
        }
        var defUse := Inspect(p, s);
        if defUse.Some? && !defUse.value.Def? {
          FrontierNearest(s, d, visited, near, far);
          return Some((defUse.value, p));
        }
        var next := Follow(p, defUse, s);
        FrontierVisit(s, d, visited, near, far, next);
        visited := visited + {p};
        queue := queue + next;
        near, far := near[1..], far + next;
      }
      NothingFound(s, d, visited);
      return None;
    }

    /** Finds a use that can be reached from the start through points of the region, without passing a definition or
        another use and without unwinding; among those, one at minimal distance. */
    method Find() returns (found: Option<(DefUse, Location)>)
      requires ValidSearch(search)
      ensures match found
              case Some((cause, p)) => exists path :: NearestUse(search, path, p, cause)
              case None => forall path, p, cause :: !LeadsToUse(search, path, p, cause)
    {
      SearchIsValid(search);
      found := Explore(ExplorationOf(search));
      match found
      case Some((cause, p)) =>
        NearestIsFound(search, p, cause);
      case None =>
        forall path, p, cause
          ensures !LeadsToUse(search, path, p, cause)
        {
          if LeadsToUse(search, path, p, cause) {
            UseIsCause(search, path, p, cause);
          }
        }
    }
  }
}
