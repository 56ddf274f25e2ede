/** When a two-phase borrow is active: the dominator test of `path_utils.rs` against what happened on the runs
    that reach a point. */
module TwoPhaseBorrows {
  import opened Mir

  // ---------------------------------------------------------------- dominance

  /** Every run that enters block `c` has been in block `b`. */
  ghost predicate BlockDominates(body: Body, b: BasicBlock, c: BasicBlock) {
    forall run: seq<Location> :: IsRun(body, run, Location(c, 0)) ==> exists k :: 0 <= k < |run| && run[k].block == b
  }

  /** The dominator tree of the blocks, as the compiler computes it. */
  type Dominators = (BasicBlock, BasicBlock) -> bool

  /** The tree is right about the blocks that can be reached. */
  ghost predicate DominatorsOf(body: Body, dominators: Dominators) {
    forall b: nat, c: nat :: Reachable(body, Location(c, 0)) ==> (dominators(b, c) <==> BlockDominates(body, b, c))
  }

  /** Dominance of locations, decided on blocks. */
  predicate Dominates(dominators: Dominators, p: Location, q: Location) {
    if p.block == q.block then p.index <= q.index else dominators(p.block, q.block)
  }

  ghost predicate PointDominates(body: Body, p: Location, q: Location) {
    forall run :: IsRun(body, run, q) ==> p in run
  }

  function SuccessorWithinBlock(p: Location): Location {
    Location(p.block, p.index + 1)
  }

  /** `is_active`: is the loan active at `p`? */
  predicate IsActive(dominators: Dominators, loan: BorrowData, p: Location) {
    match loan.activation
    case NotTwoPhase => true
    case NotActivated => false
    case ActivatedAt(a) =>
      Dominates(dominators, a, p) || !Dominates(dominators, SuccessorWithinBlock(loan.reserveLocation), p)
  }

  /** A path that ends within a block has come through the points of the block before that, unless it started
      in between. */
  lemma {:induction false} ThroughBlock(body: Body, run: seq<Location>, p: Location, j: nat) returns (k: nat)
    requires IsRun(body, run, p) && j <= p.index
    ensures k < |run| && run[k] == Location(p.block, j)
    decreases |run|
  {
    if j == p.index {
      k := |run| - 1;
    } else {
      var n := |run| - 1;
      assert n > 0;
      assert Edge(body, run[n - 1], run[n - 1 + 1]);
      PathSlice(body, run, 0, n);
      k := ThroughBlock(body, run[..n], run[n - 1], j);
    }
  }

  /** A run that was in block `b` and ends elsewhere has left `b` through its terminator. */
  lemma {:induction false} LeavesBlock(body: Body, run: seq<Location>, k: nat) returns (m: nat)
    requires IsPath(body, run) && k < |run| && run[k].block != run[|run| - 1].block
    ensures k <= m < |run| && run[m].block == run[k].block
    ensures IsPoint(body, run[m]) && IsTerminatorPoint(body, run[m])
    decreases |run| - k
  {
    assert Edge(body, run[k], run[k + 1]);
    if run[k + 1].block == run[k].block && !IsTerminatorPoint(body, run[k]) {
      m := LeavesBlock(body, run, k + 1);
    } else {
      m := k;
    }
  }

  /** The first visit of a run to its end. */
  lemma {:induction false} FirstVisit(body: Body, run: seq<Location>, q: Location) returns (short: seq<Location>)
    requires IsRun(body, run, q)
    ensures IsRun(body, short, q) && forall j :: 0 <= j < |short| - 1 ==> short[j] != q
    decreases |run|
  {
    var n := |run| - 1;
    if q in run[..n] {
      var k :| 0 <= k < n && run[k] == q;
      PathSlice(body, run, 0, k + 1);
      short := FirstVisit(body, run[..k + 1], q);
    } else {
      short := run;
    }
  }

  lemma LaterInBlock(body: Body, p: Location, q: Location)
    requires Reachable(body, q) && p.block == q.block && p.index > q.index
    ensures !PointDominates(body, p, q)
  {
    var run :| IsRun(body, run, q);
    var short := FirstVisit(body, run, q);
    if p in short {
      var m :| 0 <= m < |short| && short[m] == p;
      PathSlice(body, short, 0, m + 1);
      var k := ThroughBlock(body, short[..m + 1], p, q.index);
    }
    assert p !in short;
  }

  /** For reachable points, dominance decided on blocks is dominance of points. */
  lemma DominatesPointwise(body: Body, dominators: Dominators, p: Location, q: Location)
    requires DominatorsOf(body, dominators)
    requires Reachable(body, q) && IsPoint(body, p)
    ensures Dominates(dominators, p, q) <==> PointDominates(body, p, q)
  {
    if p.block == q.block {
      if p.index <= q.index {
        forall run | IsRun(body, run, q)
          ensures p in run
        {
          var k := ThroughBlock(body, run, q, p.index);
        }
      } else {
        LaterInBlock(body, p, q);
      }
    } else {
      if BlockDominates(body, p.block, q.block) {
        forall run | IsRun(body, run, q)
          ensures p in run
        {
          DominatedRun(body, p, q, run);
        }
      }
      var toQ :| IsRun(body, toQ, q);
      PathPoints(body, toQ, |toQ| - 1);
      var e := ThroughBlock(body, toQ, q, 0);
      PathSlice(body, toQ, 0, e + 1);
      assert IsRun(body, toQ[..e + 1], Location(q.block, 0));
      if PointDominates(body, p, q) {
        forall run: seq<Location> | IsRun(body, run, Location(q.block, 0))
          ensures exists k :: 0 <= k < |run| && run[k].block == p.block
        {
          DominatorVisited(body, p, q, run);
        }
      }
    }
  }

  lemma DominatedRun(body: Body, p: Location, q: Location, run: seq<Location>)
    requires IsPoint(body, p) && p.block != q.block && BlockDominates(body, p.block, q.block)
    requires IsRun(body, run, q)
    ensures p in run
  {
    var e := ThroughBlock(body, run, q, 0);
    PathSlice(body, run, 0, e + 1);
    var entry := run[..e + 1];
    assert IsRun(body, entry, Location(q.block, 0));
    var k :| 0 <= k < |entry| && entry[k].block == p.block;
    var m := LeavesBlock(body, entry, k);
    PathSlice(body, entry, 0, m + 1);
    var i := ThroughBlock(body, entry[..m + 1], entry[m], p.index);
    assert run[i] == p;
  }

  lemma DominatorVisited(body: Body, p: Location, q: Location, run: seq<Location>)
    requires p.block != q.block && PointDominates(body, p, q) && IsPoint(body, q)
    requires IsRun(body, run, Location(q.block, 0))
    ensures exists k :: 0 <= k < |run| && run[k].block == p.block
  {
    var rest := BlockPath(body, q.block, 0, q.index);
    PathJoin(body, run, rest);
    var longer := run + rest[1..];
    assert IsRun(body, longer, q);
    var k :| 0 <= k < |longer| && longer[k] == p;
    forall j | |run| <= j < |longer|
      ensures longer[j].block == q.block
    {
      assert longer[j] == rest[j - |run| + 1];
    }
    assert run[k].block == p.block;
  }

  // ---------------------------------------------------------------- the diamond

  ghost predicate Avoids(run: seq<Location>, x: Location, from: nat, to: nat)
    requires to <= |run|
  {
    forall j :: from <= j < to ==> run[j] != x
  }

  /** Of leaving the reservation and entering the activation, the former happened last on the run. */
  ghost predicate ReservedLast(run: seq<Location>, afterReserve: Location, activation: Location) {
    exists k :: 0 <= k < |run| && run[k] == afterReserve && Avoids(run, activation, k, |run|)
  }

  /** The points between reservation and activation, as the dominator test sees them. */
  ghost predicate InDiamond(body: Body, r: Location, a: Location, p: Location) {
    && Reachable(body, p)
    && PointDominates(body, SuccessorWithinBlock(r), p)
    && !PointDominates(body, a, p)
  }

  /** Nothing leaves the activation and comes back into the diamond unless it passes through the reservation. */
  ghost predicate NoReentry(body: Body, r: Location, a: Location) {
    forall path :: IsPath(body, path) && path[0] == a && InDiamond(body, r, a, path[|path| - 1]) ==> r in path
  }

  /** The test is right at `p`: the borrow is inactive there exactly when it is reserved on every run. */
  ghost predicate ExactAt(body: Body, dominators: Dominators, loan: BorrowData, p: Location)
    requires loan.activation.ActivatedAt?
  {
    !IsActive(dominators, loan, p) <==> ReservedOnEveryRun(body, loan, p)
  }

  ghost predicate ReservedOnEveryRun(body: Body, loan: BorrowData, p: Location)
    requires loan.activation.ActivatedAt?
  {
    forall run :: IsRun(body, run, p) ==>
      ReservedLast(run, SuccessorWithinBlock(loan.reserveLocation), loan.activation.location)
  }

  /** A reservation that is a statement, and an activation that is reached only through it. */
  ghost predicate ProperActivation(body: Body, loan: BorrowData) {
    && loan.activation.ActivatedAt?
    && IsPoint(body, loan.reserveLocation) && !IsTerminatorPoint(body, loan.reserveLocation)
    && IsPoint(body, loan.activation.location) && Reachable(body, loan.activation.location)
    && loan.activation.location != loan.reserveLocation
    && PointDominates(body, loan.reserveLocation, loan.activation.location)
  }

  lemma InactiveIsDiamond(body: Body, dominators: Dominators, loan: BorrowData, p: Location)
    requires DominatorsOf(body, dominators)
    requires ProperActivation(body, loan) && Reachable(body, p)
    ensures !IsActive(dominators, loan, p) <==> InDiamond(body, loan.reserveLocation, loan.activation.location, p)
  {
    DominatesPointwise(body, dominators, loan.activation.location, p);
    DominatesPointwise(body, dominators, SuccessorWithinBlock(loan.reserveLocation), p);
  }

  /** The only way to the point after a statement is through the statement. */
  lemma BeforeSuccessor(body: Body, path: seq<Location>, k: nat, r: Location)
    requires IsPath(body, path) && 0 < k < |path| && path[k] == SuccessorWithinBlock(r)
    ensures path[k - 1] == r
  {
    assert Edge(body, path[k - 1], path[k - 1 + 1]);
  }

  /** After a statement comes the point after it. */
  lemma AfterStatement(body: Body, path: seq<Location>, k: nat, r: Location)
    requires IsPath(body, path) && k < |path| - 1 && path[k] == r
    requires IsPoint(body, r) && !IsTerminatorPoint(body, r)
    ensures path[k + 1] == SuccessorWithinBlock(r)
  {
    assert Edge(body, path[k], path[k + 1]);
  }

  lemma FirstOccurrence(s: seq<Location>, x: Location) returns (k: nat)
    requires x in s
    ensures k < |s| && s[k] == x && Avoids(s, x, 0, k)
  {
    k := 0;
    while s[k] != x
      invariant k < |s| && Avoids(s, x, 0, k)
      decreases |s| - k
    {
      k := k + 1;
    }
  }

  lemma LastOccurrence(s: seq<Location>, x: Location) returns (k: nat)
    requires x in s
    ensures k < |s| && s[k] == x && Avoids(s, x, k + 1, |s|)
  {
    k := |s| - 1;
    while s[k] != x
      invariant k < |s| && Avoids(s, x, k + 1, |s|)
      invariant exists j :: 0 <= j <= k && s[j] == x
      decreases k
    {
      k := k - 1;
    }
  }

  /** Before the first time a run leaves the reservation it has not entered the activation. */
  lemma NotActivatedBefore(body: Body, loan: BorrowData, run: seq<Location>, k: nat)
    requires ProperActivation(body, loan)
    requires IsPath(body, run) && run[0] == START && k < |run|
    requires Avoids(run, SuccessorWithinBlock(loan.reserveLocation), 0, k)
    ensures Avoids(run, loan.activation.location, 0, k)
  {
    var r, a := loan.reserveLocation, loan.activation.location;
    forall m | 0 <= m < k
      ensures run[m] != a
    {
      if run[m] == a {
        PathSlice(body, run, 0, m + 1);
        assert IsRun(body, run[..m + 1], a);
        var i :| 0 <= i < m + 1 && run[..m + 1][i] == r;
        AfterStatement(body, run, i, r);
      }
    }
  }

  /** A run on which the borrow ends up reserved can be cut short to one that never activates it. */
  lemma NeverActivated(body: Body, loan: BorrowData, p: Location, run: seq<Location>, k: nat)
    returns (short: seq<Location>)
    requires ProperActivation(body, loan)
    requires IsRun(body, run, p) && k < |run|
    requires run[k] == SuccessorWithinBlock(loan.reserveLocation)
    requires Avoids(run, loan.activation.location, k, |run|)
    ensures IsRun(body, short, p) && Avoids(short, loan.activation.location, 0, |short|)
  {
    var s, a := SuccessorWithinBlock(loan.reserveLocation), loan.activation.location;
    var f := FirstOccurrence(run, s);
    NotActivatedBefore(body, loan, run, f);
    var left, right := run[..f + 1], run[k..];
    PathSlice(body, run, 0, f + 1);
    PathSlice(body, run, k, |run|);
    PathJoin(body, left, right);
    short := left + right[1..];
    assert s != a;
    forall j | 0 <= j < |short|
      ensures short[j] != a
    {
      if j > f {
        assert short[j] == run[k + (j - f)];
      } else {
        assert short[j] == run[j];
      }
    }
  }

  /** A point where the borrow is reserved on every run lies in the diamond. */
  lemma ReservedIsDiamond(body: Body, loan: BorrowData, p: Location)
    requires ProperActivation(body, loan) && Reachable(body, p)
    requires ReservedOnEveryRun(body, loan, p)
    ensures InDiamond(body, loan.reserveLocation, loan.activation.location, p)
  {
    var s, a := SuccessorWithinBlock(loan.reserveLocation), loan.activation.location;
    forall run | IsRun(body, run, p)
      ensures s in run
    {
      assert ReservedLast(run, s, a);
    }
    var run :| IsRun(body, run, p);
    assert ReservedLast(run, s, a);
    var k :| 0 <= k < |run| && run[k] == s && Avoids(run, a, k, |run|);
    var short := NeverActivated(body, loan, p, run, k);
    assert a !in short;
  }

  /** In the diamond, the borrow is reserved on every run, provided that nothing re-enters. */
  lemma DiamondIsReserved(body: Body, loan: BorrowData, p: Location, run: seq<Location>)
    requires ProperActivation(body, loan)
    requires NoReentry(body, loan.reserveLocation, loan.activation.location)
    requires InDiamond(body, loan.reserveLocation, loan.activation.location, p)
    requires IsRun(body, run, p)
    ensures ReservedLast(run, SuccessorWithinBlock(loan.reserveLocation), loan.activation.location)
  {
    var r, s, a := loan.reserveLocation, SuccessorWithinBlock(loan.reserveLocation), loan.activation.location;
    if a in run {
      SuccessorNotBefore(body, r, p);
      var k := LastOccurrence(run, a);
      ReservedAfterActivation(body, r, a, p, run, k);
    } else {
      var k :| 0 <= k < |run| && run[k] == s;
      assert Avoids(run, a, k, |run|);
    }
  }

  /** After the last activation the run passes the reservation on its way back into the diamond. */
  lemma ReservedAfterActivation(body: Body, r: Location, a: Location, p: Location, run: seq<Location>, k: nat)
    requires NoReentry(body, r, a) && InDiamond(body, r, a, p) && p != r
    requires IsPoint(body, r) && !IsTerminatorPoint(body, r)
    requires IsRun(body, run, p)
    requires k < |run| && run[k] == a && Avoids(run, a, k + 1, |run|)
    ensures ReservedLast(run, SuccessorWithinBlock(r), a)
  {
    PathSlice(body, run, k, |run|);
    var rest := run[k..];
    assert r in rest;
    var j :| 0 <= j < |rest| && rest[j] == r;
    AfterStatement(body, run, k + j, r);
    assert Avoids(run, a, k + j + 1, |run|);
  }

  lemma SuccessorNotBefore(body: Body, r: Location, p: Location)
    requires Reachable(body, p) && PointDominates(body, SuccessorWithinBlock(r), p)
    ensures p != r
  {
    if p == r {
      LaterInBlock(body, SuccessorWithinBlock(r), r);
    }
  }

  /** With an activation that nothing leaves to re-enter the diamond, the test is right at every point. */
  lemma InactiveExactly(body: Body, dominators: Dominators, loan: BorrowData, p: Location)
    requires DominatorsOf(body, dominators)
    requires ProperActivation(body, loan)
    requires NoReentry(body, loan.reserveLocation, loan.activation.location)
    requires Reachable(body, p)
    ensures ExactAt(body, dominators, loan, p)
  {
    InactiveIsDiamond(body, dominators, loan, p);
    if !IsActive(dominators, loan, p) {
      forall run | IsRun(body, run, p)
        ensures ReservedLast(run, SuccessorWithinBlock(loan.reserveLocation), loan.activation.location)
      {
        DiamondIsReserved(body, loan, p, run);
      }
    } else if ReservedOnEveryRun(body, loan, p) {
      ReservedIsDiamond(body, loan, p);
    }
  }

  /** The test is right at every reachable point if and only if nothing re-enters the diamond. */
  lemma ExactEverywhereIffNoReentry(body: Body, dominators: Dominators, loan: BorrowData)
    requires DominatorsOf(body, dominators)
    requires ProperActivation(body, loan)
    ensures (forall p :: Reachable(body, p) ==> ExactAt(body, dominators, loan, p))
       <==> NoReentry(body, loan.reserveLocation, loan.activation.location)
  {
    var r, a := loan.reserveLocation, loan.activation.location;
    if NoReentry(body, r, a) {
      forall p | Reachable(body, p)
        ensures ExactAt(body, dominators, loan, p)
      {
        InactiveExactly(body, dominators, loan, p);
      }
    }
    if forall p :: Reachable(body, p) ==> ExactAt(body, dominators, loan, p) {
      forall path | IsPath(body, path) && path[0] == a && InDiamond(body, r, a, path[|path| - 1])
        ensures r in path
      {
        ExactForbidsReentry(body, dominators, loan, path);
      }
    }
  }

  lemma ExactForbidsReentry(body: Body, dominators: Dominators, loan: BorrowData, path: seq<Location>)
    requires DominatorsOf(body, dominators)
    requires ProperActivation(body, loan)
    requires IsPath(body, path) && path[0] == loan.activation.location
    requires InDiamond(body, loan.reserveLocation, loan.activation.location, path[|path| - 1])
    requires ExactAt(body, dominators, loan, path[|path| - 1])
    ensures loan.reserveLocation in path
  {
    var r, s, a := loan.reserveLocation, SuccessorWithinBlock(loan.reserveLocation), loan.activation.location;
    var p := path[|path| - 1];
    InactiveIsDiamond(body, dominators, loan, p);
    var start :| IsRun(body, start, a);
    PathJoin(body, start, path);
    var run := start + path[1..];
    assert IsRun(body, run, p);
    assert ReservedLast(run, s, a);
    var k :| 0 <= k < |run| && run[k] == s && Avoids(run, a, k, |run|);
    var n := |start| - 1;
    assert run[n] == a;
    BeforeSuccessor(body, run, k, r);
    assert run[k - 1] == path[k - 1 - n];
  }
}
