/** Where loans leave their regions: the block-level worklist of `dataflow.rs`. */
module LoanScopes {
  import opened Mir

  // ---------------------------------------------------------------- specification

  /** The points the region of a loan holds at, as the scan of a block sees it: a region without a row
      has no first point outside. */
  function Inside(values: RegionValues, r: RegionVid): Location -> bool {
    (p: Location) => r !in values || p in values[r]
  }

  /** The least statement index in `lo..=hi` that lies outside. */
  function FirstOutside(inside: Location -> bool, block: BasicBlock, lo: nat, hi: nat): (k: Option<nat>)
    ensures k.Some? ==> lo <= k.value <= hi && !inside(Location(block, k.value))
    ensures k.Some? ==> forall i :: lo <= i < k.value ==> inside(Location(block, i))
    ensures k.None? ==> forall i :: lo <= i <= hi ==> inside(Location(block, i))
    decreases hi + 1 - lo
  {
    if lo > hi then None
    else if !inside(Location(block, lo)) then Some(lo)
    else FirstOutside(inside, block, lo + 1, hi)
  }

  ghost predicate InsideBeforeEnd(inside: Location -> bool, path: seq<Location>) {
    forall k :: 0 <= k < |path| - 1 ==> inside(path[k])
  }

  /** A path from `first` to `p` whose points before `p` are all inside. */
  ghost predicate Leads(body: Body, inside: Location -> bool, first: Location, p: Location) {
    exists path :: IsPathFromTo(body, path, first, p) && InsideBeforeEnd(inside, path)
  }

  /** A point where the loan issued at `first` goes out of scope: outside, and reached from inside. */
  ghost predicate KillPoint(body: Body, inside: Location -> bool, first: Location, p: Location) {
    !inside(p) && Leads(body, inside, first, p)
  }

  type KillMap = map<Location, seq<BorrowIndex>>

  function KillsAt(kills: KillMap, p: Location): seq<BorrowIndex> {
    if p in kills then kills[p] else []
  }

  function RecordKill(kills: KillMap, p: Location, i: BorrowIndex): KillMap {
    kills[p := KillsAt(kills, p) + [i]]
  }

  /** `after` is `before` with `i` recorded once more at each of `points`, and nothing else. */
  ghost predicate Recorded(before: KillMap, after: KillMap, points: set<Location>, i: BorrowIndex) {
    && (forall p :: KillsAt(after, p) == KillsAt(before, p) + if p in points then [i] else [])
    && after.Keys == before.Keys + points
  }

  /** `i` is recorded at the kill points of its loan, once at each. */
  ghost predicate KillPointsRecorded(body: Body, inside: Location -> bool, first: Location,
                                     before: KillMap, after: KillMap, i: BorrowIndex) {
    && (forall p :: KillsAt(after, p) == KillsAt(before, p) + if KillPoint(body, inside, first, p) then [i] else [])
    && (forall p :: p in after <==> p in before || KillPoint(body, inside, first, p))
  }

  /** The loans among the first `n` that go out of scope at `p`, in ascending order. */
  ghost function LoansKilledAt(body: Body, insides: seq<Location -> bool>, loans: seq<BorrowData>, p: Location, n: nat)
    : seq<BorrowIndex>
    requires n <= |loans| == |insides|
  {
    if n == 0 then []
    else
      LoansKilledAt(body, insides, loans, p, n - 1)
      + if KillPoint(body, insides[n - 1], loans[n - 1].reserveLocation, p) then [n - 1] else []
  }

  lemma {:induction false} LoansKilledAre(body: Body, insides: seq<Location -> bool>, loans: seq<BorrowData>,
                                          p: Location, n: nat)
    requires n <= |loans| == |insides|
    ensures var killed := LoansKilledAt(body, insides, loans, p, n);
            && (forall i: nat :: i in killed <==> i < n && KillPoint(body, insides[i], loans[i].reserveLocation, p))
            && (forall j, k :: 0 <= j < k < |killed| ==> killed[j] < killed[k])
  {
    if n > 0 {
      LoansKilledAre(body, insides, loans, p, n - 1);
      var killed, before := LoansKilledAt(body, insides, loans, p, n), LoansKilledAt(body, insides, loans, p, n - 1);
      forall j | 0 <= j < |before|
        ensures before[j] < n - 1
      {
        assert before[j] in before;
      }
      assert forall i: nat :: i in killed <==>
               i in before || (i == n - 1 && KillPoint(body, insides[n - 1], loans[n - 1].reserveLocation, p));
    }
  }

  // ---------------------------------------------------------------- the invariant of the scan

  function LastIndex(body: Body, b: BasicBlock): nat
    requires b < |body.blocks|
  {
    |body.blocks[b].statements|
  }

  function BlockSuccessors(body: Body, b: BasicBlock): seq<BasicBlock>
    requires b < |body.blocks|
  {
    Successors(body.blocks[b].terminator.kind)
  }

  function BlocksBelow(n: nat): (blocks: set<BasicBlock>)
    ensures forall b: nat :: b in blocks <==> b < n
  {
    if n == 0 then {} else BlocksBelow(n - 1) + {n - 1}
  }

  function AllBlocks(body: Body): set<BasicBlock> {
    BlocksBelow(|body.blocks|)
  }

  ghost predicate Distinct(stack: seq<BasicBlock>) {
    forall j, k :: 0 <= j < k < |stack| ==> stack[j] != stack[k]
  }

  ghost predicate Contains(visited: set<BasicBlock>, blocks: seq<BasicBlock>) {
    forall b :: b in blocks ==> b in visited
  }

  /** The part of the state that only concerns which blocks are entered. */
  ghost predicate Entered(body: Body, inside: Location -> bool, first: Location,
                          visited: set<BasicBlock>, stack: seq<BasicBlock>) {
    && visited <= AllBlocks(body)
    && Distinct(stack) && Contains(visited, stack)
    && (forall b :: b in visited ==> Leads(body, inside, first, Location(b, 0)))
  }

  /** A block whose scan is complete: killed at its first point outside, or passed on to its successors. */
  ghost predicate Scanned(body: Body, inside: Location -> bool, visited: set<BasicBlock>, killed: set<Location>,
                          b: BasicBlock)
    requires b < |body.blocks|
  {
    match FirstOutside(inside, b, 0, LastIndex(body, b))
    case Some(k) => Location(b, k) in killed
    case None => Contains(visited, BlockSuccessors(body, b))
  }

  ghost predicate KilledIn(body: Body, inside: Location -> bool, visited: set<BasicBlock>, stack: seq<BasicBlock>,
                           p: Location) {
    && p.block < |body.blocks| && p.block in visited && p.block !in stack
    && FirstOutside(inside, p.block, 0, LastIndex(body, p.block)) == Some(p.index)
  }

  ghost predicate ScanInvariant(body: Body, inside: Location -> bool, first: Location, visited: set<BasicBlock>,
                                stack: seq<BasicBlock>, killed: set<Location>) {
    && WellFormed(body) && IsPoint(body, first)
    && Entered(body, inside, first, visited, stack)
    && FirstOutside(inside, first.block, first.index, LastIndex(body, first.block)).None?
    && Contains(visited, BlockSuccessors(body, first.block))
    && (forall b :: b in visited && b !in stack ==> Scanned(body, inside, visited, killed, b))
    && (forall p :: p in killed ==> KilledIn(body, inside, visited, stack, p))
  }

  lemma LeadsStep(body: Body, inside: Location -> bool, first: Location, p: Location, q: Location)
    requires Leads(body, inside, first, p) && inside(p) && Edge(body, p, q)
    ensures Leads(body, inside, first, q)
  {
    var path :| IsPathFromTo(body, path, first, p) && InsideBeforeEnd(inside, path);
    PathExtend(body, path, q);
    assert IsPathFromTo(body, path + [q], first, q);
  }

  lemma {:induction false} LeadsWithinBlock(body: Body, inside: Location -> bool, first: Location, b: BasicBlock,
                                            lo: nat, hi: nat)
    requires b < |body.blocks| && lo <= hi <= LastIndex(body, b)
    requires Leads(body, inside, first, Location(b, lo))
    requires forall i :: lo <= i < hi ==> inside(Location(b, i))
    ensures Leads(body, inside, first, Location(b, hi))
    decreases hi - lo
  {
    if lo < hi {
      LeadsStep(body, inside, first, Location(b, lo), Location(b, lo + 1));
      LeadsWithinBlock(body, inside, first, b, lo + 1, hi);
    }
  }

  lemma LeadsToSuccessor(body: Body, inside: Location -> bool, first: Location, b: BasicBlock, lo: nat, c: BasicBlock)
    requires WellFormed(body)
    requires b < |body.blocks| && lo <= LastIndex(body, b)
    requires Leads(body, inside, first, Location(b, lo))
    requires FirstOutside(inside, b, lo, LastIndex(body, b)).None?
    requires c in BlockSuccessors(body, b)
    ensures c < |body.blocks| && Leads(body, inside, first, Location(c, 0))
  {
    LeadsWithinBlock(body, inside, first, b, lo, LastIndex(body, b));
    LeadsStep(body, inside, first, Location(b, LastIndex(body, b)), Location(c, 0));
  }

  lemma LeadsFirst(body: Body, inside: Location -> bool, first: Location)
    requires IsPoint(body, first)
    ensures Leads(body, inside, first, first)
  {
    assert IsPathFromTo(body, [first], first, first);
  }

  /** Points that a path from `first` can reach without leaving the region. */
  ghost predicate Covered(body: Body, inside: Location -> bool, first: Location, visited: set<BasicBlock>,
                          p: Location) {
    && IsPoint(body, p)
    && ((p.block == first.block && first.index <= p.index)
        || (p.block in visited && forall i :: 0 <= i < p.index ==> inside(Location(p.block, i))))
  }

  lemma {:induction false} PathCovered(body: Body, inside: Location -> bool, first: Location, visited: set<BasicBlock>,
                                       killed: set<Location>, path: seq<Location>, k: nat)
    requires ScanInvariant(body, inside, first, visited, [], killed)
    requires IsPath(body, path) && path[0] == first && InsideBeforeEnd(inside, path)
    requires k < |path|
    ensures Covered(body, inside, first, visited, path[k])
  {
    PathPoints(body, path, k);
    if k > 0 {
      PathCovered(body, inside, first, visited, killed, path, k - 1);
      var p, q := path[k - 1], path[k];
      assert Edge(body, path[k - 1], path[k - 1 + 1]);
      assert inside(p);
      if IsTerminatorPoint(body, p) && p.block in visited && !(p.block == first.block && first.index <= p.index) {
        assert Scanned(body, inside, visited, killed, p.block);
        assert forall i :: 0 <= i <= p.index ==> inside(Location(p.block, i));
      }
    }
  }

  /** When the worklist is empty, exactly the kill points have been recorded. */
  lemma ScanComplete(body: Body, inside: Location -> bool, first: Location, visited: set<BasicBlock>,
                     killed: set<Location>)
    requires ScanInvariant(body, inside, first, visited, [], killed)
    ensures forall p :: p in killed <==> KillPoint(body, inside, first, p)
  {
    forall p
      ensures p in killed <==> KillPoint(body, inside, first, p)
    {
      if p in killed {
        assert KilledIn(body, inside, visited, [], p);
        LeadsWithinBlock(body, inside, first, p.block, 0, p.index);
      }
      if KillPoint(body, inside, first, p) {
        var path :| IsPathFromTo(body, path, first, p) && InsideBeforeEnd(inside, path);
        PathCovered(body, inside, first, visited, killed, path, |path| - 1);
        assert Scanned(body, inside, visited, killed, p.block);
      }
    }
  }

  /** A loan that dies in its first block dies nowhere else. */
  lemma DiesInFirstBlock(body: Body, inside: Location -> bool, first: Location, k: nat)
    requires IsPoint(body, first)
    requires FirstOutside(inside, first.block, first.index, LastIndex(body, first.block)) == Some(k)
    ensures forall p :: KillPoint(body, inside, first, p) <==> p == Location(first.block, k)
  {
    LeadsFirst(body, inside, first);
    LeadsWithinBlock(body, inside, first, first.block, first.index, k);
    forall p | KillPoint(body, inside, first, p)
      ensures p == Location(first.block, k)
    {
      var path :| IsPathFromTo(body, path, first, p) && InsideBeforeEnd(inside, path);
      StraightPath(body, inside, first, k, path, |path| - 1);
    }
  }

  lemma {:induction false} StraightPath(body: Body, inside: Location -> bool, first: Location, k: nat,
                                        path: seq<Location>, j: nat)
    requires IsPoint(body, first)
    requires FirstOutside(inside, first.block, first.index, LastIndex(body, first.block)) == Some(k)
    requires IsPath(body, path) && path[0] == first && InsideBeforeEnd(inside, path)
    requires j < |path|
    ensures path[j] == Location(first.block, first.index + j) && first.index + j <= k
  {
    if j > 0 {
      StraightPath(body, inside, first, k, path, j - 1);
      assert Edge(body, path[j - 1], path[j - 1 + 1]);
      assert inside(path[j - 1]);
    }
  }

  // ---------------------------------------------------------------- the steps of the scan

  function Top(stack: seq<BasicBlock>): BasicBlock
    requires stack != []
  {
    stack[|stack| - 1]
  }

  function Pop(stack: seq<BasicBlock>): seq<BasicBlock>
    requires stack != []
  {
    stack[..|stack| - 1]
  }

  lemma TopIsBlock(body: Body, inside: Location -> bool, first: Location, visited: set<BasicBlock>,
                   stack: seq<BasicBlock>, killed: set<Location>)
    requires stack != [] && ScanInvariant(body, inside, first, visited, stack, killed)
    ensures Top(stack) < |body.blocks|
  {
    assert Top(stack) in stack;
  }

  lemma VisitedAreBlocks(body: Body, inside: Location -> bool, first: Location, visited: set<BasicBlock>,
                         stack: seq<BasicBlock>, killed: set<Location>)
    requires ScanInvariant(body, inside, first, visited, stack, killed)
    ensures visited <= AllBlocks(body)
  {
  }

  /** The blocks of `succs` that are entered now, in order. */
  function NewBlocks(visited: set<BasicBlock>, succs: seq<BasicBlock>): seq<BasicBlock>
    decreases |succs|
  {
    if succs == [] then []
    else if succs[0] in visited then NewBlocks(visited, succs[1..])
    else [succs[0]] + NewBlocks(visited + {succs[0]}, succs[1..])
  }

  lemma {:induction false} NewBlocksAre(visited: set<BasicBlock>, succs: seq<BasicBlock>)
    ensures Distinct(NewBlocks(visited, succs))
    ensures forall b :: b in NewBlocks(visited, succs) <==> b in succs && b !in visited
    decreases |succs|
  {
    if succs != [] {
      NewBlocksAre(visited, succs[1..]);
      NewBlocksAre(visited + {succs[0]}, succs[1..]);
    }
  }

  ghost predicate Pushed(succs: seq<BasicBlock>, visited: set<BasicBlock>, stack: seq<BasicBlock>,
                         visited': set<BasicBlock>, stack': seq<BasicBlock>) {
    && visited' == visited + (set b | b in succs)
    && stack' == stack + NewBlocks(visited, succs)
  }

  /** What is on the stack after pushing. */
  lemma PushedStack(succs: seq<BasicBlock>, visited: set<BasicBlock>, stack: seq<BasicBlock>,
                    visited': set<BasicBlock>, stack': seq<BasicBlock>)
    requires Distinct(stack) && Contains(visited, stack)
    requires Pushed(succs, visited, stack, visited', stack')
    ensures Distinct(stack') && Contains(visited', stack')
    ensures forall b :: b in stack' <==> b in stack || (b in succs && b !in visited)
  {
    var pushed := NewBlocks(visited, succs);
    NewBlocksAre(visited, succs);
    assert forall b :: b in stack' <==> b in stack || b in pushed;
    forall j, k | 0 <= j < k < |stack'|
      ensures stack'[j] != stack'[k]
    {
      if k >= |stack| {
        assert stack'[k] == pushed[k - |stack|] && stack'[k] in pushed;
        if j >= |stack| {
          assert stack'[j] == pushed[j - |stack|];
        } else {
          assert stack'[j] == stack[j] && stack[j] in stack;
        }
      }
    }
  }

  lemma PoppedStack(stack: seq<BasicBlock>, b: BasicBlock)
    requires Distinct(stack + [b])
    ensures Distinct(stack) && b !in stack
    ensures forall c :: c in stack + [b] <==> c in stack || c == b
  {
    var longer := stack + [b];
    assert longer[|stack|] == b;
    assert forall j :: 0 <= j < |stack| ==> longer[j] == stack[j];
  }

  /** The scan may start once the first block has been passed. */
  lemma ScanStart(body: Body, inside: Location -> bool, first: Location, visited: set<BasicBlock>,
                  stack: seq<BasicBlock>)
    requires WellFormed(body) && IsPoint(body, first)
    requires FirstOutside(inside, first.block, first.index, LastIndex(body, first.block)).None?
    requires Pushed(BlockSuccessors(body, first.block), {}, [], visited, stack)
    ensures ScanInvariant(body, inside, first, visited, stack, {})
  {
    PushedStack(BlockSuccessors(body, first.block), {}, [], visited, stack);
    LeadsFirst(body, inside, first);
    forall b | b in visited
      ensures b < |body.blocks| && Leads(body, inside, first, Location(b, 0))
    {
      LeadsToSuccessor(body, inside, first, first.block, first.index, b);
    }
  }

  /** A block with a point outside is recorded and left. */
  lemma ScanKill(body: Body, inside: Location -> bool, first: Location, visited: set<BasicBlock>,
                 stack: seq<BasicBlock>, b: BasicBlock, killed: set<Location>, k: nat)
    requires ScanInvariant(body, inside, first, visited, stack + [b], killed)
    requires b < |body.blocks| && FirstOutside(inside, b, 0, LastIndex(body, b)) == Some(k)
    ensures ScanInvariant(body, inside, first, visited, stack, killed + {Location(b, k)})
    ensures Location(b, k) !in killed
  {
    PoppedStack(stack, b);
    assert b in stack + [b];
    forall c | c in visited && c !in stack
      ensures Scanned(body, inside, visited, killed + {Location(b, k)}, c)
    {
      if c != b {
        assert Scanned(body, inside, visited, killed, c);
      }
    }
  }

  /** A block that is inside from end to end passes the loan on to its successors. */
  lemma ScanPass(body: Body, inside: Location -> bool, first: Location, visited: set<BasicBlock>,
                 stack: seq<BasicBlock>, b: BasicBlock, killed: set<Location>, visited': set<BasicBlock>,
                 stack': seq<BasicBlock>)
    requires ScanInvariant(body, inside, first, visited, stack + [b], killed)
    requires b < |body.blocks| && FirstOutside(inside, b, 0, LastIndex(body, b)).None?
    requires Pushed(BlockSuccessors(body, b), visited, stack, visited', stack')
    ensures ScanInvariant(body, inside, first, visited', stack', killed)
  {
    PoppedStack(stack, b);
    assert b in stack + [b];
    assert Contains(visited, stack);
    PushedStack(BlockSuccessors(body, b), visited, stack, visited', stack');
    forall c | c in visited'
      ensures c < |body.blocks| && Leads(body, inside, first, Location(c, 0))
    {
      if c !in visited {
        LeadsToSuccessor(body, inside, first, b, 0, c);
      }
    }
    forall c | c in visited' && c !in stack'
      ensures Scanned(body, inside, visited', killed, c)
    {
      if c != b {
        assert Scanned(body, inside, visited, killed, c);
      }
    }
    forall p | p in killed
      ensures KilledIn(body, inside, visited', stack', p)
    {
      assert KilledIn(body, inside, visited, stack + [b], p);
    }
  }

  lemma RecordOnce(before: KillMap, kills: KillMap, points: set<Location>, p: Location, i: BorrowIndex)
    requires Recorded(before, kills, points, i) && p !in points
    ensures Recorded(before, RecordKill(kills, p, i), points + {p}, i)
  {
  }

  /** A kill in the first block, which ends the scan before it starts. */
  lemma FirstBlockRecorded(body: Body, inside: Location -> bool, first: Location, before: KillMap, i: BorrowIndex,
                           k: nat)
    requires IsPoint(body, first)
    requires FirstOutside(inside, first.block, first.index, LastIndex(body, first.block)) == Some(k)
    ensures KillPointsRecorded(body, inside, first, before, RecordKill(before, Location(first.block, k), i), i)
  {
    DiesInFirstBlock(body, inside, first, k);
  }

  lemma ScanRecorded(body: Body, inside: Location -> bool, first: Location, visited: set<BasicBlock>,
                     killed: set<Location>, before: KillMap, after: KillMap, i: BorrowIndex)
    requires ScanInvariant(body, inside, first, visited, [], killed)
    requires Recorded(before, after, killed, i)
    ensures KillPointsRecorded(body, inside, first, before, after, i)
  {
    ScanComplete(body, inside, first, visited, killed);
  }

  /** Every step of the scan enters a new block or leaves one less to visit. */
  lemma ScanProgress(body: Body, visited: set<BasicBlock>, stack: seq<BasicBlock>, succs: seq<BasicBlock>,
                     visited': set<BasicBlock>, stack': seq<BasicBlock>)
    requires Pushed(succs, visited, stack, visited', stack')
    requires visited' <= AllBlocks(body)
    ensures AllBlocks(body) - visited' < AllBlocks(body) - visited || (visited' == visited && stack' == stack)
  {
    NewBlocksAre(visited, succs);
    if pushed :| pushed in visited' && pushed !in visited {
      assert pushed in AllBlocks(body) - visited;
    } else {
      assert visited' == visited;
      assert NewBlocks(visited, succs) == [] by {
        if NewBlocks(visited, succs) != [] {
          assert NewBlocks(visited, succs)[0] in visited';
        }
      }
    }
  }

  // ---------------------------------------------------------------- the precomputation

  /** The termination measure of the scan. */
  ghost predicate ScanAdvances(body: Body, visited: set<BasicBlock>, stack: seq<BasicBlock>,
                               visited': set<BasicBlock>, stack': seq<BasicBlock>) {
    || AllBlocks(body) - visited' < AllBlocks(body) - visited
    || (AllBlocks(body) - visited' == AllBlocks(body) - visited && |stack'| < |stack|)
  }

  /** A round of the scan that records the popped block. */
  lemma ScanRecords(body: Body, inside: Location -> bool, first: Location, visited: set<BasicBlock>,
                    stack: seq<BasicBlock>, killed: set<Location>, k: nat)
    requires stack != [] && ScanInvariant(body, inside, first, visited, stack, killed)
    requires Top(stack) < |body.blocks| && FirstOutside(inside, Top(stack), 0, LastIndex(body, Top(stack))) == Some(k)
    ensures ScanInvariant(body, inside, first, visited, Pop(stack), killed + {Location(Top(stack), k)})
    ensures Location(Top(stack), k) !in killed
  {
    assert stack == Pop(stack) + [Top(stack)];
    ScanKill(body, inside, first, visited, Pop(stack), Top(stack), killed, k);
  }

  /** A round of the scan that passes the popped block. */
  lemma ScanPasses(body: Body, inside: Location -> bool, first: Location, visited: set<BasicBlock>,
                   stack: seq<BasicBlock>, killed: set<Location>, visited': set<BasicBlock>, stack': seq<BasicBlock>)
    requires stack != [] && ScanInvariant(body, inside, first, visited, stack, killed)
    requires Top(stack) < |body.blocks| && FirstOutside(inside, Top(stack), 0, LastIndex(body, Top(stack))).None?
    requires Pushed(BlockSuccessors(body, Top(stack)), visited, Pop(stack), visited', stack')
    ensures ScanInvariant(body, inside, first, visited', stack', killed)
    ensures ScanAdvances(body, visited, stack, visited', stack')
  {
    assert stack == Pop(stack) + [Top(stack)];
    ScanPass(body, inside, first, visited, Pop(stack), Top(stack), killed, visited', stack');
    VisitedAreBlocks(body, inside, first, visited', stack', killed);
    ScanProgress(body, visited, Pop(stack), BlockSuccessors(body, Top(stack)), visited', stack');
  }

  class OutOfScopePrecomputer {
    const body: Body
    const regions: RegionValues
    var visited: set<BasicBlock>
    var visitStack: seq<BasicBlock>
    var outOfScope: KillMap

    ghost predicate Idle()
      reads this
    {
      WellFormed(body) && visited == {} && visitStack == []
    }

    constructor (body: Body, regions: RegionValues)
      requires WellFormed(body)
      ensures this.body == body && this.regions == regions
      ensures Idle() && outOfScope == map[]
    {
      this.body, this.regions := body, regions;
      visited, visitStack, outOfScope := {}, [], map[];
    }

    method PushSuccessors(succs: seq<BasicBlock>)
      modifies this`visited, this`visitStack
      ensures Pushed(succs, old(visited), old(visitStack), visited, visitStack)
    {
      var k := 0;
      while k < |succs|
        invariant k <= |succs|
        invariant visited == old(visited) + set b | b in succs[..k]
        invariant visitStack + NewBlocks(visited, succs[k..]) == old(visitStack) + NewBlocks(old(visited), succs)
      {
        assert succs[k..][0] == succs[k] && succs[k..][1..] == succs[k + 1..];
        assert succs[..k + 1] == succs[..k] + [succs[k]];
        if succs[k] !in visited {
          visited := visited + {succs[k]};
          visitStack := visitStack + [succs[k]];
        }
        k := k + 1;
      }
      assert succs[..k] == succs;
    }

    /** Pops a block and scans it: either the loan goes out of scope in it, or its successors are pushed. */
    method ScanNextBlock(borrowIndex: BorrowIndex, borrowRegion: RegionVid, first: Location,
                         ghost killed: set<Location>, ghost start: KillMap)
      returns (ghost killed': set<Location>)
      requires visitStack != []
      requires ScanInvariant(body, Inside(regions, borrowRegion), first, visited, visitStack, killed)
      requires Recorded(start, outOfScope, killed, borrowIndex)
      modifies this`visited, this`visitStack, this`outOfScope
      ensures ScanInvariant(body, Inside(regions, borrowRegion), first, visited, visitStack, killed')
      ensures Recorded(start, outOfScope, killed', borrowIndex)
      ensures ScanAdvances(body, old(visited), old(visitStack), visited, visitStack)
    {
      ghost var inside, stack, entered := Inside(regions, borrowRegion), visitStack, visited;
      TopIsBlock(body, inside, first, visited, visitStack, killed);
      var block := Top(visitStack);
      visitStack := Pop(visitStack);
      var kill := FirstOutside(Inside(regions, borrowRegion), block, 0, LastIndex(body, block));
      if kill.Some? {
        ScanRecords(body, inside, first, entered, stack, killed, kill.value);
        RecordOnce(start, outOfScope, killed, Location(block, kill.value), borrowIndex);
        outOfScope := RecordKill(outOfScope, Location(block, kill.value), borrowIndex);
        killed' := killed + {Location(block, kill.value)};
      } else {
        PushSuccessors(BlockSuccessors(body, block));
        ScanPasses(body, inside, first, entered, stack, killed, visited, visitStack);
        killed' := killed;
      }
    }

    /** Records where the loan `borrowIndex`, issued at `first`, goes out of scope. */
    method PrecomputeBorrowsOutOfScope(borrowIndex: BorrowIndex, borrowRegion: RegionVid, first: Location)
      requires Idle() && IsPoint(body, first)
      modifies this`visited, this`visitStack, this`outOfScope
      ensures Idle()
      ensures KillPointsRecorded(body, Inside(regions, borrowRegion), first, old(outOfScope), outOfScope, borrowIndex)
    {
      ghost var inside := Inside(regions, borrowRegion);
      var firstKill := FirstOutside(Inside(regions, borrowRegion), first.block, first.index,
                                    LastIndex(body, first.block));
      if firstKill.Some? {
        FirstBlockRecorded(body, inside, first, outOfScope, borrowIndex, firstKill.value);
        outOfScope := RecordKill(outOfScope, Location(first.block, firstKill.value), borrowIndex);
        return;
      }
      PushSuccessors(BlockSuccessors(body, first.block));
      ScanStart(body, inside, first, visited, visitStack);
      ghost var killed: set<Location> := {};
      while visitStack != []
        invariant ScanInvariant(body, inside, first, visited, visitStack, killed)
        invariant Recorded(old(outOfScope), outOfScope, killed, borrowIndex)
        decreases AllBlocks(body) - visited, |visitStack|
      {
        killed := ScanNextBlock(borrowIndex, borrowRegion, first, killed, old(outOfScope));
      }
      ScanRecorded(body, inside, first, visited, killed, old(outOfScope), outOfScope, borrowIndex);
      visited := {};
    }
  }

  function LoanInsides(regions: RegionValues, loans: seq<BorrowData>): (insides: seq<Location -> bool>)
    ensures |insides| == |loans|
    ensures forall i :: 0 <= i < |loans| ==> insides[i] == Inside(regions, loans[i].region)
  {
    seq(|loans|, i requires 0 <= i < |loans| => Inside(regions, loans[i].region))
  }

  /** The map holds, at every point, the loans that go out of scope there in ascending order. */
  ghost predicate KillMapOf(body: Body, insides: seq<Location -> bool>, loans: seq<BorrowData>, kills: KillMap, n: nat)
    requires n <= |loans| == |insides|
  {
    && (forall p :: KillsAt(kills, p) == LoansKilledAt(body, insides, loans, p, n))
    && (forall p :: p in kills <==> LoansKilledAt(body, insides, loans, p, n) != [])
  }

  lemma KillMapStep(body: Body, insides: seq<Location -> bool>, loans: seq<BorrowData>, before: KillMap, after: KillMap,
                    i: nat)
    requires i < |loans| == |insides|
    requires KillMapOf(body, insides, loans, before, i)
    requires KillPointsRecorded(body, insides[i], loans[i].reserveLocation, before, after, i)
    ensures KillMapOf(body, insides, loans, after, i + 1)
  {
    forall p
      ensures KillsAt(after, p) == LoansKilledAt(body, insides, loans, p, i + 1)
      ensures p in after <==> LoansKilledAt(body, insides, loans, p, i + 1) != []
    {
    }
  }

  method CalculateBorrowsOutOfScopeAtLocation(body: Body, regions: RegionValues, loans: seq<BorrowData>)
    returns (kills: KillMap)
    requires WellFormed(body)
    requires forall i :: 0 <= i < |loans| ==> IsPoint(body, loans[i].reserveLocation)
    ensures KillMapOf(body, LoanInsides(regions, loans), loans, kills, |loans|)
  {
    var prec := new OutOfScopePrecomputer(body, regions);
    var i := 0;
    while i < |loans|
      invariant i <= |loans|
      invariant prec.Idle() && prec.body == body && prec.regions == regions
      invariant KillMapOf(body, LoanInsides(regions, loans), loans, prec.outOfScope, i)
    {
      ghost var before := prec.outOfScope;
      prec.PrecomputeBorrowsOutOfScope(i, loans[i].region, loans[i].reserveLocation);
      KillMapStep(body, LoanInsides(regions, loans), loans, before, prec.outOfScope, i);
      i := i + 1;
    }
    kills := prec.outOfScope;
  }

  // ---------------------------------------------------------------- regions without a row

  /** With the true value of the region (empty without a row), the loan is killed on the frontier of its
      region if and only if the region has a row: without one, the issue point itself lies outside and no
      kill is ever recorded. The region of a tracked loan contains its issue point, so it has a row, and the
      analysis never comes to the other case. */
  lemma FrontierNeedsRow(body: Body, values: RegionValues, r: RegionVid, first: Location)
    requires IsPoint(body, first)
    ensures (forall p :: KillPoint(body, Inside(values, r), first, p)
                     <==> KillPoint(body, (q: Location) => RegionContains(values, r, q), first, p))
            <==> r in values
  {
    var truth := (q: Location) => RegionContains(values, r, q);
    LeadsFirst(body, truth, first);
    if r in values {
      forall p
        ensures KillPoint(body, Inside(values, r), first, p) <==> KillPoint(body, truth, first, p)
      {
        if KillPoint(body, Inside(values, r), first, p) {
          SameInside(body, Inside(values, r), truth, first, p);
        }
        if KillPoint(body, truth, first, p) {
          SameInside(body, truth, Inside(values, r), first, p);
        }
      }
    } else {
      assert KillPoint(body, truth, first, first);
      assert !KillPoint(body, Inside(values, r), first, first);
    }
  }

  lemma SameInside(body: Body, inside: Location -> bool, inside': Location -> bool, first: Location, p: Location)
    requires forall q :: IsPoint(body, q) ==> inside(q) == inside'(q)
    requires KillPoint(body, inside, first, p)
    ensures KillPoint(body, inside', first, p)
  {
    var path :| IsPathFromTo(body, path, first, p) && InsideBeforeEnd(inside, path);
    PathPoints(body, path, |path| - 1);
    forall k | 0 <= k < |path| - 1
      ensures inside'(path[k])
    {
      PathPoints(body, path, k);
    }
    assert InsideBeforeEnd(inside', path);
  }
}
