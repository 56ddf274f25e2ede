/** How `expiry_order.rs` builds a mutant: it splits a block between two statements and puts a false edge there, to
    the rest of the block and to a block that uses two places in the wrong order. */
module BlockSplit {
  import opened Mir

  // ---------------------------------------------------------------- executions and the checker's view

  /** Where control can go: `executed` follows what executes, otherwise what the borrow checker assumes. */
  function Targets(kind: TerminatorKind, executed: bool): seq<BasicBlock> {
    if executed then
      match kind
      case FalseEdge(t, _) => [t]
      case FalseUnwind(t, _) => [t]
      case _ => Successors(kind)
    else Successors(kind)
  }

  ghost predicate Flow(body: Body, executed: bool, p: Location, q: Location) {
    && IsPoint(body, p) && IsPoint(body, q)
    && if IsTerminatorPoint(body, p) then
         q.index == 0 && q.block in Targets(body.blocks[p.block].terminator.kind, executed)
       else
         q == Location(p.block, p.index + 1)
  }

  ghost predicate FlowPath(body: Body, executed: bool, path: seq<Location>) {
    && |path| > 0 && path[0] == START && IsPoint(body, START)
    && forall k :: 0 <= k < |path| - 1 ==> Flow(body, executed, path[k], path[k + 1])
  }

  /** The checker's view is the control-flow graph. */
  lemma CheckerPathsAreRuns(body: Body, path: seq<Location>)
    requires |path| > 0
    ensures FlowPath(body, false, path) <==> IsRun(body, path, path[|path| - 1])
  {
    if FlowPath(body, false, path) {
      forall k | 0 <= k < |path| - 1
        ensures Edge(body, path[k], path[k + 1])
      {
        assert Flow(body, false, path[k], path[k + 1]);
      }
    }
    if IsRun(body, path, path[|path| - 1]) {
      forall k | 0 <= k < |path| - 1
        ensures Flow(body, false, path[k], path[k + 1])
      {
        assert Edge(body, path[k], path[k + 1]);
      }
    }
  }

  datatype Instruction = Execute(statement: Statement) | Branch(terminator: Terminator)

  function InstructionAt(body: Body, p: Location): Instruction
    requires IsPoint(body, p)
  {
    if IsTerminatorPoint(body, p) then Branch(body.blocks[p.block].terminator)
    else Execute(body.blocks[p.block].statements[p.index])
  }

  // ---------------------------------------------------------------- the split

  datatype Split = Split(original: Body, block: BasicBlock, index: nat, mutant: seq<Statement>, span: Span)

  /** The split point is a point of the block after its first. */
  ghost predicate ValidSplit(s: Split) {
    && WellFormed(s.original)
    && s.block < |s.original.blocks|
    && 0 < s.index <= |s.original.blocks[s.block].statements|
  }

  function Tail(s: Split): BasicBlock {
    |s.original.blocks|
  }

  function MutantBlock(s: Split): BasicBlock {
    |s.original.blocks| + 1
  }

  /** The block before the split ends in the false edge; the tail keeps the statements from the split on and the
      terminator; the mutant block leads nowhere. */
  ghost predicate IsSplitBody(s: Split, body: Body)
    requires s.block < |s.original.blocks| && s.index <= |s.original.blocks[s.block].statements|
  {
    var block := s.original.blocks[s.block];
    && |body.blocks| == |s.original.blocks| + 2
    && (forall b :: 0 <= b < |s.original.blocks| && b != s.block ==> body.blocks[b] == s.original.blocks[b])
    && body.blocks[s.block] ==
         BlockData(block.statements[..s.index], Terminator(FalseEdge(Tail(s), MutantBlock(s)), s.span))
    && body.blocks[Tail(s)] == BlockData(block.statements[s.index..], block.terminator)
    && body.blocks[MutantBlock(s)] == BlockData(s.mutant, Terminator(Unreachable, s.span))
  }

  /** The point of the mutant body that corresponds to an original point. */
  function Embed(s: Split, p: Location): Location {
    if p.block == s.block && p.index >= s.index then Location(Tail(s), p.index - s.index) else p
  }

  function Original(s: Split, p: Location): Location {
    if p.block == Tail(s) then Location(s.block, p.index + s.index) else p
  }

  /** The terminator point of the new false edge. */
  function FalsePoint(s: Split): Location {
    Location(s.block, s.index)
  }

  /** The original points are exactly the points of the mutant body outside the mutant block, but for the false edge;
      the same instruction is there. */
  lemma EmbedIsExact(s: Split, body: Body, p: Location)
    requires ValidSplit(s) && IsSplitBody(s, body)
    ensures IsPoint(s.original, p) ==>
              && IsPoint(body, Embed(s, p)) && Embed(s, p) != FalsePoint(s) && Embed(s, p).block != MutantBlock(s)
              && Original(s, Embed(s, p)) == p
              && InstructionAt(body, Embed(s, p)) == InstructionAt(s.original, p)
    ensures IsPoint(body, p) && p != FalsePoint(s) && p.block != MutantBlock(s) ==>
              IsPoint(s.original, Original(s, p)) && Embed(s, Original(s, p)) == p
  {
    if IsPoint(body, p) && p.block < |s.original.blocks| && p.block != s.block {
      assert body.blocks[p.block] == s.original.blocks[p.block];
    }
  }

  /** The points of the mutant body that one original step goes through. */
  function EmbedStep(s: Split, q: Location): seq<Location> {
    if q == FalsePoint(s) then [FalsePoint(s), Embed(s, q)] else [Embed(s, q)]
  }

  ghost predicate FlowVia(body: Body, executed: bool, p: Location, via: seq<Location>)
    requires |via| > 0
  {
    Flow(body, executed, p, via[0]) && (|via| == 2 ==> Flow(body, executed, via[0], via[1])) && |via| <= 2
  }

  /** An original step is a step of the mutant body, with the false edge put in where the block was split. */
  lemma EmbedFlow(s: Split, body: Body, executed: bool, p: Location, q: Location)
    requires ValidSplit(s) && IsSplitBody(s, body) && Flow(s.original, executed, p, q)
    ensures FlowVia(body, executed, Embed(s, p), EmbedStep(s, q))
  {
    EmbedIsExact(s, body, p);
    EmbedIsExact(s, body, q);
  }

  /** A step of the mutant body between embedded points is an original step. */
  lemma OriginalFlow(s: Split, body: Body, executed: bool, p: Location, q: Location)
    requires ValidSplit(s) && IsSplitBody(s, body)
    requires IsPoint(s.original, p) && Flow(body, executed, Embed(s, p), q) && q != FalsePoint(s)
    ensures q.block != MutantBlock(s) && Flow(s.original, executed, p, Original(s, q)) && Embed(s, Original(s, q)) == q
    ensures Original(s, q) != FalsePoint(s)
  {
    EmbedIsExact(s, body, p);
    assert InstructionAt(body, Embed(s, p)) == InstructionAt(s.original, p);
    if IsTerminatorPoint(s.original, p) {
      TargetsWithin(s.original, executed, p.block);
    }
  }

  lemma TargetsWithin(body: Body, executed: bool, b: BasicBlock)
    requires WellFormed(body) && b < |body.blocks|
    ensures forall t :: t in Targets(body.blocks[b].terminator.kind, executed) ==> t < |body.blocks|
  {
    var kind := body.blocks[b].terminator.kind;
    forall t | t in Targets(kind, executed)
      ensures t in Successors(kind)
    {
    }
  }

  lemma SplitIsWellFormed(s: Split, body: Body)
    requires ValidSplit(s) && IsSplitBody(s, body)
    ensures WellFormed(body)
  {
    forall b, t | 0 <= b < |body.blocks| && t in Successors(body.blocks[b].terminator.kind)
      ensures t < |body.blocks|
    {
      if b < |s.original.blocks| && b != s.block {
        assert body.blocks[b] == s.original.blocks[b];
      } else if b == Tail(s) {
        assert t in Successors(s.original.blocks[s.block].terminator.kind);
      }
    }
  }

  // ---------------------------------------------------------------- whole paths

  function Last(path: seq<Location>): Location
    requires path != []
  {
    path[|path| - 1]
  }

  function EmbedPath(s: Split, path: seq<Location>): seq<Location> {
    if path == [] then [] else EmbedPath(s, path[..|path| - 1]) + EmbedStep(s, Last(path))
  }

  /** A path of the mutant body as a path of the original. */
  function ErasePath(s: Split, path: seq<Location>): seq<Location> {
    if path == [] then []
    else
      ErasePath(s, path[..|path| - 1]) + if Last(path) == FalsePoint(s) then [] else [Original(s, Last(path))]
  }

  /** What a path executes, leaving out the point `skipped`. */
  ghost function Instructions(body: Body, path: seq<Location>, skipped: Option<Location>): seq<Instruction>
    requires forall k :: 0 <= k < |path| ==> IsPoint(body, path[k])
  {
    if path == [] then []
    else
      Instructions(body, path[..|path| - 1], skipped)
      + if skipped == Some(Last(path)) then [] else [InstructionAt(body, Last(path))]
  }

  lemma FlowPathPoints(body: Body, executed: bool, path: seq<Location>, k: nat)
    requires FlowPath(body, executed, path) && k < |path|
    ensures IsPoint(body, path[k])
  {
    if k > 0 {
      assert Flow(body, executed, path[k - 1], path[k - 1 + 1]);
    }
  }

  lemma AllFlowPathPoints(body: Body, executed: bool, path: seq<Location>)
    requires FlowPath(body, executed, path)
    ensures forall k :: 0 <= k < |path| ==> IsPoint(body, path[k])
  {
    forall k | 0 <= k < |path|
      ensures IsPoint(body, path[k])
    {
      FlowPathPoints(body, executed, path, k);
    }
  }

  lemma FlowPathExtend(body: Body, executed: bool, path: seq<Location>, q: Location)
    requires FlowPath(body, executed, path) && Flow(body, executed, Last(path), q)
    ensures FlowPath(body, executed, path + [q])
  {
    var longer := path + [q];
    forall k | 0 <= k < |longer| - 1
      ensures Flow(body, executed, longer[k], longer[k + 1])
    {
      if k < |path| - 1 {
        assert Flow(body, executed, path[k], path[k + 1]);
      }
    }
  }

  lemma FlowPathPrefix(body: Body, executed: bool, path: seq<Location>)
    requires FlowPath(body, executed, path) && |path| > 1
    ensures FlowPath(body, executed, path[..|path| - 1]) && Flow(body, executed, path[|path| - 2], Last(path))
    ensures Last(path[..|path| - 1]) == path[|path| - 2]
  {
    var before := path[..|path| - 1];
    forall k | 0 <= k < |before| - 1
      ensures Flow(body, executed, before[k], before[k + 1])
    {
      assert Flow(body, executed, path[k], path[k + 1]);
    }
    assert Flow(body, executed, path[|path| - 2], path[|path| - 2 + 1]);
  }

  /** A path of more than one point is a path and a last step. */
  lemma LastStep(body: Body, executed: bool, path: seq<Location>)
    returns (before: seq<Location>, p: Location, q: Location)
    requires FlowPath(body, executed, path) && |path| > 1
    ensures path == before + [q] && before != [] && p == Last(before)
    ensures FlowPath(body, executed, before) && Flow(body, executed, p, q)
  {
    FlowPathPrefix(body, executed, path);
    before, p, q := path[..|path| - 1], path[|path| - 2], Last(path);
  }

  ghost predicate EmbedsWell(s: Split, body: Body, executed: bool, path: seq<Location>)
    requires path != []
  {
    && EmbedPath(s, path) != []
    && FlowPath(body, executed, EmbedPath(s, path)) && Last(EmbedPath(s, path)) == Embed(s, Last(path))
    && ErasePath(s, EmbedPath(s, path)) == path
  }

  lemma StartAlone(s: Split, body: Body, executed: bool)
    requires ValidSplit(s) && IsSplitBody(s, body)
    ensures EmbedPath(s, [START]) == [START] && ErasePath(s, [START]) == [START]
    ensures FlowPath(s.original, executed, [START]) && FlowPath(body, executed, [START])
  {
    EmbedPathSnoc(s, [], START);
    ErasePathSnoc(s, [], START);
    assert [] + [START] == [START];
    StartIsPoint(s, body);
  }

  lemma StartIsPoint(s: Split, body: Body)
    requires ValidSplit(s) && IsSplitBody(s, body)
    ensures IsPoint(s.original, START) && IsPoint(body, START)
  {
  }

  lemma EmbedPathSnoc(s: Split, before: seq<Location>, q: Location)
    ensures EmbedPath(s, before + [q]) == EmbedPath(s, before) + EmbedStep(s, q)
  {
    assert (before + [q])[..|before|] == before;
  }

  lemma ErasePathSnoc(s: Split, before: seq<Location>, q: Location)
    ensures ErasePath(s, before + [q]) == ErasePath(s, before) + if q == FalsePoint(s) then [] else [Original(s, q)]
  {
    assert (before + [q])[..|before|] == before;
  }

  /** A step to a point that is not the split. */
  lemma EmbedPlainStep(s: Split, body: Body, executed: bool, before: seq<Location>, q: Location)
    requires before != [] && EmbedsWell(s, body, executed, before) && q != FalsePoint(s)
    requires Flow(body, executed, Embed(s, Last(before)), Embed(s, q))
    requires Embed(s, q) != FalsePoint(s) && Original(s, Embed(s, q)) == q
    ensures EmbedsWell(s, body, executed, before + [q])
  {
    var embedded := EmbedPath(s, before);
    EmbedPathSnoc(s, before, q);
    FlowPathExtend(body, executed, embedded, Embed(s, q));
    ErasePathSnoc(s, embedded, Embed(s, q));
  }

  /** A step to the split: through the false edge. */
  lemma EmbedSplitStep(s: Split, body: Body, executed: bool, before: seq<Location>, q: Location)
    requires before != [] && EmbedsWell(s, body, executed, before) && q == FalsePoint(s)
    requires Flow(body, executed, Embed(s, Last(before)), q) && Flow(body, executed, q, Embed(s, q))
    requires Embed(s, q) != q && Original(s, Embed(s, q)) == q
    ensures EmbedsWell(s, body, executed, before + [q])
  {
    var embedded := EmbedPath(s, before);
    EmbedPathSnoc(s, before, q);
    FlowPathExtend(body, executed, embedded, q);
    ErasePathSnoc(s, embedded, q);
    FlowPathExtend(body, executed, embedded + [q], Embed(s, q));
    ErasePathSnoc(s, embedded + [q], Embed(s, q));
    assert embedded + EmbedStep(s, q) == embedded + [q] + [Embed(s, q)];
  }

  lemma EmbedOneMore(s: Split, body: Body, executed: bool, before: seq<Location>, q: Location)
    requires ValidSplit(s) && IsSplitBody(s, body) && before != [] && EmbedsWell(s, body, executed, before)
    requires Flow(s.original, executed, Last(before), q)
    ensures EmbedsWell(s, body, executed, before + [q])
  {
    EmbedIsExact(s, body, q);
    EmbedFlow(s, body, executed, Last(before), q);
    if q == FalsePoint(s) {
      EmbedSplitStep(s, body, executed, before, q);
    } else {
      EmbedPlainStep(s, body, executed, before, q);
    }
  }

  /** Every path of the original is a path of the mutant body, through the same instructions, once the false edge is
      put in wherever it passes the split. */
  lemma {:induction false} EmbedPathFlows(s: Split, body: Body, executed: bool, path: seq<Location>)
    requires ValidSplit(s) && IsSplitBody(s, body) && FlowPath(s.original, executed, path)
    ensures EmbedsWell(s, body, executed, path)
    decreases |path|
  {
    if |path| == 1 {
      StartAlone(s, body, executed);
      assert path == [START];
    } else {
      var before, p, q := LastStep(s.original, executed, path);
      EmbedPathFlows(s, body, executed, before);
      EmbedOneMore(s, body, executed, before, q);
    }
  }

  /** Only the false edge leads to its own terminator point, and only from the statement before the split. */
  lemma BeforeFalsePoint(s: Split, body: Body, executed: bool, p: Location)
    requires ValidSplit(s) && IsSplitBody(s, body) && Flow(body, executed, p, FalsePoint(s))
    ensures p == Location(s.block, s.index - 1)
    ensures IsPoint(s.original, p) && Embed(s, p) == p && Flow(s.original, executed, p, FalsePoint(s))
  {
  }

  /** The mutant block is entered through the false edge, and never by an execution; it is not left. */
  lemma AroundMutantBlock(s: Split, body: Body, executed: bool, p: Location, q: Location)
    requires ValidSplit(s) && IsSplitBody(s, body) && Flow(body, executed, p, q)
    ensures p.block == MutantBlock(s) ==> q == Location(p.block, p.index + 1)
    ensures q.block == MutantBlock(s) && p.block != MutantBlock(s) ==>
              !executed && p == FalsePoint(s) && q == Location(MutantBlock(s), 0)
    ensures p == FalsePoint(s) && q.block != MutantBlock(s) ==> q == Location(Tail(s), 0)
  {
    if p.block != MutantBlock(s) && p != FalsePoint(s) && q.block == MutantBlock(s) {
      EmbedIsExact(s, body, p);
      OriginalFlow(s, body, executed, Original(s, p), q);
    }
  }

  ghost predicate ErasesWell(s: Split, executed: bool, path: seq<Location>) {
    FlowPath(s.original, executed, ErasePath(s, path)) && EmbedPath(s, ErasePath(s, path)) == path
  }

  /** A step that does not leave the false edge is an original step. */
  lemma EraseStep(s: Split, body: Body, executed: bool, before: seq<Location>, q: Location)
    requires ValidSplit(s) && IsSplitBody(s, body) && |before| > 0 && ErasesWell(s, executed, before)
    requires Flow(body, executed, Last(before), q)
    requires Last(before) != FalsePoint(s) && Last(before).block != MutantBlock(s) && q != FalsePoint(s)
    ensures ErasesWell(s, executed, before + [q])
  {
    var p := Last(before);
    EmbedIsExact(s, body, p);
    OriginalFlow(s, body, executed, Original(s, p), q);
    var erased := ErasePath(s, before);
    assert Last(erased) == Original(s, p);
    FlowPathExtend(s.original, executed, erased, Original(s, q));
    assert (before + [q])[..|before|] == before;
    assert (erased + [Original(s, q)])[..|erased|] == erased;
  }

  /** Going through the false edge to the tail is the original step over the split. */
  lemma EraseSplit(s: Split, body: Body, executed: bool, before: seq<Location>)
    requires ValidSplit(s) && IsSplitBody(s, body) && |before| > 0 && ErasesWell(s, executed, before)
    requires Flow(body, executed, Last(before), FalsePoint(s))
    ensures ErasesWell(s, executed, before + [FalsePoint(s), Location(Tail(s), 0)])
  {
    var p, q := Last(before), Location(Tail(s), 0);
    BeforeFalsePoint(s, body, executed, p);
    var erased := ErasePath(s, before);
    assert Last(erased) == p;
    FlowPathExtend(s.original, executed, erased, FalsePoint(s));
    var path := before + [FalsePoint(s), q];
    assert path[..|before| + 1] == before + [FalsePoint(s)];
    assert (before + [FalsePoint(s)])[..|before|] == before;
    assert ErasePath(s, path) == erased + [FalsePoint(s)];
    assert (erased + [FalsePoint(s)])[..|erased|] == erased;
  }

  /** A path of the mutant body that ends neither in the mutant block nor at the false edge comes from a path of the
      original. */
  lemma {:induction false} ErasePathFlows(s: Split, body: Body, executed: bool, path: seq<Location>)
    requires ValidSplit(s) && IsSplitBody(s, body) && FlowPath(body, executed, path)
    requires Last(path) != FalsePoint(s) && Last(path).block != MutantBlock(s)
    ensures ErasesWell(s, executed, path)
    decreases |path|
  {
    if |path| == 1 {
      StartAlone(s, body, executed);
      assert path == [START];
    } else {
      var before, p, q := LastStep(body, executed, path);
      AroundMutantBlock(s, body, executed, p, q);
      if p == FalsePoint(s) {
        var earlier, o, p' := LastStep(body, executed, before);
        BeforeFalsePoint(s, body, executed, o);
        ErasePathFlows(s, body, executed, earlier);
        EraseSplit(s, body, executed, earlier);
        assert path == earlier + [p, q];
      } else {
        ErasePathFlows(s, body, executed, before);
        EraseStep(s, body, executed, before, q);
      }
    }
  }

  // ---------------------------------------------------------------- executions are kept

  lemma {:induction false} InstructionsSnoc(body: Body, before: seq<Location>, q: Location, skipped: Option<Location>)
    requires (forall k :: 0 <= k < |before| ==> IsPoint(body, before[k])) && IsPoint(body, q)
    ensures Instructions(body, before + [q], skipped) ==
            Instructions(body, before, skipped) + if skipped == Some(q) then [] else [InstructionAt(body, q)]
  {
    assert (before + [q])[..|before|] == before;
  }

  ghost predicate AllPoints(body: Body, path: seq<Location>) {
    forall k :: 0 <= k < |path| ==> IsPoint(body, path[k])
  }

  /** An original path and its embedding execute the same instructions in the same order, but for the false edge. */
  lemma {:induction false} SameInstructions(s: Split, body: Body, path: seq<Location>)
    requires ValidSplit(s) && IsSplitBody(s, body) && AllPoints(s.original, path)
    ensures AllPoints(body, EmbedPath(s, path))
    ensures Instructions(body, EmbedPath(s, path), Some(FalsePoint(s))) == Instructions(s.original, path, None)
    decreases |path|
  {
    if path != [] {
      var before, q := path[..|path| - 1], Last(path);
      assert path == before + [q];
      SameInstructions(s, body, before);
      EmbedPathSnoc(s, before, q);
      EmbedStepAdds(s, body, EmbedPath(s, before), q);
      InstructionsSnoc(s.original, before, q, None);
    }
  }

  /** A skipped point and one more add the instruction of the latter. */
  lemma SkipThenOne(body: Body, before: seq<Location>, skipped: Location, q: Location)
    requires AllPoints(body, before) && IsPoint(body, skipped) && IsPoint(body, q) && q != skipped
    ensures AllPoints(body, before + [skipped, q])
    ensures Instructions(body, before + [skipped, q], Some(skipped)) ==
              Instructions(body, before, Some(skipped)) + [InstructionAt(body, q)]
  {
    InstructionsSnoc(body, before, skipped, Some(skipped));
    InstructionsSnoc(body, before + [skipped], q, Some(skipped));
    assert before + [skipped, q] == before + [skipped] + [q];
  }

  /** The embedding of one more point adds its instruction. */
  lemma EmbedStepAdds(s: Split, body: Body, embedded: seq<Location>, q: Location)
    requires ValidSplit(s) && IsSplitBody(s, body)
    requires AllPoints(body, embedded) && IsPoint(s.original, q)
    ensures AllPoints(body, embedded + EmbedStep(s, q))
    ensures Instructions(body, embedded + EmbedStep(s, q), Some(FalsePoint(s))) ==
              Instructions(body, embedded, Some(FalsePoint(s))) + [InstructionAt(s.original, q)]
  {
    EmbedIsExact(s, body, q);
    if q == FalsePoint(s) {
      SkipThenOne(body, embedded, q, Embed(s, q));
    } else {
      InstructionsSnoc(body, embedded, Embed(s, q), Some(FalsePoint(s)));
    }
  }

  lemma {:induction false} MutantNeverExecutes(s: Split, body: Body, path: seq<Location>)
    requires ValidSplit(s) && IsSplitBody(s, body) && FlowPath(body, true, path)
    ensures Last(path).block != MutantBlock(s)
    decreases |path|
  {
    if |path| > 1 {
      var before, p, q := LastStep(body, true, path);
      MutantNeverExecutes(s, body, before);
      AroundMutantBlock(s, body, true, p, q);
    }
  }

  /** The split keeps the meaning of the body: its executions, up to the false edge, are exactly the embedded
      executions of the original, and they execute the same instructions. */
  lemma SplitKeepsExecutions(s: Split, body: Body, path: seq<Location>)
    requires ValidSplit(s) && IsSplitBody(s, body) && path != []
    ensures FlowPath(body, true, path) && Last(path) != FalsePoint(s) <==>
            exists r :: r != [] && FlowPath(s.original, true, r) && EmbedPath(s, r) == path
    ensures FlowPath(s.original, true, path) ==>
              && FlowPath(body, true, EmbedPath(s, path)) && ErasePath(s, EmbedPath(s, path)) == path
              && AllPoints(s.original, path) && AllPoints(body, EmbedPath(s, path))
              && Instructions(body, EmbedPath(s, path), Some(FalsePoint(s))) == Instructions(s.original, path, None)
  {
    if FlowPath(body, true, path) && Last(path) != FalsePoint(s) {
      MutantNeverExecutes(s, body, path);
      ErasePathFlows(s, body, true, path);
      assert ErasesWell(s, true, path);
    }
    forall r | r != [] && FlowPath(s.original, true, r)
      ensures FlowPath(body, true, EmbedPath(s, r)) && EmbedPath(s, r) != [] && Last(EmbedPath(s, r)) != FalsePoint(s)
    {
      EmbedPathFlows(s, body, true, r);
      FlowPathPoints(s.original, true, r, |r| - 1);
      EmbedIsExact(s, body, Last(r));
    }
    if FlowPath(s.original, true, path) {
      EmbedPathFlows(s, body, true, path);
      AllFlowPathPoints(s.original, true, path);
      SameInstructions(s, body, path);
    }
  }

  // ---------------------------------------------------------------- what the borrow checker sees

  /** The false edge and the first points of the mutant block. */
  function MutantVisit(s: Split, n: nat): seq<Location> {
    if n == 0 then [FalsePoint(s)] else MutantVisit(s, n - 1) + [Location(MutantBlock(s), n - 1)]
  }

  /** An original path up to the split, then the false edge and `n` points of the mutant block. */
  ghost predicate IsMutantPath(s: Split, executed: bool, r: seq<Location>, n: nat, path: seq<Location>) {
    && s.index > 0 && r != [] && FlowPath(s.original, executed, r) && Last(r) == Location(s.block, s.index - 1)
    && n <= |s.mutant| + 1 && path == EmbedPath(s, r) + MutantVisit(s, n)
  }

  /** A path to the false edge, or on into the mutant block, is an original path up to the split followed by them. */
  lemma {:induction false} MutantPathFrom(s: Split, body: Body, path: seq<Location>) returns (r: seq<Location>, n: nat)
    requires ValidSplit(s) && IsSplitBody(s, body) && FlowPath(body, false, path)
    requires Last(path) == FalsePoint(s) || Last(path).block == MutantBlock(s)
    ensures IsMutantPath(s, false, r, n, path)
    ensures n == if Last(path) == FalsePoint(s) then 0 else Last(path).index + 1
    decreases |path|
  {
    var before, p, q := LastStep(body, false, path);
    AroundMutantBlock(s, body, false, p, q);
    if q == FalsePoint(s) {
      BeforeFalsePoint(s, body, false, p);
      ErasePathFlows(s, body, false, before);
      r, n := ErasePath(s, before), 0;
      assert Last(r) == p;
    } else {
      r, n := MutantPathFrom(s, body, before);
      n := n + 1;
    }
  }

  lemma {:induction false} MutantPathFlows(s: Split, body: Body, r: seq<Location>, n: nat, path: seq<Location>)
    requires ValidSplit(s) && IsSplitBody(s, body) && IsMutantPath(s, false, r, n, path)
    ensures path != [] && FlowPath(body, false, path)
    ensures Last(path) == if n == 0 then FalsePoint(s) else Location(MutantBlock(s), n - 1)
    decreases n
  {
    if n == 0 {
      EmbedPathFlows(s, body, false, r);
      assert Flow(body, false, Last(r), FalsePoint(s));
      FlowPathExtend(body, false, EmbedPath(s, r), FalsePoint(s));
    } else {
      var before := EmbedPath(s, r) + MutantVisit(s, n - 1);
      MutantPathFlows(s, body, r, n - 1, before);
      FlowPathExtend(body, false, before, Location(MutantBlock(s), n - 1));
      assert path == before + [Location(MutantBlock(s), n - 1)];
    }
  }

  /** The control-flow graph gains no paths but these: every path is the embedding of an original one, or an original
      path up to the split followed by the false edge and a part of the mutant block. */
  lemma NewPathsExactly(s: Split, body: Body, path: seq<Location>)
    requires ValidSplit(s) && IsSplitBody(s, body) && path != []
    ensures FlowPath(body, false, path) <==>
            || (exists r :: r != [] && FlowPath(s.original, false, r) && EmbedPath(s, r) == path)
            || (exists r, n :: IsMutantPath(s, false, r, n, path))
  {
    if FlowPath(body, false, path) {
      if Last(path) == FalsePoint(s) || Last(path).block == MutantBlock(s) {
        var r, n := MutantPathFrom(s, body, path);
      } else {
        ErasePathFlows(s, body, false, path);
        assert ErasesWell(s, false, path);
      }
    }
    forall r | r != [] && FlowPath(s.original, false, r)
      ensures FlowPath(body, false, EmbedPath(s, r))
    {
      EmbedPathFlows(s, body, false, r);
    }
    forall r, n | IsMutantPath(s, false, r, n, path)
      ensures FlowPath(body, false, path)
    {
      MutantPathFlows(s, body, r, n, path);
    }
  }

  lemma {:induction false} ReachableByFlow(body: Body, p: Location)
    ensures Reachable(body, p) <==> exists path :: path != [] && FlowPath(body, false, path) && Last(path) == p
  {
    if Reachable(body, p) {
      var run :| IsRun(body, run, p);
      CheckerPathsAreRuns(body, run);
      assert Last(run) == p;
    }
    forall path | path != [] && FlowPath(body, false, path) && Last(path) == p
      ensures Reachable(body, p)
    {
      CheckerPathsAreRuns(body, path);
      assert IsRun(body, path, p);
    }
  }

  /** The original points keep their reachability, and the mutant block is reached exactly if the statement before the
      split was. */
  lemma ReachabilityKept(s: Split, body: Body, p: Location)
    requires ValidSplit(s) && IsSplitBody(s, body) && IsPoint(s.original, p)
    ensures Reachable(body, Embed(s, p)) <==> Reachable(s.original, p)
    ensures Reachable(body, Location(MutantBlock(s), 0)) <==> Reachable(s.original, Location(s.block, s.index - 1))
  {
    ReachableByFlow(body, Embed(s, p));
    ReachableByFlow(s.original, p);
    EmbedIsExact(s, body, p);
    forall path | path != [] && FlowPath(s.original, false, path) && Last(path) == p
      ensures EmbedPath(s, path) != [] && FlowPath(body, false, EmbedPath(s, path))
              && Last(EmbedPath(s, path)) == Embed(s, p)
    {
      EmbedPathFlows(s, body, false, path);
    }
    forall path | path != [] && FlowPath(body, false, path) && Last(path) == Embed(s, p)
      ensures ErasePath(s, path) != [] && FlowPath(s.original, false, ErasePath(s, path))
              && Last(ErasePath(s, path)) == p
    {
      ErasePathFlows(s, body, false, path);
    }
    MutantReachedExactly(s, body);
  }

  lemma MutantReachedExactly(s: Split, body: Body)
    requires ValidSplit(s) && IsSplitBody(s, body)
    ensures Reachable(body, Location(MutantBlock(s), 0)) <==> Reachable(s.original, Location(s.block, s.index - 1))
  {
    var m, o := Location(MutantBlock(s), 0), Location(s.block, s.index - 1);
    ReachableByFlow(body, m);
    ReachableByFlow(s.original, o);
    forall path | path != [] && FlowPath(body, false, path) && Last(path) == m
      ensures Reachable(s.original, o)
    {
      var r, n := MutantPathFrom(s, body, path);
      assert Last(r) == o;
    }
    forall r | r != [] && FlowPath(s.original, false, r) && Last(r) == o
      ensures Reachable(body, m)
    {
      MutantPathFlows(s, body, r, 1, EmbedPath(s, r) + MutantVisit(s, 1));
    }
  }

  // ---------------------------------------------------------------- building the mutants

  datatype MutantRange = MutantRange(start: Location, end: Location)

  /** A mutant body, its number of locals, and where the mutation is said to be. */
  datatype Mutant = Mutant(body: Body, locals: nat, range: MutantRange)

  /** A shared borrow of `place` into a local. */
  function Reborrow(target: Local, place: Place, region: RegionVid, span: Span): Statement {
    Statement(Assign(LocalPlace(target), Ref(region, Shared, place)), span)
  }

  /** One reborrow for each place, each into a fresh local. */
  method PlacesToStatements(places: seq<Place>, locals: nat, region: RegionVid, span: Span)
    returns (statements: seq<Statement>, locals': nat)
    ensures |statements| == |places| && locals' == locals + |places|
    ensures forall k :: 0 <= k < |places| ==> statements[k] == Reborrow(locals + k, places[k], region, span)
  {
    statements, locals' := [], locals;
    for i := 0 to |places|
      invariant |statements| == i && locals' == locals + i
      invariant forall k :: 0 <= k < i ==> statements[k] == Reborrow(locals + k, places[k], region, span)
    {
      statements := statements + [Reborrow(locals', places[i], region, span)];
      locals' := locals' + 1;
    }
  }

  /** The mutants between two consecutive statements of a block, one for each pair of places. */
  class Iter {
    var mutantSequences: seq<(Place, Place)>
    const body: Body
    const locals: nat
    const curr: Location
    const next: Location
    const region: RegionVid
    const span: Span

    constructor (mutantSequences: seq<(Place, Place)>, body: Body, locals: nat, curr: Location, next: Location,
                 region: RegionVid, span: Span)
      ensures this.mutantSequences == mutantSequences && this.body == body && this.locals == locals
      ensures this.curr == curr && this.next == next && this.region == region && this.span == span
    {
      this.mutantSequences := mutantSequences;
      this.body, this.locals, this.curr, this.next, this.region, this.span := body, locals, curr, next, region, span;
    }

    ghost predicate Valid() {
      WellFormed(body) && IsPoint(body, curr) && IsPoint(body, next) && next == Location(curr.block, curr.index + 1)
    }

    /** The blocked place is used first, the place that blocks it second. */
    ghost function SplitFor(pair: (Place, Place)): Split {
      Split(body, curr.block, next.index,
            [Reborrow(locals, pair.0, region, span), Reborrow(locals + 1, pair.1, region, span)], span)
    }

    ghost predicate IsMutantFor(pair: (Place, Place), mutant: Mutant)
      requires Valid()
    {
      && IsSplitBody(SplitFor(pair), mutant.body) && WellFormed(mutant.body) && mutant.locals == locals + 2
      && mutant.body.blocks[MutantBlock(SplitFor(pair))].statements ==
           [Statement(Assign(LocalPlace(locals), Ref(region, Shared, pair.0)), span),
            Statement(Assign(LocalPlace(locals + 1), Ref(region, Shared, pair.1)), span)]
      && mutant.range.start == Location(MutantBlock(SplitFor(pair)), 0)
      && mutant.range.end == Location(MutantBlock(SplitFor(pair)), curr.index)
    }

    method MaybeNext() returns (mutant: Option<Mutant>)
      requires Valid()
      modifies this`mutantSequences
      ensures old(mutantSequences) == [] ==> mutant.None? && mutantSequences == []
      ensures old(mutantSequences) != [] ==>
                var last := |old(mutantSequences)| - 1;
                && mutantSequences == old(mutantSequences)[..last]
                && mutant.Some? && IsMutantFor(old(mutantSequences)[last], mutant.value)
    {
      if mutantSequences == [] {
        return None;
      }
      var last := |mutantSequences| - 1;
      var (place, blockingPlace) := mutantSequences[last];
      mutantSequences := mutantSequences[..last];
      var mutantBody := body.blocks;
      var mutantSequence, locals' := PlacesToStatements([place, blockingPlace], locals, region, span);
      assert mutantSequence ==
               [Reborrow(locals, place, region, span), Reborrow(locals + 1, blockingPlace, region, span)];

      // Split the original block between `curr` and `next`.
      var block := mutantBody[curr.block];
      var tailStatements := block.statements[next.index..];
      var blockTerminator := block.terminator;
      var tailIndex := |mutantBody|;
      mutantBody := mutantBody + [BlockData(tailStatements, blockTerminator)];

      // The branch in which the places expire in the wrong order.
      var mutantIndex := |mutantBody|;
      mutantBody := mutantBody + [BlockData(mutantSequence, Terminator(Unreachable, span))];

      var start := Location(mutantIndex, 0);
      var end := Location(mutantIndex, curr.index);
      var falseEdge := Terminator(FalseEdge(tailIndex, mutantIndex), span);
      mutantBody := mutantBody[curr.block := BlockData(block.statements[..next.index], falseEdge)];
      SplitIsWellFormed(SplitFor((place, blockingPlace)), Body(mutantBody));
      mutant := Some(Mutant(Body(mutantBody), locals', MutantRange(start, end)));
    }

    /** The mutant of the last pair, which is dropped. */
    method Next() returns (mutant: Option<Mutant>)
      requires Valid()
      modifies this`mutantSequences
      ensures old(mutantSequences) == [] ==> mutant.None? && mutantSequences == []
      ensures old(mutantSequences) != [] ==>
                var last := |old(mutantSequences)| - 1;
                && mutantSequences == old(mutantSequences)[..last]
                && mutant.Some? && IsMutantFor(old(mutantSequences)[last], mutant.value)
    {
      mutant := None;
      while mutantSequences != [] && mutant.None?
        invariant mutant.None? ==> mutantSequences == old(mutantSequences)
        invariant mutant.Some? ==>
                    && old(mutantSequences) != []
                    && mutantSequences == old(mutantSequences)[..|old(mutantSequences)| - 1]
                    && IsMutantFor(old(mutantSequences)[|old(mutantSequences)| - 1], mutant.value)
        decreases |mutantSequences|
      {
        mutant := MaybeNext();
      }
    }

    /** The end of the range takes its index from the original block: it lies in the mutant block, which has two
        statements, exactly if the mutation is within the first three statements. */
    lemma RangeEndExactly(pair: (Place, Place), mutant: Mutant)
      requires Valid() && IsMutantFor(pair, mutant)
      ensures IsPoint(mutant.body, mutant.range.end) <==> curr.index <= 2
      ensures ValidSplit(SplitFor(pair))
    {
    }
  }

  /** In a block of four statements, the mutation after the last one is said to end at index three, where the mutant
      block has no point. */
  lemma RangeEndBeyondBlock(statement: Statement, first: Statement, second: Statement, span: Span)
    ensures var four := [statement, statement, statement, statement];
            var s := Split(Body([BlockData(four, Terminator(Return, span))]), 0, 4, [first, second], span);
            var body := Body([BlockData(four, Terminator(FalseEdge(1, 2), span)),
                              BlockData([], Terminator(Return, span)),
                              BlockData([first, second], Terminator(Unreachable, span))]);
            && ValidSplit(s) && IsSplitBody(s, body)
            && IsPoint(s.original, Location(0, 3)) && !IsPoint(body, Location(MutantBlock(s), 3))
  {
    var four := [statement, statement, statement, statement];
    assert four[..4] == four && four[4..] == [];
  }
}
