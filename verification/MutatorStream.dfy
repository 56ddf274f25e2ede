/** The resumable generator of `mutator_impl.rs`: it walks the blocks of a body and yields the mutants of every pair
    of consecutive statements. */
module MutatorStream {
  import opened Mir

  // ---------------------------------------------------------------- what is to be yielded

  /** The analysis of each block, if there is one, and the mutants that a mutation makes of two consecutive
      statements. */
  datatype Source<!S, !M> = Source(statementsOf: BasicBlock -> Option<seq<S>>, makeStream: (S, S) -> seq<M>)

  /** The pairs of consecutive statements from index `i` on. */
  function Pairs<S>(statements: seq<S>, i: nat): seq<(S, S)>
    decreases |statements| - i
  {
    if i + 1 < |statements| then [(statements[i], statements[i + 1])] + Pairs(statements, i + 1) else []
  }

  function PairsOfBlock<S, M>(source: Source<S, M>, b: BasicBlock): seq<(S, S)> {
    match source.statementsOf(b)
    case Some(statements) => Pairs(statements, 0)
    case None => []
  }

  function PairsOfBlocks<S, M>(source: Source<S, M>, blocks: seq<BasicBlock>): seq<(S, S)> {
    if blocks == [] then [] else PairsOfBlock(source, blocks[0]) + PairsOfBlocks(source, blocks[1..])
  }

  /** The mutants of a list of pairs, in order. */
  function MutantsOf<S, M>(source: Source<S, M>, pairs: seq<(S, S)>): seq<M> {
    if pairs == [] then [] else source.makeStream(pairs[0].0, pairs[0].1) + MutantsOf(source, pairs[1..])
  }

  lemma {:induction false} MutantsOfConcat<S, M>(source: Source<S, M>, left: seq<(S, S)>, right: seq<(S, S)>)
    ensures MutantsOf(source, left + right) == MutantsOf(source, left) + MutantsOf(source, right)
  {
    if left == [] {
      assert left + right == right;
    } else {
      assert (left + right)[1..] == left[1..] + right;
      MutantsOfConcat(source, left[1..], right);
    }
  }

  lemma {:induction false} PairsOfBlocksConcat<S, M>(source: Source<S, M>, left: seq<BasicBlock>,
                                                     right: seq<BasicBlock>)
    ensures PairsOfBlocks(source, left + right) == PairsOfBlocks(source, left) + PairsOfBlocks(source, right)
  {
    if left == [] {
      assert left + right == right;
    } else {
      assert (left + right)[1..] == left[1..] + right;
      PairsOfBlocksConcat(source, left[1..], right);
    }
  }

  /** Every pair of consecutive statements is there once, at its own index. */
  lemma {:induction false} PairsAre<S>(statements: seq<S>, i: nat)
    requires i < |statements|
    ensures |Pairs(statements, i)| == |statements| - 1 - i
    ensures forall k :: 0 <= k < |Pairs(statements, i)| ==>
              Pairs(statements, i)[k] == (statements[i + k], statements[i + k + 1])
    decreases |statements| - i
  {
    if i + 1 < |statements| {
      PairsAre(statements, i + 1);
      var pairs, rest := Pairs(statements, i), Pairs(statements, i + 1);
      forall k | 0 <= k < |pairs|
        ensures pairs[k] == (statements[i + k], statements[i + k + 1])
      {
        var j := k - 1;
        assert k > 0 ==> pairs[k] == rest[j] == (statements[i + 1 + j], statements[i + 1 + j + 1]);
      }
    }
  }

  function BlocksUpTo(n: nat): (blocks: seq<BasicBlock>)
    ensures |blocks| == n && forall b :: 0 <= b < n ==> blocks[b] == b
  {
    seq(n, b requires 0 <= b < n => b)
  }

  /** All the mutants of a body: what a traversal of the entire body yields. */
  function MutantsOfBody<S, M>(source: Source<S, M>, numBlocks: nat): seq<M> {
    MutantsOf(source, PairsOfBlocks(source, BlocksUpTo(numBlocks)))
  }

  // ---------------------------------------------------------------- the generator

  /** The state of the generator: the current stream, the blocks in the queue, and the statements of the current block
      with the index of the next pair. */
  datatype State<S, M> = State(mutants: Option<seq<M>>, basicBlocks: seq<BasicBlock>, bbStatements: Option<seq<S>>,
                               statementIndex: nat)

  function StreamLeft<M>(mutants: Option<seq<M>>): seq<M> {
    if mutants.Some? then mutants.value else []
  }

  /** The pairs of the current block that are still to come. */
  function PairsLeft<S>(bbStatements: Option<seq<S>>, statementIndex: nat): seq<(S, S)> {
    if bbStatements.Some? then Pairs(bbStatements.value, statementIndex) else []
  }

  function ButLast(blocks: seq<BasicBlock>): seq<BasicBlock>
    requires blocks != []
  {
    blocks[..|blocks| - 1]
  }

  /** The mutants that are still to come: what is left of the current stream, the rest of the current block, and all
      the blocks in the queue but the last. Once the queue is empty nothing more comes. */
  function Remaining<S, M>(source: Source<S, M>, s: State<S, M>): seq<M> {
    if s.basicBlocks == [] then []
    else
      StreamLeft(s.mutants)
      + (MutantsOf(source, PairsLeft(s.bbStatements, s.statementIndex))
         + MutantsOf(source, PairsOfBlocks(source, ButLast(s.basicBlocks))))
  }

  lemma RemainingAtStart<S, M>(source: Source<S, M>, numBlocks: nat)
    ensures Remaining(source, State(None, BlocksUpTo(numBlocks), None, 0)) ==
            if numBlocks == 0 then [] else MutantsOfBody(source, numBlocks - 1)
  {
    if numBlocks > 0 {
      assert ButLast(BlocksUpTo(numBlocks)) == BlocksUpTo(numBlocks - 1);
    }
  }

  lemma RemainingAfterYield<S, M>(source: Source<S, M>, s: State<S, M>)
    requires s.basicBlocks != [] && s.mutants.Some? && s.mutants.value != []
    ensures Remaining(source, s) == [s.mutants.value[0]] + Remaining(source, s.(mutants := Some(s.mutants.value[1..])))
  {
    assert s.mutants.value == [s.mutants.value[0]] + s.mutants.value[1..];
  }

  lemma MutantsOfFirst<S, M>(source: Source<S, M>, pair: (S, S), rest: seq<(S, S)>)
    ensures MutantsOf(source, [pair] + rest) == source.makeStream(pair.0, pair.1) + MutantsOf(source, rest)
  {
    assert ([pair] + rest)[1..] == rest;
  }

  /** Starting the stream of the next pair leaves the same mutants to come. */
  lemma RemainingAfterPair<S, M>(source: Source<S, M>, s: State<S, M>)
    requires s.basicBlocks != [] && StreamLeft(s.mutants) == []
    requires s.bbStatements.Some? && s.statementIndex + 1 < |s.bbStatements.value|
    ensures var statements, i := s.bbStatements.value, s.statementIndex;
            Remaining(source, s) ==
            Remaining(source, s.(mutants := Some(source.makeStream(statements[i], statements[i + 1])),
                                 statementIndex := i + 1))
  {
    var statements, i := s.bbStatements.value, s.statementIndex;
    var pair, rest := (statements[i], statements[i + 1]), Pairs(statements, i + 1);
    assert Pairs(statements, i) == [pair] + rest;
    MutantsOfFirst(source, pair, rest);
  }

  /** So does going on to the next block, even to the last one, whose pairs never come. */
  lemma RemainingAfterBlock<S, M>(source: Source<S, M>, s: State<S, M>)
    requires s.basicBlocks != [] && StreamLeft(s.mutants) == []
    requires s.bbStatements.Some? ==> s.statementIndex + 1 >= |s.bbStatements.value|
    ensures Remaining(source, s) ==
            Remaining(source, State(s.mutants, s.basicBlocks[1..], source.statementsOf(s.basicBlocks[0]), 0))
  {
    var b, rest := s.basicBlocks[0], s.basicBlocks[1..];
    if rest == [] {
      assert ButLast(s.basicBlocks) == [];
    } else {
      assert ButLast(s.basicBlocks) == [b] + ButLast(rest);
      assert ([b] + ButLast(rest))[1..] == ButLast(rest);
      MutantsOfConcat(source, PairsOfBlock(source, b), PairsOfBlocks(source, ButLast(rest)));
    }
  }

  class Mutator<!S, !M> {
    const source: Source<S, M>
    var mutants: Option<seq<M>>
    var basicBlocks: seq<BasicBlock>
    var bbStatements: Option<seq<S>>
    var statementIndex: nat

    constructor (source: Source<S, M>, numBlocks: nat)
      ensures this.source == source && Current() == State(None, BlocksUpTo(numBlocks), None, 0)
    {
      this.source := source;
      mutants := None;
      basicBlocks := BlocksUpTo(numBlocks);
      bbStatements := None;
      statementIndex := 0;
    }

    ghost function Current(): State<S, M>
      reads this
    {
      State(mutants, basicBlocks, bbStatements, statementIndex)
    }

    /** The next mutant of the current stream. */
    method NextOfStream() returns (mutant: Option<M>)
      modifies this`mutants
      ensures match mutant
              case Some(m) => old(mutants).Some? && old(mutants).value != [] && old(mutants).value[0] == m
                              && mutants == Some(old(mutants).value[1..])
              case None => mutants == old(mutants) && StreamLeft(mutants) == []
    {
      if mutants.Some? && mutants.value != [] {
        mutant := Some(mutants.value[0]);
        mutants := Some(mutants.value[1..]);
      } else {
        mutant := None;
      }
    }

    /** Yields a mutant of the current stream, or starts the next one, or goes on to the next block. */
    method Step() returns (mutant: Option<M>)
      requires basicBlocks != []
      modifies this
      ensures match mutant
              case Some(m) => Remaining(source, old(Current())) == [m] + Remaining(source, Current())
              case None => Remaining(source, old(Current())) == Remaining(source, Current())
      ensures mutant.Some? ==> basicBlocks == old(basicBlocks)
      ensures mutant.None? ==>
                || |basicBlocks| < |old(basicBlocks)|
                || (basicBlocks == old(basicBlocks) && bbStatements == old(bbStatements) && bbStatements.Some?
                    && old(statementIndex) < statementIndex <= |bbStatements.value|)
    {
      ghost var before := Current();
      mutant := NextOfStream();
      if mutant.Some? {
        RemainingAfterYield(source, before);
      } else if bbStatements.Some? && statementIndex + 1 < |bbStatements.value| {
        RemainingAfterPair(source, before);
        mutants := Some(source.makeStream(bbStatements.value[statementIndex], bbStatements.value[statementIndex + 1]));
        statementIndex := statementIndex + 1;
      } else {
        RemainingAfterBlock(source, before);
        statementIndex := 0;
        bbStatements := source.statementsOf(basicBlocks[0]);
        basicBlocks := basicBlocks[1..];
      }
    }

    /** Yields the first of the remaining mutants. */
    method Next() returns (mutant: Option<M>)
      modifies this
      ensures match mutant
              case Some(m) => Remaining(source, old(Current())) == [m] + Remaining(source, Current())
              case None => Remaining(source, old(Current())) == [] && basicBlocks == []
    {
      mutant := None;
      while basicBlocks != [] && mutant.None?
        invariant match mutant
                  case Some(m) => Remaining(source, old(Current())) == [m] + Remaining(source, Current())
                  case None => Remaining(source, old(Current())) == Remaining(source, Current())
        decreases |basicBlocks|, mutant.None?, if bbStatements.Some? then |bbStatements.value| - statementIndex else 0
      {
        var oldNumBb, oldStatementIndex := |basicBlocks|, statementIndex;
        mutant := Step();
        // The progress assertion of the source.
        assert mutant.Some? || |basicBlocks| < oldNumBb || statementIndex > oldStatementIndex;
      }
    }
  }

  /** Repeats `Next` until nothing comes. */
  method Drain<S, M>(mutator: Mutator<S, M>) returns (yielded: seq<M>)
    modifies mutator
    ensures yielded == Remaining(mutator.source, old(mutator.Current()))
  {
    ghost var left := Remaining(mutator.source, mutator.Current());
    yielded := [];
    var done := false;
    while !done
      invariant left == Remaining(mutator.source, mutator.Current())
      invariant Remaining(mutator.source, old(mutator.Current())) == yielded + left && (done ==> left == [])
      decreases |left|, !done
    {
      var mutant := mutator.Next();
      if mutant.Some? {
        YieldFirst(yielded, left, mutant.value);
        yielded := yielded + [mutant.value];
      } else {
        done := true;
      }
      left := Remaining(mutator.source, mutator.Current());
    }
  }

  lemma YieldFirst<M>(yielded: seq<M>, left: seq<M>, m: M)
    requires left != [] && left[0] == m
    ensures yielded + left == (yielded + [m]) + left[1..]
  {
  }

  /** All that a new generator yields: the mutants of every block but the last. */
  method Enumerate<S, M>(source: Source<S, M>, numBlocks: nat) returns (yielded: seq<M>)
    ensures yielded == if numBlocks == 0 then [] else MutantsOfBody(source, numBlocks - 1)
  {
    var mutator := new Mutator(source, numBlocks);
    RemainingAtStart(source, numBlocks);
    yielded := Drain(mutator);
  }

  /** The traversal is meant for the entire body; it covers it exactly if the last block has no mutants. */
  lemma CompleteExactly<S, M>(source: Source<S, M>, numBlocks: nat)
    requires numBlocks > 0
    ensures MutantsOfBody(source, numBlocks) ==
            MutantsOfBody(source, numBlocks - 1) + MutantsOf(source, PairsOfBlock(source, numBlocks - 1))
    ensures MutantsOfBody(source, numBlocks - 1) == MutantsOfBody(source, numBlocks) <==>
            MutantsOf(source, PairsOfBlock(source, numBlocks - 1)) == []
  {
    var last := numBlocks - 1;
    assert BlocksUpTo(numBlocks) == BlocksUpTo(last) + [last];
    PairsOfBlocksConcat(source, BlocksUpTo(last), [last]);
    assert PairsOfBlocks(source, [last]) == PairsOfBlock(source, last) + PairsOfBlocks(source, [last][1..]);
    assert PairsOfBlocks(source, [last]) == PairsOfBlock(source, last);
    MutantsOfConcat(source, PairsOfBlocks(source, BlocksUpTo(last)), PairsOfBlock(source, last));
  }

  /** A body of one block with two statements, whose mutant is their pair. */
  function OnePairSource(): Source<nat, (nat, nat)> {
    Source((b: BasicBlock) => Some([0, 1]), (s: nat, t: nat) => [(s, t)])
  }

  /** The mutant of that body is never yielded: its block is the last one. */
  lemma LastBlockIsMissed()
    ensures MutantsOfBody(OnePairSource(), 1) == [(0, 1)]
    ensures MutantsOfBody(OnePairSource(), 1 - 1) == []
  {
    var source := OnePairSource();
    CompleteExactly(source, 1);
    assert PairsOfBlock(source, 0) == [(0, 1)] + Pairs([0, 1], 1) == [(0, 1)];
    assert [(0, 1)][1..] == [];
    assert MutantsOf(source, [(0, 1)]) == source.makeStream(0, 1) + MutantsOf(source, []) == [(0, 1)];
  }
}
