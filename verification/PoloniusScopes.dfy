/** The second computation of loan scopes in `dataflow.rs`, by liveness of loans, and its agreement
    with the first one, which `Borrows::new` asserts. */
module PoloniusScopes {
  import opened Mir
  import opened LoanScopes

  /** What the region inference knows about loans: the regions that a search of the region graph yields
      from an issuing region, the choices of the member constraints applied to each component, and where
      each loan is contained in a live region. */
  datatype LoanLiveness = LoanLiveness(
    reached: RegionVid -> seq<RegionVid>,
    sccOf: RegionVid -> nat,
    appliedMinChoices: nat -> seq<RegionVid>,
    universalRegions: set<RegionVid>,
    liveAtAllPoints: set<RegionVid>,
    liveLoans: set<(BorrowIndex, Location)>)

  ghost predicate EscapesAt(cx: LoanLiveness, r: RegionVid) {
    || (exists c :: c in cx.appliedMinChoices(cx.sccOf(r)) && c in cx.universalRegions)
    || r in cx.liveAtAllPoints
  }

  /** The loan flows into a region that outlives the function. */
  ghost predicate Escapes(cx: LoanLiveness, issuingRegion: RegionVid) {
    exists r :: r in cx.reached(issuingRegion) && EscapesAt(cx, r)
  }

  function LiveInside(cx: LoanLiveness, i: BorrowIndex, issuedAt: Location): Location -> bool {
    (p: Location) => p == issuedAt || (i, p) in cx.liveLoans
  }

  function Everywhere(): Location -> bool {
    (p: Location) => true
  }

  ghost function PoloniusInside(cx: LoanLiveness, i: BorrowIndex, loan: BorrowData): Location -> bool {
    if Escapes(cx, loan.region) then Everywhere() else LiveInside(cx, i, loan.reserveLocation)
  }

  ghost function PoloniusInsides(cx: LoanLiveness, loans: seq<BorrowData>): (insides: seq<Location -> bool>)
    ensures |insides| == |loans|
    ensures forall i :: 0 <= i < |loans| ==> insides[i] == PoloniusInside(cx, i, loans[i])
  {
    seq(|loans|, i requires 0 <= i < |loans| => PoloniusInside(cx, i, loans[i]))
  }

  /** A loan that is in scope everywhere is recorded nowhere. */
  lemma NeverKilled(body: Body, first: Location, kills: KillMap, i: BorrowIndex)
    ensures KillPointsRecorded(body, Everywhere(), first, kills, kills, i)
  {
    assert forall p :: !KillPoint(body, Everywhere(), first, p);
  }

  class PoloniusOutOfScopePrecomputer {
    const body: Body
    const cx: LoanLiveness
    var visited: set<BasicBlock>
    var visitStack: seq<BasicBlock>
    var loansOutOfScope: KillMap

    ghost predicate Idle()
      reads this
    {
      WellFormed(body) && visited == {} && visitStack == []
    }

    constructor (body: Body, cx: LoanLiveness)
      requires WellFormed(body)
      ensures this.body == body && this.cx == cx
      ensures Idle() && loansOutOfScope == map[]
    {
      this.body, this.cx := body, cx;
      visited, visitStack, loansOutOfScope := {}, [], map[];
    }

    /** Does the search from the issuing region meet a region that escapes the function? */
    method FindEscape(issuingRegion: RegionVid) returns (escapes: bool)
      ensures escapes <==> Escapes(cx, issuingRegion)
    {
      var successors := cx.reached(issuingRegion);
      for k := 0 to |successors|
        invariant forall r :: r in successors[..k] ==> !EscapesAt(cx, r)
      {
        var choices := cx.appliedMinChoices(cx.sccOf(successors[k]));
        for c := 0 to |choices|
          invariant forall x :: x in choices[..c] ==> x !in cx.universalRegions
        {
          if choices[c] in cx.universalRegions {
            assert choices[c] in choices && EscapesAt(cx, successors[k]) && successors[k] in successors;
            return true;
          }
        }
        if successors[k] in cx.liveAtAllPoints {
          assert EscapesAt(cx, successors[k]) && successors[k] in successors;
          return true;
        }
        assert choices[..|choices|] == choices;
      }
      assert successors[..|successors|] == successors;
      return false;
    }

    /** The lowest statement in `start..=end` where the loan is not live. */
    method LoanKillLocation(loan: BorrowIndex, issuedAt: Location, block: BasicBlock, start: nat, end: nat)
      returns (kill: Option<Location>)
      requires start <= end
      ensures kill == match FirstOutside(LiveInside(cx, loan, issuedAt), block, start, end)
                      case Some(k) => Some(Location(block, k))
                      case None => None
    {
      var k := start;
      while k <= end
        invariant start <= k <= end + 1
        invariant FirstOutside(LiveInside(cx, loan, issuedAt), block, start, end)
               == FirstOutside(LiveInside(cx, loan, issuedAt), block, k, end)
      {
        var location := Location(block, k);
        if location != issuedAt && (loan, location) !in cx.liveLoans {
          return Some(location);
        }
        k := k + 1;
      }
      return None;
    }

    method PushSuccessors(succs: seq<BasicBlock>)
      modifies this`visited, this`visitStack
      ensures Pushed(succs, old(visited), old(visitStack), visited, visitStack)
    {
      var k := 0;
      while k < |succs|
        invariant k <= |succs|
        invariant visited == old(visited) + set b | b in succs[..k]
        invariant visitStack + NewBlocks(visited, succs[k..]) == old(visitStack) + NewBlocks(old(visited), succs)
      {
        assert succs[k..][0] == succs[k] && succs[k..][1..] == succs[k + 1..];
        assert succs[..k + 1] == succs[..k] + [succs[k]];
        if succs[k] !in visited {
          visited := visited + {succs[k]};
          visitStack := visitStack + [succs[k]];
        }
        k := k + 1;
      }
      assert succs[..k] == succs;
    }

    /** Records where the loan goes out of scope, which is nowhere if it escapes. */
    method PrecomputeLoansOutOfScope(loan: BorrowIndex, data: BorrowData)
      requires Idle() && IsPoint(body, data.reserveLocation)
      modifies this`visited, this`visitStack, this`loansOutOfScope
      ensures Idle()
      ensures KillPointsRecorded(body, PoloniusInside(cx, loan, data), data.reserveLocation,
                                 old(loansOutOfScope), loansOutOfScope, loan)
    {
      var escapes := FindEscape(data.region);
      if escapes {
        NeverKilled(body, data.reserveLocation, loansOutOfScope, loan);
        return;
      }
      ScanLoan(loan, data.reserveLocation);
    }

    /** Pops a block and scans it. */
    method ScanNextBlock(loan: BorrowIndex, first: Location, ghost killed: set<Location>, ghost start: KillMap)
      returns (ghost killed': set<Location>)
      requires visitStack != []
      requires ScanInvariant(body, LiveInside(cx, loan, first), first, visited, visitStack, killed)
      requires Recorded(start, loansOutOfScope, killed, loan)
      modifies this`visited, this`visitStack, this`loansOutOfScope
      ensures ScanInvariant(body, LiveInside(cx, loan, first), first, visited, visitStack, killed')
      ensures Recorded(start, loansOutOfScope, killed', loan)
      ensures ScanAdvances(body, old(visited), old(visitStack), visited, visitStack)
    {
      ghost var inside, stack, entered := LiveInside(cx, loan, first), visitStack, visited;
      TopIsBlock(body, inside, first, visited, visitStack, killed);
      var block := Top(visitStack);
      visitStack := Pop(visitStack);
      var kill := LoanKillLocation(loan, first, block, 0, LastIndex(body, block));
      if kill.Some? {
        ScanRecords(body, inside, first, entered, stack, killed, kill.value.index);
        RecordOnce(start, loansOutOfScope, killed, kill.value, loan);
        loansOutOfScope := RecordKill(loansOutOfScope, kill.value, loan);
        killed' := killed + {kill.value};
      } else {
        PushSuccessors(BlockSuccessors(body, block));
        ScanPasses(body, inside, first, entered, stack, killed, visited, visitStack);
        killed' := killed;
      }
    }

    /** The scan of the blocks, for a loan that does not escape. */
    method ScanLoan(loan: BorrowIndex, first: Location)
      requires Idle() && IsPoint(body, first)
      modifies this`visited, this`visitStack, this`loansOutOfScope
      ensures Idle()
      ensures KillPointsRecorded(body, LiveInside(cx, loan, first), first, old(loansOutOfScope), loansOutOfScope, loan)
    {
      ghost var inside := LiveInside(cx, loan, first);
      var firstKill := LoanKillLocation(loan, first, first.block, first.index, LastIndex(body, first.block));
      if firstKill.Some? {
        FirstBlockRecorded(body, inside, first, loansOutOfScope, loan, firstKill.value.index);
        loansOutOfScope := RecordKill(loansOutOfScope, firstKill.value, loan);
        return;
      }
      PushSuccessors(BlockSuccessors(body, first.block));
      ScanStart(body, inside, first, visited, visitStack);
      ghost var killed: set<Location> := {};
      while visitStack != []
        invariant ScanInvariant(body, inside, first, visited, visitStack, killed)
        invariant Recorded(old(loansOutOfScope), loansOutOfScope, killed, loan)
        decreases AllBlocks(body) - visited, |visitStack|
      {
        killed := ScanNextBlock(loan, first, killed, old(loansOutOfScope));
      }
      ScanRecorded(body, inside, first, visited, killed, old(loansOutOfScope), loansOutOfScope, loan);
      visited := {};
      assert visitStack == [];
    }
  }

  method CalculateLoansOutOfScope(body: Body, cx: LoanLiveness, loans: seq<BorrowData>) returns (kills: KillMap)
    requires WellFormed(body)
    requires forall i :: 0 <= i < |loans| ==> IsPoint(body, loans[i].reserveLocation)
    ensures KillMapOf(body, PoloniusInsides(cx, loans), loans, kills, |loans|)
  {
    var prec := new PoloniusOutOfScopePrecomputer(body, cx);
    var i := 0;
    while i < |loans|
      invariant i <= |loans|
      invariant prec.Idle() && prec.body == body && prec.cx == cx
      invariant KillMapOf(body, PoloniusInsides(cx, loans), loans, prec.loansOutOfScope, i)
    {
      ghost var before := prec.loansOutOfScope;
      prec.PrecomputeLoansOutOfScope(i, loans[i]);
      KillMapStep(body, PoloniusInsides(cx, loans), loans, before, prec.loansOutOfScope, i);
      i := i + 1;
    }
    kills := prec.loansOutOfScope;
  }

  // ---------------------------------------------------------------- agreement

  ghost predicate SameKillPoints(body: Body, insides: seq<Location -> bool>, insides': seq<Location -> bool>,
                                 loans: seq<BorrowData>, i: BorrowIndex)
    requires i < |loans| == |insides| == |insides'|
  {
    forall p :: KillPoint(body, insides[i], loans[i].reserveLocation, p)
           <==> KillPoint(body, insides'[i], loans[i].reserveLocation, p)
  }

  lemma {:induction false} SameLoansKilled(body: Body, insides: seq<Location -> bool>, insides': seq<Location -> bool>,
                                           loans: seq<BorrowData>, p: Location, n: nat)
    requires n <= |loans| == |insides| == |insides'|
    requires forall i :: 0 <= i < n ==> SameKillPoints(body, insides, insides', loans, i)
    ensures LoansKilledAt(body, insides, loans, p, n) == LoansKilledAt(body, insides', loans, p, n)
  {
    if n > 0 {
      SameLoansKilled(body, insides, insides', loans, p, n - 1);
      assert SameKillPoints(body, insides, insides', loans, n - 1);
    }
  }

  lemma SameMaps(body: Body, insides: seq<Location -> bool>, insides': seq<Location -> bool>,
                 loans: seq<BorrowData>, kills: KillMap, kills': KillMap)
    requires |loans| == |insides| == |insides'|
    requires KillMapOf(body, insides, loans, kills, |loans|)
    requires KillMapOf(body, insides', loans, kills', |loans|)
    requires forall i :: 0 <= i < |loans| ==> SameKillPoints(body, insides, insides', loans, i)
    ensures kills == kills'
  {
    forall p
      ensures p in kills <==> p in kills'
      ensures KillsAt(kills, p) == KillsAt(kills', p)
    {
      SameLoansKilled(body, insides, insides', loans, p, |loans|);
    }
    forall p | p in kills
      ensures p in kills' && kills[p] == kills'[p]
    {
      assert KillsAt(kills, p) == KillsAt(kills', p);
    }
    assert kills.Keys == kills'.Keys;
  }

  lemma KilledThere(body: Body, insides: seq<Location -> bool>, loans: seq<BorrowData>, kills: KillMap, i: nat,
                    p: Location)
    requires i < |loans| == |insides|
    requires KillMapOf(body, insides, loans, kills, |loans|)
    ensures i in KillsAt(kills, p) <==> KillPoint(body, insides[i], loans[i].reserveLocation, p)
  {
    LoansKilledAre(body, insides, loans, p, |loans|);
    assert KillsAt(kills, p) == LoansKilledAt(body, insides, loans, p, |loans|);
  }

  /** Two computations of the map agree if and only if each loan goes out of scope at the same points. */
  lemma AgreeExactly(body: Body, insides: seq<Location -> bool>, insides': seq<Location -> bool>,
                     loans: seq<BorrowData>, kills: KillMap, kills': KillMap)
    requires |loans| == |insides| == |insides'|
    requires KillMapOf(body, insides, loans, kills, |loans|)
    requires KillMapOf(body, insides', loans, kills', |loans|)
    ensures kills == kills' <==> forall i :: 0 <= i < |loans| ==> SameKillPoints(body, insides, insides', loans, i)
  {
    if kills == kills' {
      forall i: nat, p | i < |loans|
        ensures KillPoint(body, insides[i], loans[i].reserveLocation, p)
           <==> KillPoint(body, insides'[i], loans[i].reserveLocation, p)
      {
        KilledThere(body, insides, loans, kills, i, p);
        KilledThere(body, insides', loans, kills', i, p);
      }
    } else if forall i :: 0 <= i < |loans| ==> SameKillPoints(body, insides, insides', loans, i) {
      SameMaps(body, insides, insides', loans, kills, kills');
    }
  }

  // ---------------------------------------------------------------- what the two computations share

  ghost predicate HoldsEverywhere(body: Body, regions: RegionValues, r: RegionVid) {
    forall p :: IsPoint(body, p) ==> RegionContains(regions, r, p)
  }

  /** Whatever holds in `inner` holds in `outer`. */
  ghost predicate HoldsWherever(body: Body, regions: RegionValues, outer: RegionVid, inner: RegionVid) {
    forall p :: IsPoint(body, p) && RegionContains(regions, inner, p) ==> RegionContains(regions, outer, p)
  }

  /** Values respect the flow of loans: a region holds wherever the regions do that the search reaches from it, and
      wherever the choices do that were applied to its component; what is live at all points or universal holds
      everywhere. */
  ghost predicate RegionsClosed(body: Body, regions: RegionValues, cx: LoanLiveness) {
    && (forall r, s :: s in cx.reached(r) ==> HoldsWherever(body, regions, r, s))
    && (forall r, c :: c in cx.appliedMinChoices(cx.sccOf(r)) ==> HoldsWherever(body, regions, r, c))
    && (forall r :: r in cx.liveAtAllPoints || r in cx.universalRegions ==> HoldsEverywhere(body, regions, r))
  }

  /** The loan flows out of the function: into a region that is live at all points, or into one for which a universal
      region was chosen. */
  ghost predicate FlowsOut(cx: LoanLiveness, r: RegionVid) {
    || (exists s :: s in cx.reached(r) && s in cx.liveAtAllPoints)
    || (exists s, c :: s in cx.reached(r) && c in cx.appliedMinChoices(cx.sccOf(s)) && c in cx.universalRegions)
  }

  lemma EscapesExactly(cx: LoanLiveness, r: RegionVid)
    ensures Escapes(cx, r) <==> FlowsOut(cx, r)
  {
    if s :| s in cx.reached(r) && s in cx.liveAtAllPoints {
      assert EscapesAt(cx, s);
    }
    if s, c :| s in cx.reached(r) && c in cx.appliedMinChoices(cx.sccOf(s)) && c in cx.universalRegions {
      assert EscapesAt(cx, s);
    }
  }

  /** The region of a loan that flows out holds everywhere. */
  lemma OutHoldsEverywhere(body: Body, regions: RegionValues, cx: LoanLiveness, r: RegionVid)
    requires RegionsClosed(body, regions, cx) && FlowsOut(cx, r)
    ensures HoldsEverywhere(body, regions, r)
  {
    if s :| s in cx.reached(r) && s in cx.liveAtAllPoints {
      assert HoldsWherever(body, regions, r, s) && HoldsEverywhere(body, regions, s);
    } else {
      var s, c :| s in cx.reached(r) && c in cx.appliedMinChoices(cx.sccOf(s)) && c in cx.universalRegions;
      assert HoldsWherever(body, regions, r, s) && HoldsWherever(body, regions, s, c);
      assert HoldsEverywhere(body, regions, c);
    }
  }

  /** What the two computations have to have in common. The region of a loan holds at its issue point, and a loan that
      does not flow out is live exactly where its region holds, away from there. Nothing is said about where a loan is
      live that flows out, which is left out of the computation of liveness. */
  ghost predicate LivenessMatchesRegions(body: Body, regions: RegionValues, cx: LoanLiveness, loans: seq<BorrowData>) {
    && RegionsClosed(body, regions, cx)
    && forall i :: 0 <= i < |loans| ==> LoanMatchesRegion(body, regions, cx, loans, i)
  }

  ghost predicate LoanMatchesRegion(body: Body, regions: RegionValues, cx: LoanLiveness, loans: seq<BorrowData>,
                                    i: BorrowIndex)
    requires i < |loans|
  {
    && RegionContains(regions, loans[i].region, loans[i].reserveLocation)
    && (!FlowsOut(cx, loans[i].region) ==>
          forall p :: IsPoint(body, p) && p != loans[i].reserveLocation ==>
            ((i, p) in cx.liveLoans <==> RegionContains(regions, loans[i].region, p)))
  }

  lemma SameInsides(body: Body, regions: RegionValues, cx: LoanLiveness, loans: seq<BorrowData>, i: BorrowIndex)
    requires RegionsClosed(body, regions, cx) && i < |loans| && LoanMatchesRegion(body, regions, cx, loans, i)
    ensures forall q :: IsPoint(body, q) ==>
              LoanInsides(regions, loans)[i](q) == PoloniusInsides(cx, loans)[i](q)
  {
    EscapesExactly(cx, loans[i].region);
    if FlowsOut(cx, loans[i].region) {
      OutHoldsEverywhere(body, regions, cx, loans[i].region);
    }
  }

  lemma PoloniusAgrees(body: Body, regions: RegionValues, cx: LoanLiveness, loans: seq<BorrowData>,
                       kills: KillMap, kills': KillMap)
    requires LivenessMatchesRegions(body, regions, cx, loans)
    requires KillMapOf(body, LoanInsides(regions, loans), loans, kills, |loans|)
    requires KillMapOf(body, PoloniusInsides(cx, loans), loans, kills', |loans|)
    ensures kills == kills'
  {
    var nll, polonius := LoanInsides(regions, loans), PoloniusInsides(cx, loans);
    forall i: nat, p | i < |loans|
      ensures KillPoint(body, nll[i], loans[i].reserveLocation, p) <==>
                KillPoint(body, polonius[i], loans[i].reserveLocation, p)
    {
      SameInsides(body, regions, cx, loans, i);
      if KillPoint(body, nll[i], loans[i].reserveLocation, p) {
        SameInside(body, nll[i], polonius[i], loans[i].reserveLocation, p);
      }
      if KillPoint(body, polonius[i], loans[i].reserveLocation, p) {
        SameInside(body, polonius[i], nll[i], loans[i].reserveLocation, p);
      }
    }
    AgreeExactly(body, nll, polonius, loans, kills, kills');
  }

  /** `Borrows::new`: the map the dataflow uses, with both computations compared when asked for. */
  method NewBorrows(body: Body, regions: RegionValues, loans: seq<BorrowData>, polonius: Option<LoanLiveness>)
    returns (kills: KillMap)
    requires WellFormed(body)
    requires forall i :: 0 <= i < |loans| ==> IsPoint(body, loans[i].reserveLocation)
    requires polonius.Some? ==> LivenessMatchesRegions(body, regions, polonius.value, loans)
    ensures KillMapOf(body, LoanInsides(regions, loans), loans, kills, |loans|)
  {
    kills := CalculateBorrowsOutOfScopeAtLocation(body, regions, loans);
    if polonius.Some? {
      var loansOutOfScope := CalculateLoansOutOfScope(body, polonius.value, loans);
      PoloniusAgrees(body, regions, polonius.value, loans, kills, loansOutOfScope);
      assert kills == loansOutOfScope;
      kills := loansOutOfScope;
    }
  }
}
