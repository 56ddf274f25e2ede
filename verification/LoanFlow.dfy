/** The forward dataflow of loans in scope of `dataflow.rs`: its transfer functions on a bit set, and what its
    least solution means on the paths of the body. */
module LoanFlow {
  import opened Mir
  import opened PlacesConflict
  import opened BorrowSets
  import opened LoanScopes
  import opened PoloniusScopes

  datatype Borrows = Borrows(tcx: TyCtxt, body: Body, borrowSet: BorrowSet, outOfScope: KillMap)

  // ---------------------------------------------------------------- what a point generates and kills

  /** Does overwriting `place` end loan `i`? For a whole local, whatever is borrowed from it; otherwise what
      certainly overlaps. */
  predicate KilledByPlace(cx: Borrows, place: Place, i: BorrowIndex) {
    && i in LoansOn(cx.borrowSet.localMap, place.local)
    && if place.projection == [] then place.local !in cx.tcx.staticRefs else CertainlyOverwrites(cx, place, i)
  }

  predicate CertainlyOverwrites(cx: Borrows, place: Place, i: BorrowIndex) {
    && i < |cx.borrowSet.loans|
    && PlacesConflictAnswer(cx.tcx, cx.borrowSet.loans[i].borrowedPlace, place, BiasNoOverlap) == Conflicts(true)
  }

  /** The places that the point overwrites, as far as loans are concerned. A statement that takes a borrow
      which is not tracked has no effect at all. */
  function OverwrittenByStatement(cx: Borrows, kind: StatementKind): seq<Place> {
    match kind
    case Assign(lhs, rhs) =>
      if rhs.Ref? && IgnoreBorrow(cx.tcx, cx.borrowSet.localsStateAtExit, rhs.place) then [] else [lhs]
    case StorageDead(l) => [LocalPlace(l)]
    case _ => []
  }

  function OverwrittenByAsm(operands: seq<InlineAsmOperand>): seq<Place> {
    if operands == [] then []
    else
      match AsmOutputOf(operands[0])
      case Some(p) => [p] + OverwrittenByAsm(operands[1..])
      case None => OverwrittenByAsm(operands[1..])
  }

  function AsmOutputOf(operand: InlineAsmOperand): Option<Place> {
    match operand
    case AsmOut(p) => p
    case AsmInOut(_, p) => p
    case _ => None
  }

  function Overwritten(cx: Borrows, p: Location): seq<Place> {
    if !IsPoint(cx.body, p) then []
    else if IsTerminatorPoint(cx.body, p) then
      var kind := cx.body.blocks[p.block].terminator.kind;
      if kind.InlineAsm? then OverwrittenByAsm(kind.asmOperands) else []
    else OverwrittenByStatement(cx, cx.body.blocks[p.block].statements[p.index].kind)
  }

  predicate KilledByPlaces(cx: Borrows, places: seq<Place>, i: BorrowIndex) {
    exists place :: place in places && KilledByPlace(cx, place, i)
  }

  predicate PlaceKills(cx: Borrows, p: Location, i: BorrowIndex) {
    KilledByPlaces(cx, Overwritten(cx, p), i)
  }

  function GeneratedAt(cx: Borrows, p: Location): Option<BorrowIndex> {
    if IssuesLoan(cx.tcx, cx.borrowSet.localsStateAtExit, cx.body, p) then IndexOf(cx.borrowSet.loans, p) else None
  }

  ghost function EarlyEffect(cx: Borrows, state: set<BorrowIndex>, p: Location): set<BorrowIndex> {
    set i | i in state && i !in KillsAt(cx.outOfScope, p)
  }

  ghost function PrimaryEffect(cx: Borrows, state: set<BorrowIndex>, p: Location): set<BorrowIndex> {
    WithoutKilled(cx, state + Generated(cx, p), Overwritten(cx, p))
  }

  function Generated(cx: Borrows, p: Location): set<BorrowIndex> {
    match GeneratedAt(cx, p)
    case Some(i) => {i}
    case None => {}
  }

  /** What is left of `state` after overwriting the places. */
  ghost function WithoutKilled(cx: Borrows, state: set<BorrowIndex>, places: seq<Place>): set<BorrowIndex> {
    set i | i in state && !KilledByPlaces(cx, places, i)
  }

  lemma WithoutKilledLast(cx: Borrows, state: set<BorrowIndex>, places: seq<Place>, place: Place)
    ensures WithoutKilled(cx, WithoutKilled(cx, state, places), [place]) == WithoutKilled(cx, state, places + [place])
  {
    forall i
      ensures KilledByPlaces(cx, places + [place], i) <==>
                KilledByPlaces(cx, places, i) || KilledByPlaces(cx, [place], i)
    {
      assert forall q :: q in places + [place] <==> q in places || q in [place];
    }
  }

  // ---------------------------------------------------------------- the transfer functions

  /** The bit set of loans in scope. */
  class LoanBits {
    var loans: set<BorrowIndex>

    constructor ()
      ensures loans == {}
    {
      loans := {};
    }

    method KillAll(indices: seq<BorrowIndex>)
      modifies this
      ensures loans == set i | i in old(loans) && i !in indices
    {
      for k := 0 to |indices|
        invariant loans == set i | i in old(loans) && i !in indices[..k]
      {
        assert indices[..k + 1] == indices[..k] + [indices[k]];
        loans := loans - {indices[k]};
      }
      assert indices[..|indices|] == indices;
    }
  }

  method KillLoansOutOfScopeAtLocation(cx: Borrows, state: LoanBits, location: Location)
    modifies state
    ensures state.loans == EarlyEffect(cx, old(state.loans), location)
  {
    if location in cx.outOfScope {
      state.KillAll(cx.outOfScope[location]);
    }
  }

  method KillBorrowsOnPlace(cx: Borrows, state: LoanBits, place: Place)
    requires LocalMapAgrees(cx.borrowSet.loans, cx.borrowSet.localMap)
    modifies state
    ensures state.loans == WithoutKilled(cx, old(state.loans), [place])
  {
    assert forall i :: KilledByPlaces(cx, [place], i) <==> KilledByPlace(cx, place, i) by {
      assert place in [place];
    }
    var others := LoansOn(cx.borrowSet.localMap, place.local);
    if place.projection == [] {
      if place.local !in cx.tcx.staticRefs {
        state.KillAll(others);
      }
      return;
    }
    LoansOfLocalAre(cx.borrowSet.loans, place.local);
    var definitelyConflicting := [];
    for k := 0 to |others|
      invariant forall i :: i in definitelyConflicting <==> i in others[..k] && KilledByPlace(cx, place, i)
    {
      assert others[..k + 1] == others[..k] + [others[k]];
      assert others[k] in others;
      if PlacesConflictAnswer(cx.tcx, cx.borrowSet.loans[others[k]].borrowedPlace, place, BiasNoOverlap) ==
          Conflicts(true) {
        definitelyConflicting := definitelyConflicting + [others[k]];
      }
    }
    assert others[..|others|] == others;
    state.KillAll(definitelyConflicting);
  }

  method ApplyEarlyEffect(cx: Borrows, state: LoanBits, location: Location)
    modifies state
    ensures state.loans == EarlyEffect(cx, old(state.loans), location)
  {
    KillLoansOutOfScopeAtLocation(cx, state, location);
  }

  method ApplyPrimaryStatementEffect(cx: Borrows, state: LoanBits, location: Location)
    requires IsPoint(cx.body, location) && !IsTerminatorPoint(cx.body, location)
    requires LocalMapAgrees(cx.borrowSet.loans, cx.borrowSet.localMap)
    requires IssuesLoan(cx.tcx, cx.borrowSet.localsStateAtExit, cx.body, location) ==>
               IndexOf(cx.borrowSet.loans, location).Some?
    modifies state
    ensures state.loans == PrimaryEffect(cx, old(state.loans), location)
  {
    var kind := cx.body.blocks[location.block].statements[location.index].kind;
    assert WithoutKilled(cx, state.loans, []) == state.loans;
    match kind
    case Assign(lhs, rhs) =>
      if rhs.Ref? {
        if IgnoreBorrow(cx.tcx, cx.borrowSet.localsStateAtExit, rhs.place) {
          return;
        }
        state.loans := state.loans + {IndexOf(cx.borrowSet.loans, location).value};
      }
      KillBorrowsOnPlace(cx, state, lhs);
    case StorageDead(local) =>
      KillBorrowsOnPlace(cx, state, LocalPlace(local));
    case _ =>
  }

  method KillAsmOutputs(cx: Borrows, state: LoanBits, operands: seq<InlineAsmOperand>)
    requires LocalMapAgrees(cx.borrowSet.loans, cx.borrowSet.localMap)
    modifies state
    ensures state.loans == WithoutKilled(cx, old(state.loans), OverwrittenByAsm(operands))
  {
    assert operands[0..] == operands;
    assert WithoutKilled(cx, state.loans, []) == state.loans;
    ghost var places := [];
    for k := 0 to |operands|
      invariant OverwrittenByAsm(operands) == places + OverwrittenByAsm(operands[k..])
      invariant state.loans == WithoutKilled(cx, old(state.loans), places)
    {
      assert operands[k..][0] == operands[k] && operands[k..][1..] == operands[k + 1..];
      var place := AsmOutputOf(operands[k]);
      if place.Some? {
        KillBorrowsOnPlace(cx, state, place.value);
        WithoutKilledLast(cx, old(state.loans), places, place.value);
        places := places + [place.value];
      }
    }
    assert places == OverwrittenByAsm(operands);
  }

  method ApplyPrimaryTerminatorEffect(cx: Borrows, state: LoanBits, location: Location)
    requires IsPoint(cx.body, location) && IsTerminatorPoint(cx.body, location)
    requires LocalMapAgrees(cx.borrowSet.loans, cx.borrowSet.localMap)
    modifies state
    ensures state.loans == PrimaryEffect(cx, old(state.loans), location)
  {
    var kind := cx.body.blocks[location.block].terminator.kind;
    assert WithoutKilled(cx, state.loans, []) == state.loans;
    if kind.InlineAsm? {
      KillAsmOutputs(cx, state, kind.asmOperands);
    }
  }

  // ---------------------------------------------------------------- the least solution

  /** The state on entry to each block. */
  type Entries = seq<set<BorrowIndex>>

  /** The state before point `(b, k)`, from the state on entry to `b`. */
  ghost function Before(cx: Borrows, entry: set<BorrowIndex>, b: BasicBlock, k: nat): set<BorrowIndex> {
    if k == 0 then entry
    else PrimaryEffect(cx, EarlyEffect(cx, Before(cx, entry, b, k - 1), Location(b, k - 1)), Location(b, k - 1))
  }

  ghost predicate IsPointOf(cx: Borrows, entries: Entries, p: Location) {
    |entries| == |cx.body.blocks| && IsPoint(cx.body, p)
  }

  /** The state after the early effect at `p`, which is the one accesses at `p` are checked against. */
  ghost function InScopeAt(cx: Borrows, entries: Entries, p: Location): set<BorrowIndex>
    requires IsPointOf(cx, entries, p)
  {
    EarlyEffect(cx, Before(cx, entries[p.block], p.block, p.index), p)
  }

  ghost function AfterPoint(cx: Borrows, entries: Entries, p: Location): set<BorrowIndex>
    requires IsPointOf(cx, entries, p)
  {
    PrimaryEffect(cx, InScopeAt(cx, entries, p), p)
  }

  ghost predicate IsSolution(cx: Borrows, entries: Entries) {
    && |entries| == |cx.body.blocks|
    && forall b: nat, c: nat :: FlowsAlong(cx, entries, b, c)
  }

  /** The state at the end of `b` flows into its successor `c`. */
  ghost predicate FlowsAlong(cx: Borrows, entries: Entries, b: BasicBlock, c: BasicBlock)
    requires |entries| == |cx.body.blocks|
  {
    b < |cx.body.blocks| && c in BlockSuccessors(cx.body, b) ==>
      c < |entries| && AfterPoint(cx, entries, Location(b, LastIndex(cx.body, b))) <= entries[c]
  }

  ghost predicate LeastSolution(cx: Borrows, entries: Entries) {
    && IsSolution(cx, entries)
    && forall other, b :: IsSolution(cx, other) && 0 <= b < |entries| ==> entries[b] <= other[b]
  }

  // ---------------------------------------------------------------- paths that carry a loan

  ghost predicate ValidBorrows(cx: Borrows) {
    && WellFormed(cx.body)
    && ValidSet(cx.borrowSet)
    && forall i :: 0 <= i < |cx.borrowSet.loans| ==>
         IssuedBy(cx.tcx, cx.borrowSet.localsStateAtExit, cx.body, cx.borrowSet.loans[i])
  }

  /** Each loan is generated at its own reserve location. */
  ghost predicate LoansGenerated(cx: Borrows) {
    && WellFormed(cx.body)
    && forall i :: 0 <= i < |cx.borrowSet.loans| ==> GeneratedAt(cx, cx.borrowSet.loans[i].reserveLocation) == Some(i)
  }

  lemma ValidGenerates(cx: Borrows)
    requires ValidBorrows(cx)
    ensures LoansGenerated(cx)
  {
  }

  /** The path starts where the loan is issued, and nothing on it before its end kills the loan. */
  ghost predicate Carries(cx: Borrows, i: BorrowIndex, path: seq<Location>) {
    && i < |cx.borrowSet.loans|
    && IsPath(cx.body, path) && |path| >= 2
    && path[0] == cx.borrowSet.loans[i].reserveLocation
    && (forall k :: 0 <= k < |path| - 1 ==> !PlaceKills(cx, path[k], i))
    && (forall k :: 1 <= k < |path| - 1 ==> i !in KillsAt(cx.outOfScope, path[k]))
  }

  ghost predicate CarriedTo(cx: Borrows, i: BorrowIndex, p: Location) {
    exists path :: Carries(cx, i, path) && path[|path| - 1] == p
  }

  lemma PrimaryMember(cx: Borrows, state: set<BorrowIndex>, p: Location, i: BorrowIndex)
    ensures i in PrimaryEffect(cx, state, p) <==> (i in state || GeneratedAt(cx, p) == Some(i)) && !PlaceKills(cx, p, i)
  {
  }

  lemma FlowsAlongEdge(cx: Borrows, entries: Entries, i: BorrowIndex, p: Location, q: Location)
    requires IsSolution(cx, entries) && Edge(cx.body, p, q)
    requires i in AfterPoint(cx, entries, p)
    ensures i in Before(cx, entries[q.block], q.block, q.index)
  {
    assert FlowsAlong(cx, entries, p.block, q.block);
  }

  /** Any solution contains what paths carry. */
  lemma {:induction false} CarriedIsThere(cx: Borrows, entries: Entries, i: BorrowIndex, path: seq<Location>)
    requires LoansGenerated(cx) && IsSolution(cx, entries)
    requires Carries(cx, i, path)
    ensures IsPoint(cx.body, path[|path| - 1])
    ensures i in Before(cx, entries[path[|path| - 1].block], path[|path| - 1].block, path[|path| - 1].index)
    decreases |path|
  {
    var n := |path| - 1;
    var p, q := path[n - 1], path[n];
    assert Edge(cx.body, path[n - 1], path[n - 1 + 1]);
    if n >= 2 {
      PathSlice(cx.body, path, 0, n);
      CarriedIsThere(cx, entries, i, path[..n]);
      assert i in InScopeAt(cx, entries, p);
    }
    PrimaryMember(cx, InScopeAt(cx, entries, p), p, i);
    FlowsAlongEdge(cx, entries, i, p, q);
  }

  /** The states that paths describe. */
  ghost function PathEntries(cx: Borrows): Entries {
    seq(|cx.body.blocks|, (b: nat) => set i: nat | i < |cx.borrowSet.loans| && CarriedTo(cx, i, Location(b, 0)))
  }

  lemma CarryOn(cx: Borrows, i: BorrowIndex, p: Location, q: Location)
    requires i < |cx.borrowSet.loans|
    requires Edge(cx.body, p, q) && !PlaceKills(cx, p, i)
    requires (CarriedTo(cx, i, p) && i !in KillsAt(cx.outOfScope, p)) || p == cx.borrowSet.loans[i].reserveLocation
    ensures CarriedTo(cx, i, q)
  {
    if p == cx.borrowSet.loans[i].reserveLocation {
      assert Carries(cx, i, [p, q]);
    } else {
      var path :| Carries(cx, i, path) && path[|path| - 1] == p;
      CarriesFurther(cx, i, path, q);
    }
  }

  lemma CarriesFurther(cx: Borrows, i: BorrowIndex, path: seq<Location>, q: Location)
    requires Carries(cx, i, path)
    requires var p := path[|path| - 1]; Edge(cx.body, p, q) && !PlaceKills(cx, p, i) && i !in KillsAt(cx.outOfScope, p)
    ensures Carries(cx, i, path + [q])
  {
    PathExtend(cx.body, path, q);
  }

  lemma {:induction false} PathEntriesWithin(cx: Borrows, i: BorrowIndex, b: BasicBlock, k: nat)
    requires LoansGenerated(cx)
    requires b < |cx.body.blocks| && k <= LastIndex(cx.body, b)
    requires i in Before(cx, PathEntries(cx)[b], b, k)
    ensures i < |cx.borrowSet.loans| && CarriedTo(cx, i, Location(b, k))
  {
    if k > 0 {
      var p := Location(b, k - 1);
      var state := Before(cx, PathEntries(cx)[b], b, k - 1);
      PrimaryMember(cx, EarlyEffect(cx, state, p), p, i);
      if i in EarlyEffect(cx, state, p) {
        PathEntriesWithin(cx, i, b, k - 1);
      }
      CarryOn(cx, i, p, Location(b, k));
    }
  }

  /** The states that paths describe are the least solution; in particular there is one. */
  lemma PathEntriesLeast(cx: Borrows)
    requires LoansGenerated(cx)
    ensures LeastSolution(cx, PathEntries(cx))
  {
    var entries := PathEntries(cx);
    forall b: nat, c: nat | b < |cx.body.blocks| && c in BlockSuccessors(cx.body, b)
      ensures FlowsAlong(cx, entries, b, c)
    {
      var p, q := Location(b, LastIndex(cx.body, b)), Location(c, 0);
      forall i | i in AfterPoint(cx, entries, p)
        ensures i in entries[c]
      {
        PrimaryMember(cx, InScopeAt(cx, entries, p), p, i);
        if i in InScopeAt(cx, entries, p) {
          PathEntriesWithin(cx, i, b, p.index);
        }
        CarryOn(cx, i, p, q);
      }
    }
    forall other, b, i | IsSolution(cx, other) && 0 <= b < |entries| && i in entries[b]
      ensures i in other[b]
    {
      var path :| Carries(cx, i, path) && path[|path| - 1] == Location(b, 0);
      CarriedIsThere(cx, other, i, path);
    }
  }

  /** In the least solution, a loan is in scope at `p` if and only if a path carries it there and it does not go
      out of scope at `p` itself. */
  lemma InScopeByPath(cx: Borrows, entries: Entries, i: BorrowIndex, p: Location)
    requires LoansGenerated(cx) && LeastSolution(cx, entries)
    requires IsPoint(cx.body, p)
    ensures i in InScopeAt(cx, entries, p) <==>
              i < |cx.borrowSet.loans| && CarriedTo(cx, i, p) && i !in KillsAt(cx.outOfScope, p)
  {
    PathEntriesLeast(cx);
    assert entries == PathEntries(cx) by {
      forall b | 0 <= b < |entries|
        ensures entries[b] == PathEntries(cx)[b]
      {
        assert entries[b] <= PathEntries(cx)[b] <= entries[b];
      }
    }
    if i in InScopeAt(cx, entries, p) {
      PathEntriesWithin(cx, i, p.block, p.index);
    }
    if CarriedTo(cx, i, p) {
      var path :| Carries(cx, i, path) && path[|path| - 1] == p;
      CarriedIsThere(cx, entries, i, path);
    }
  }

  // ---------------------------------------------------------------- paths within the region

  /** A path from the issue point of a loan to `p` on which the region of the loan holds at every later point
      and no point before `p` overwrites what is borrowed. */
  ghost predicate InScopePath(cx: Borrows, regions: RegionValues, i: BorrowIndex, path: seq<Location>, p: Location) {
    && i < |cx.borrowSet.loans|
    && IsPathFromTo(cx.body, path, cx.borrowSet.loans[i].reserveLocation, p) && |path| >= 2
    && (forall k :: 1 <= k < |path| ==> RegionContains(regions, cx.borrowSet.loans[i].region, path[k]))
    && (forall k :: 0 <= k < |path| - 1 ==> !PlaceKills(cx, path[k], i))
  }

  ghost predicate InScopeOnSomePath(cx: Borrows, regions: RegionValues, i: BorrowIndex, p: Location) {
    exists path :: InScopePath(cx, regions, i, path, p)
  }

  ghost predicate RegionsHoldAtIssue(cx: Borrows, regions: RegionValues) {
    forall i :: 0 <= i < |cx.borrowSet.loans| ==>
      RegionContains(regions, cx.borrowSet.loans[i].region, cx.borrowSet.loans[i].reserveLocation)
  }

  /** The kill map is the one computed for these regions. */
  ghost predicate KillsOf(cx: Borrows, regions: RegionValues) {
    KillMapOf(cx.body, LoanInsides(regions, cx.borrowSet.loans), cx.borrowSet.loans, cx.outOfScope,
              |cx.borrowSet.loans|)
  }

  lemma OutOfScopeExactly(cx: Borrows, regions: RegionValues, i: BorrowIndex, p: Location)
    requires KillsOf(cx, regions) && i < |cx.borrowSet.loans|
    ensures i in KillsAt(cx.outOfScope, p) <==>
              KillPoint(cx.body, Inside(regions, cx.borrowSet.loans[i].region), cx.borrowSet.loans[i].reserveLocation,
                        p)
  {
    KilledThere(cx.body, LoanInsides(regions, cx.borrowSet.loans), cx.borrowSet.loans, cx.outOfScope, i, p);
  }

  /** A path that has stayed inside up to a point that is not a kill point is inside there too. */
  lemma StaysInsideNext(cx: Borrows, regions: RegionValues, i: BorrowIndex, path: seq<Location>, k: nat)
    requires KillsOf(cx, regions) && i < |cx.borrowSet.loans|
    requires IsPath(cx.body, path) && path[0] == cx.borrowSet.loans[i].reserveLocation
    requires 0 < k < |path| && i !in KillsAt(cx.outOfScope, path[k])
    requires InsideBeforeEnd(Inside(regions, cx.borrowSet.loans[i].region), path[..k + 1])
    ensures Inside(regions, cx.borrowSet.loans[i].region)(path[k])
  {
    var inside, first := Inside(regions, cx.borrowSet.loans[i].region), cx.borrowSet.loans[i].reserveLocation;
    PathSlice(cx.body, path, 0, k + 1);
    assert IsPathFromTo(cx.body, path[..k + 1], first, path[k]);
    assert Leads(cx.body, inside, first, path[k]);
    OutOfScopeExactly(cx, regions, i, path[k]);
  }

  /** A path that no kill point interrupts stays inside the region. */
  lemma {:induction false} StaysInside(cx: Borrows, regions: RegionValues, i: BorrowIndex, path: seq<Location>, k: nat)
    requires KillsOf(cx, regions) && i < |cx.borrowSet.loans|
    requires RegionContains(regions, cx.borrowSet.loans[i].region, cx.borrowSet.loans[i].reserveLocation)
    requires IsPath(cx.body, path) && path[0] == cx.borrowSet.loans[i].reserveLocation
    requires forall j :: 1 <= j < |path| ==> i !in KillsAt(cx.outOfScope, path[j])
    requires k < |path|
    ensures forall j :: 0 <= j <= k ==> RegionContains(regions, cx.borrowSet.loans[i].region, path[j])
  {
    if k > 0 {
      StaysInside(cx, regions, i, path, k - 1);
      assert InsideBeforeEnd(Inside(regions, cx.borrowSet.loans[i].region), path[..k + 1]);
      StaysInsideNext(cx, regions, i, path, k);
    }
  }

  /** The meaning of the dataflow: in its least solution, loan `i` is in scope at `p` if and only if some path
      from its issue point to `p` stays within its region and overwrites nothing that is borrowed. */
  lemma InScopeExactly(cx: Borrows, regions: RegionValues, entries: Entries, i: BorrowIndex, p: Location)
    requires ValidBorrows(cx) && KillsOf(cx, regions) && RegionsHoldAtIssue(cx, regions)
    requires LeastSolution(cx, entries)
    requires IsPoint(cx.body, p)
    ensures i in InScopeAt(cx, entries, p) <==> InScopeOnSomePath(cx, regions, i, p)
  {
    ValidGenerates(cx);
    InScopeByPath(cx, entries, i, p);
    if i in InScopeAt(cx, entries, p) {
      var path :| Carries(cx, i, path) && path[|path| - 1] == p;
      StaysInside(cx, regions, i, path, |path| - 1);
      assert InScopePath(cx, regions, i, path, p);
    }
    if InScopeOnSomePath(cx, regions, i, p) {
      var path :| InScopePath(cx, regions, i, path, p);
      forall k | 1 <= k < |path|
        ensures i !in KillsAt(cx.outOfScope, path[k])
      {
        OutOfScopeExactly(cx, regions, i, path[k]);
      }
      assert Carries(cx, i, path);
    }
  }
}
