/** The gathering of loans seen as one sequence of events: the tracked borrows that are issued and the mentions of
    locals that the visitor meets. What the events say about a two-phase borrow is what its loan records. */
module VisitEvents {
  import opened Mir
  import opened PlacesConflict
  import opened BorrowSets

  // ---------------------------------------------------------------- what the visitor meets

  /** The body that is visited, and which borrows are tracked. */
  datatype Visit = Visit(tcx: TyCtxt, exit: LocalsStateAtExit, body: Body)

  /** The mentions of locals that the visit meets at a point: those of a borrow that is not tracked are passed over. */
  function CountedUses(v: Visit, p: Location): seq<LocalUse>
    requires IsPoint(v.body, p)
  {
    if IsTerminatorPoint(v.body, p) then TerminatorUses(v.body.blocks[p.block].terminator.kind)
    else
      var kind := v.body.blocks[p.block].statements[p.index].kind;
      if kind.Assign? && kind.rhs.Ref? && IgnoreBorrow(v.tcx, v.exit, kind.rhs.place) then [] else StatementUses(kind)
  }

  /** The loan that the statement at `r` issues, if it is tracked. */
  function IssuedLoan(v: Visit, r: Location): Option<BorrowData> {
    if IssuesLoan(v.tcx, v.exit, v.body, r) then
      var kind := v.body.blocks[r.block].statements[r.index].kind;
      Some(NewLoan(kind.lhs, kind.rhs, r))
    else None
  }

  /** What the visitor meets at each point: the tracked loan issued there, and the mentions of locals. */
  datatype BodyView = BodyView(issue: Location -> Option<BorrowData>, uses: Location -> seq<LocalUse>)

  function BodyViewOf(v: Visit): BodyView {
    BodyView((p: Location) => IssuedLoan(v, p), (p: Location) => if IsPoint(v.body, p) then CountedUses(v, p) else [])
  }

  /** The points of block `b` from index `k` on. */
  function BlockPoints(body: Body, b: BasicBlock, k: nat): (points: seq<Location>)
    requires b < |body.blocks| && k <= |body.blocks[b].statements|
    ensures |points| == |body.blocks[b].statements| + 1 - k
    ensures forall j :: 0 <= j < |points| ==> points[j] == Location(b, k + j)
  {
    seq(|body.blocks[b].statements| + 1 - k, j requires 0 <= j => Location(b, k + j))
  }

  /** The points of the blocks, in the order of the visit. */
  function VisitOrder(body: Body, blocks: seq<BasicBlock>): seq<Location>
    requires BlocksInRange(body, blocks)
  {
    if blocks == [] then [] else BlockPoints(body, blocks[0], 0) + VisitOrder(body, blocks[1..])
  }

  // ---------------------------------------------------------------- the visit as a sequence of events

  datatype Event = Issue(data: BorrowData) | Mention(use: LocalUse, point: Location)

  function Step(g: GatherState, e: Event): Gathered {
    match e
    case Issue(data) => InsertLoan(g, data)
    case Mention(u, p) => VisitLocal(g, u, p)
  }

  function Run(g: GatherState, events: seq<Event>): Gathered
    decreases |events|
  {
    if events == [] then Running(g)
    else match Step(g, events[0])
      case Stopped(bug) => Stopped(bug)
      case Running(h) => Run(h, events[1..])
  }

  function Then(r: Gathered, events: seq<Event>): Gathered {
    match r
    case Stopped(bug) => Stopped(bug)
    case Running(h) => Run(h, events)
  }

  lemma {:induction false} RunConcat(g: GatherState, a: seq<Event>, b: seq<Event>)
    ensures Run(g, a + b) == Then(Run(g, a), b)
    decreases |a|
  {
    if a == [] {
      assert a + b == b;
    } else {
      assert (a + b)[1..] == a[1..] + b;
      match Step(g, a[0])
      case Stopped(_) =>
      case Running(h) => RunConcat(h, a[1..], b);
    }
  }

  lemma RunOne(g: GatherState, e: Event)
    ensures Run(g, [e]) == Step(g, e)
  {
    assert [e][1..] == [];
  }

  function MentionsOf(uses: seq<LocalUse>, p: Location): (events: seq<Event>)
    ensures |events| == |uses|
    ensures forall j :: 0 <= j < |uses| ==> events[j] == Mention(uses[j], p)
  {
    seq(|uses|, j requires 0 <= j < |uses| => Mention(uses[j], p))
  }

  lemma {:induction false} RunMentions(g: GatherState, uses: seq<LocalUse>, p: Location)
    ensures Run(g, MentionsOf(uses, p)) == VisitUses(g, uses, p)
    decreases |uses|
  {
    if uses != [] {
      assert MentionsOf(uses, p)[1..] == MentionsOf(uses[1..], p);
      match VisitLocal(g, uses[0], p)
      case Stopped(_) =>
      case Running(h) => RunMentions(h, uses[1..], p);
    }
  }

  /** A tracked borrow is issued before the mentions of its own statement are met. */
  function EventsAt(w: BodyView, p: Location): seq<Event> {
    IssueAt(w, p) + MentionsOf(w.uses(p), p)
  }

  function IssueAt(w: BodyView, p: Location): seq<Event> {
    match w.issue(p)
    case Some(data) => [Issue(data)]
    case None => []
  }

  function EventsFrom(w: BodyView): Location -> seq<Event> {
    (p: Location) => EventsAt(w, p)
  }

  /** `at` gives the events of each point. */
  ghost predicate Matching(w: BodyView, at: Location -> seq<Event>) {
    forall p {:trigger MatchingAt(w, at, p)} :: MatchingAt(w, at, p)
  }

  ghost predicate MatchingAt(w: BodyView, at: Location -> seq<Event>, p: Location) {
    at(p) == EventsAt(w, p)
  }

  /** The events at the points, in order. */
  function Flatten(at: Location -> seq<Event>, points: seq<Location>): seq<Event> {
    if points == [] then [] else Flatten(at, points[..|points| - 1]) + at(points[|points| - 1])
  }

  lemma FlattenSnoc(at: Location -> seq<Event>, points: seq<Location>, p: Location)
    ensures Flatten(at, points + [p]) == Flatten(at, points) + at(p)
  {
    assert (points + [p])[..|points|] == points;
  }

  lemma {:induction false} FlattenConcat(at: Location -> seq<Event>, a: seq<Location>, b: seq<Location>)
    ensures Flatten(at, a + b) == Flatten(at, a) + Flatten(at, b)
    decreases |b|
  {
    if b == [] {
      assert a + b == a;
    } else {
      var front, p := b[..|b| - 1], b[|b| - 1];
      FlattenConcat(at, a, front);
      assert b == front + [p] && a + b == (a + front) + [p];
      FlattenSnoc(at, front, p);
      FlattenSnoc(at, a + front, p);
    }
  }

  lemma StatementIsRun(v: Visit, g: GatherState, p: Location)
    requires IsPoint(v.body, p) && !IsTerminatorPoint(v.body, p)
    ensures VisitStatement(v.tcx, v.exit, g, v.body.blocks[p.block].statements[p.index].kind, p) ==
              Run(g, EventsAt(BodyViewOf(v), p))
  {
    var uses, issue := CountedUses(v, p), IssueAt(BodyViewOf(v), p);
    assert BodyViewOf(v).uses(p) == uses && BodyViewOf(v).issue(p) == IssuedLoan(v, p);
    RunConcat(g, issue, MentionsOf(uses, p));
    if IssuesLoan(v.tcx, v.exit, v.body, p) {
      assert issue[1..] == [];
      match InsertLoan(g, issue[0].data)
      case Stopped(_) =>
      case Running(h) => RunMentions(h, uses, p);
    } else {
      RunMentions(g, uses, p);
    }
  }

  lemma TerminatorIsRun(v: Visit, g: GatherState, p: Location)
    requires IsPoint(v.body, p) && IsTerminatorPoint(v.body, p)
    ensures VisitUses(g, TerminatorUses(v.body.blocks[p.block].terminator.kind), p) ==
              Run(g, EventsAt(BodyViewOf(v), p))
  {
    var uses := CountedUses(v, p);
    assert BodyViewOf(v).uses(p) == uses && BodyViewOf(v).issue(p) == None;
    RunMentions(g, uses, p);
    assert EventsAt(BodyViewOf(v), p) == MentionsOf(uses, p);
  }

  lemma BlockEvents(at: Location -> seq<Event>, body: Body, b: BasicBlock, k: nat)
    requires b < |body.blocks| && k <= |body.blocks[b].statements|
    ensures var events := Flatten(at, BlockPoints(body, b, k));
            if k == |body.blocks[b].statements| then events == at(Location(b, k))
            else events == at(Location(b, k)) + Flatten(at, BlockPoints(body, b, k + 1))
  {
    var p := Location(b, k);
    FlattenSnoc(at, [], p);
    assert [] + [p] == [p];
    if k < |body.blocks[b].statements| {
      assert BlockPoints(body, b, k) == [p] + BlockPoints(body, b, k + 1);
      FlattenConcat(at, [p], BlockPoints(body, b, k + 1));
    } else {
      assert BlockPoints(body, b, k) == [p];
    }
  }

  lemma BlockStepIsRun(v: Visit, g: GatherState, b: BasicBlock, k: nat, r: Gathered, first: seq<Event>,
                       rest: seq<Event>)
    requires b < |v.body.blocks| && k < |v.body.blocks[b].statements|
    requires r == VisitStatement(v.tcx, v.exit, g, v.body.blocks[b].statements[k].kind, Location(b, k)) == Run(g, first)
    requires r.Running? ==> VisitBlock(v.tcx, v.exit, r.state, v.body, b, k + 1) == Run(r.state, rest)
    ensures VisitBlock(v.tcx, v.exit, g, v.body, b, k) == Run(g, first + rest)
  {
    RunConcat(g, first, rest);
  }

  ghost predicate BlockRuns(v: Visit, b: BasicBlock, k: nat, events: seq<Event>)
    requires b < |v.body.blocks| && k <= |v.body.blocks[b].statements|
  {
    forall g :: VisitBlock(v.tcx, v.exit, g, v.body, b, k) == Run(g, events)
  }

  lemma BlockEndRuns(v: Visit, at: Location -> seq<Event>, b: BasicBlock)
    requires Matching(BodyViewOf(v), at) && b < |v.body.blocks|
    ensures BlockRuns(v, b, |v.body.blocks[b].statements|, at(Location(b, |v.body.blocks[b].statements|)))
  {
    assert MatchingAt(BodyViewOf(v), at, Location(b, |v.body.blocks[b].statements|));
    forall g {
      TerminatorIsRun(v, g, Location(b, |v.body.blocks[b].statements|));
    }
  }

  lemma BlockStepRuns(v: Visit, at: Location -> seq<Event>, b: BasicBlock, k: nat, rest: seq<Event>)
    requires Matching(BodyViewOf(v), at) && b < |v.body.blocks| && k < |v.body.blocks[b].statements|
    requires BlockRuns(v, b, k + 1, rest)
    ensures BlockRuns(v, b, k, at(Location(b, k)) + rest)
  {
    assert MatchingAt(BodyViewOf(v), at, Location(b, k));
    forall g
      ensures VisitBlock(v.tcx, v.exit, g, v.body, b, k) == Run(g, at(Location(b, k)) + rest)
    {
      StatementIsRun(v, g, Location(b, k));
      BlockStepIsRun(v, g, b, k, Run(g, at(Location(b, k))), at(Location(b, k)), rest);
    }
  }

  lemma {:induction false} BlockRunsFrom(v: Visit, at: Location -> seq<Event>, b: BasicBlock, k: nat)
    requires Matching(BodyViewOf(v), at) && b < |v.body.blocks| && k <= |v.body.blocks[b].statements|
    ensures BlockRuns(v, b, k, Flatten(at, BlockPoints(v.body, b, k)))
    decreases |v.body.blocks[b].statements| - k
  {
    BlockEvents(at, v.body, b, k);
    if k == |v.body.blocks[b].statements| {
      BlockEndRuns(v, at, b);
    } else {
      BlockRunsFrom(v, at, b, k + 1);
      BlockStepRuns(v, at, b, k, Flatten(at, BlockPoints(v.body, b, k + 1)));
    }
  }

  lemma BlockIsRun(v: Visit, at: Location -> seq<Event>, b: BasicBlock)
    requires Matching(BodyViewOf(v), at) && b < |v.body.blocks|
    ensures BlockRuns(v, b, 0, Flatten(at, BlockPoints(v.body, b, 0)))
  {
    BlockRunsFrom(v, at, b, 0);
  }

  lemma {:induction false} BlocksAreRun(v: Visit, at: Location -> seq<Event>, g: GatherState, blocks: seq<BasicBlock>)
    requires Matching(BodyViewOf(v), at) && BlocksInRange(v.body, blocks)
    ensures VisitBlocks(v.tcx, v.exit, g, v.body, blocks) == Run(g, Flatten(at, VisitOrder(v.body, blocks)))
    decreases |blocks|
  {
    if blocks != [] {
      var first, rest := BlockPoints(v.body, blocks[0], 0), VisitOrder(v.body, blocks[1..]);
      FlattenConcat(at, first, rest);
      RunConcat(g, Flatten(at, first), Flatten(at, rest));
      BlockIsRun(v, at, blocks[0]);
      match VisitBlock(v.tcx, v.exit, g, v.body, blocks[0], 0)
      case Stopped(_) =>
      case Running(h) => BlocksAreRun(v, at, h, blocks[1..]);
    }
  }

  // ---------------------------------------------------------------- what a sequence of events leads to

  ghost predicate TwoPhaseIssue(events: seq<Event>, k: nat) {
    k < |events| && events[k].Issue? && AllowTwoPhaseBorrow(events[k].data.kind)
  }

  /** The mention at `m` uses the temporary of the borrow issued at `k`. */
  ghost predicate CountedAt(events: seq<Event>, k: nat, m: nat) {
    && k < m < |events| && events[k].Issue? && events[m].Mention?
    && CountsFor(events[k].data, events[m].use, events[m].point)
  }

  ghost predicate TwoCounted(events: seq<Event>, k: nat, m: nat, n: nat) {
    m < n && CountedAt(events, k, m) && CountedAt(events, k, n)
  }

  ghost predicate SameTarget(events: seq<Event>, k: nat, m: nat) {
    && k < m && TwoPhaseIssue(events, k) && TwoPhaseIssue(events, m)
    && events[k].data.assignedPlace.local == events[m].data.assignedPlace.local
  }

  ghost predicate Projected(events: seq<Event>, k: nat) {
    TwoPhaseIssue(events, k) && events[k].data.assignedPlace.projection != []
  }

  ghost predicate MisusedIn(events: seq<Event>) {
    || (exists k :: Projected(events, k))
    || (exists k, m :: SameTarget(events, k, m))
    || (exists k, m, n :: TwoCounted(events, k, m, n))
  }

  ghost predicate OnlyUse(events: seq<Event>, k: nat, m: nat, p: Location) {
    CountedAt(events, k, m) && events[m].point == p && forall n :: CountedAt(events, k, n) ==> n == m
  }

  /** The activation of the loan issued at `k` is what the later events say. */
  ghost predicate ActivationTold(events: seq<Event>, k: nat, activation: TwoPhaseActivation) {
    match activation
    case NotTwoPhase => true
    case NotActivated => forall m :: !CountedAt(events, k, m)
    case ActivatedAt(p) => exists m :: OnlyUse(events, k, m, p)
  }

  ghost predicate LoanTold(events: seq<Event>, loan: BorrowData, k: nat) {
    && k < |events| && events[k].Issue?
    && loan == events[k].data.(activation := loan.activation)
    && ActivationTold(events, k, loan.activation)
  }

  /** The loans are those issued, the one with index `i` at `at[i]`, and their activations are told by the events. */
  ghost predicate Told(events: seq<Event>, g: GatherState, at: seq<nat>) {
    && GoodState(g) && |at| == |g.loans|
    && (forall i :: 0 <= i < |at| ==> LoanTold(events, g.loans[i], at[i]))
    && (forall k :: 0 <= k < |events| && events[k].Issue? ==> k in at)
  }

  ghost predicate NewIssues(events: seq<Event>) {
    && (forall k :: 0 <= k < |events| && events[k].Issue? ==> events[k].data.activation == NotTwoPhase)
    && (forall k, m :: 0 <= k < m < |events| && events[k].Issue? && events[m].Issue? ==>
          events[k].data.reserveLocation != events[m].data.reserveLocation)
  }

  lemma CountedStays(events: seq<Event>, e: Event, k: nat, m: nat)
    ensures CountedAt(events, k, m) ==> CountedAt(events + [e], k, m)
    ensures CountedAt(events + [e], k, m) ==>
              CountedAt(events, k, m)
              || (m == |events| && k < m && events[k].Issue? && e.Mention? && CountsFor(events[k].data, e.use, e.point))
  {
  }

  lemma MisusedStays(events: seq<Event>, e: Event)
    requires MisusedIn(events)
    ensures MisusedIn(events + [e])
  {
    if k :| Projected(events, k) {
      assert Projected(events + [e], k);
    } else if k, m :| SameTarget(events, k, m) {
      assert SameTarget(events + [e], k, m);
    } else {
      var k, m, n :| TwoCounted(events, k, m, n);
      assert TwoCounted(events + [e], k, m, n);
    }
  }

  /** One more mention: what it does to the activation of one loan. */
  lemma MentionTold(events: seq<Event>, g: GatherState, h: GatherState, u: LocalUse, p: Location, i: nat, k: nat)
    requires i < |g.loans| == |h.loans| && LoanTold(events, g.loans[i], k)
    requires g.loans[i].activation == NotTwoPhase ==> !AllowTwoPhaseBorrow(g.loans[i].kind)
    requires ActivatesFor(g, h, u, p, i)
    ensures LoanTold(events + [Mention(u, p)], h.loans[i], k)
  {
    var e := Mention(u, p);
    var events' := events + [e];
    forall m
      ensures CountedAt(events', k, m) <==> CountedAt(events, k, m) || (m == |events| && CountsFor(g.loans[i], u, p))
    {
      CountedStays(events, e, k, m);
    }
    if CountsFor(g.loans[i], u, p) {
      assert OnlyUse(events', k, |events|, p);
    } else if g.loans[i].activation.ActivatedAt? {
      var m :| OnlyUse(events, k, m, g.loans[i].activation.location);
      assert OnlyUse(events', k, m, g.loans[i].activation.location);
    }
  }

  lemma MentionStep(events: seq<Event>, g: GatherState, at: seq<nat>, u: LocalUse, p: Location)
    requires Told(events, g, at)
    ensures match Step(g, Mention(u, p))
            case Running(h) => Told(events + [Mention(u, p)], h, at)
            case Stopped(_) => MisusedIn(events + [Mention(u, p)])
  {
    VisitLocalExactly(g, u, p);
    VisitLocalKeeps(g, u, p);
    match VisitLocal(g, u, p)
    case Running(h) =>
      forall i | 0 <= i < |at|
        ensures LoanTold(events + [Mention(u, p)], h.loans[i], at[i])
      {
        assert LoanTold(events, g.loans[i], at[i]);
        assert ActivatesFor(g, h, u, p, i);
        MentionTold(events, g, h, u, p, i, at[i]);
      }
    case Stopped(_) =>
      var i: nat :| UsedAlready(g, u, p, i);
      UsedAgain(events, g.loans[i], at[i], u, p);
  }

  lemma UsedAgain(events: seq<Event>, loan: BorrowData, k: nat, u: LocalUse, p: Location)
    requires LoanTold(events, loan, k) && CountsFor(loan, u, p) && loan.activation.ActivatedAt?
    ensures MisusedIn(events + [Mention(u, p)])
  {
    var m :| OnlyUse(events, k, m, loan.activation.location);
    CountedStays(events, Mention(u, p), k, m);
    assert TwoCounted(events + [Mention(u, p)], k, m, |events|);
  }

  lemma IssueStep(events: seq<Event>, g: GatherState, at: seq<nat>, data: BorrowData)
    requires Told(events, g, at)
    requires NewIssues(events + [Issue(data)])
    ensures match Step(g, Issue(data))
            case Running(h) => Told(events + [Issue(data)], h, at + [|events|])
            case Stopped(_) => MisusedIn(events + [Issue(data)])
  {
    assert (events + [Issue(data)])[|events|] == Issue(data);
    NotReservedBefore(events, g, at, data);
    InsertLoanAppends(g, data);
    match InsertLoan(g, data)
    case Running(h) =>
      AppendedKeeps(g, h, data);
      IssuesTold(events, g, h, at, data);
    case Stopped(_) =>
      IssueStops(events, g, at, data);
  }

  lemma IssuesTold(events: seq<Event>, g: GatherState, h: GatherState, at: seq<nat>, data: BorrowData)
    requires Told(events, g, at) && Appended(g, h, data) && data.activation == NotTwoPhase && GoodState(h)
    ensures Told(events + [Issue(data)], h, at + [|events|])
  {
    forall i | 0 <= i < |h.loans|
      ensures LoanTold(events + [Issue(data)], h.loans[i], (at + [|events|])[i])
    {
      IssueTold(events, g, h, at, data, i);
    }
    forall k | 0 <= k < |events| + 1 && (events + [Issue(data)])[k].Issue?
      ensures k in at + [|events|]
    {
      assert k < |events| ==> events[k].Issue?;
    }
  }

  lemma IssueStops(events: seq<Event>, g: GatherState, at: seq<nat>, data: BorrowData)
    requires Told(events, g, at) && AllowTwoPhaseBorrow(data.kind)
    requires data.assignedPlace.projection != [] || data.assignedPlace.local in g.pending
    ensures MisusedIn(events + [Issue(data)])
  {
    var events' := events + [Issue(data)];
    if data.assignedPlace.projection != [] {
      assert Projected(events', |events|);
    } else {
      var i := g.pending[data.assignedPlace.local];
      assert PendingFor(g.loans, data.assignedPlace.local, i);
      assert LoanTold(events, g.loans[i], at[i]);
      assert SameTarget(events', at[i], |events|);
    }
  }

  lemma IssueTold(events: seq<Event>, g: GatherState, h: GatherState, at: seq<nat>, data: BorrowData, i: nat)
    requires Told(events, g, at) && Appended(g, h, data) && data.activation == NotTwoPhase
    requires i < |h.loans|
    ensures LoanTold(events + [Issue(data)], h.loans[i], (at + [|events|])[i])
  {
    var e := Issue(data);
    if i < |g.loans| {
      var k := at[i];
      assert LoanTold(events, g.loans[i], k);
      forall m
        ensures CountedAt(events + [e], k, m) <==> CountedAt(events, k, m)
      {
        CountedStays(events, e, k, m);
      }
      if h.loans[i].activation.ActivatedAt? {
        var m :| OnlyUse(events, k, m, h.loans[i].activation.location);
        assert OnlyUse(events + [e], k, m, h.loans[i].activation.location);
      }
    }
  }

  lemma NotReservedBefore(events: seq<Event>, g: GatherState, at: seq<nat>, data: BorrowData)
    requires Told(events, g, at) && NewIssues(events + [Issue(data)])
    ensures IndexOf(g.loans, data.reserveLocation).None?
  {
    var events' := events + [Issue(data)];
    forall i | 0 <= i < |g.loans|
      ensures g.loans[i].reserveLocation != data.reserveLocation
    {
      assert LoanTold(events, g.loans[i], at[i]);
      assert events'[at[i]] == events[at[i]] && events'[|events|] == Issue(data);
    }
  }

  /** As long as the visit runs, no temporary has been misused. */
  lemma ToldIsProper(events: seq<Event>, g: GatherState, at: seq<nat>)
    requires Told(events, g, at)
    ensures !MisusedIn(events)
  {
    forall k
      ensures !Projected(events, k)
    {
      if TwoPhaseIssue(events, k) {
        var i := PendingIndex(events, g, at, k);
      }
    }
    forall k, m
      ensures !SameTarget(events, k, m)
    {
      if TwoPhaseIssue(events, k) && TwoPhaseIssue(events, m) {
        var i := PendingIndex(events, g, at, k);
        var j := PendingIndex(events, g, at, m);
      }
    }
    forall k, m, n
      ensures !TwoCounted(events, k, m, n)
    {
      if CountedAt(events, k, m) && CountedAt(events, k, n) {
        var i := PendingIndex(events, g, at, k);
        assert LoanTold(events, g.loans[i], k);
      }
    }
  }

  lemma PendingIndex(events: seq<Event>, g: GatherState, at: seq<nat>, k: nat) returns (i: nat)
    requires Told(events, g, at) && TwoPhaseIssue(events, k)
    ensures i < |at| && at[i] == k && LoanTold(events, g.loans[i], k) && g.loans[i].activation != NotTwoPhase
    ensures events[k].data.assignedPlace.projection == []
    ensures events[k].data.assignedPlace.local in g.pending && g.pending[events[k].data.assignedPlace.local] == i
  {
    i :| 0 <= i < |at| && at[i] == k;
    assert LoanTold(events, g.loans[i], at[i]);
    assert PendingFor(g.loans, g.loans[i].assignedPlace.local, i);
  }

  lemma {:induction false} RunTold(events: seq<Event>) returns (at: seq<nat>)
    requires NewIssues(events)
    ensures match Run(EmptyState, events)
            case Running(g) => Told(events, g, at)
            case Stopped(_) => MisusedIn(events)
    decreases |events|
  {
    at := [];
    if events != [] {
      var n := |events| - 1;
      var before, e := events[..n], events[n];
      assert events == before + [e];
      at := RunTold(before);
      RunConcat(EmptyState, before, [e]);
      match Run(EmptyState, before)
      case Stopped(_) => MisusedStays(before, e);
      case Running(g) =>
        RunOne(g, e);
        match e
        case Mention(u, p) => MentionStep(before, g, at, u, p);
        case Issue(data) =>
          IssueStep(before, g, at, data);
          at := at + [n];
    }
  }

  // ---------------------------------------------------------------- which event is at which point

  ghost predicate DistinctPoints(points: seq<Location>) {
    forall a, b :: 0 <= a < b < |points| ==> points[a] != points[b]
  }

  /** The number of events before the point `points[k]`. */
  function StartOf(at: Location -> seq<Event>, points: seq<Location>, k: nat): nat
    requires k <= |points|
  {
    |Flatten(at, points[..k])|
  }

  /** Event `m` is the one with index `j` at the point `points[k]`. */
  ghost predicate IsAt(at: Location -> seq<Event>, points: seq<Location>, m: nat, k: nat, j: nat) {
    && k < |points| && j < |at(points[k])|
    && m == StartOf(at, points, k) + j
    && m < |Flatten(at, points)| && Flatten(at, points)[m] == at(points[k])[j]
  }

  lemma EventAt(at: Location -> seq<Event>, points: seq<Location>, k: nat, j: nat)
    requires k < |points| && j < |at(points[k])|
    ensures IsAt(at, points, StartOf(at, points, k) + j, k, j)
  {
    assert points == points[..k + 1] + points[k + 1..] && points[..k + 1] == points[..k] + [points[k]];
    FlattenConcat(at, points[..k + 1], points[k + 1..]);
    FlattenSnoc(at, points[..k], points[k]);
  }

  lemma {:induction false} PointOf(at: Location -> seq<Event>, points: seq<Location>, m: nat) returns (k: nat, j: nat)
    requires m < |Flatten(at, points)|
    ensures IsAt(at, points, m, k, j)
    decreases |points|
  {
    var n := |points| - 1;
    var front := points[..n];
    if m < |Flatten(at, front)| {
      k, j := PointOf(at, front, m);
      assert front[..k] == points[..k];
    } else {
      k, j := n, m - |Flatten(at, front)|;
    }
  }

  lemma StartGrows(at: Location -> seq<Event>, points: seq<Location>, k: nat, l: nat)
    requires k < l <= |points|
    ensures StartOf(at, points, k) + |at(points[k])| <= StartOf(at, points, l)
  {
    assert points[..l] == points[..k + 1] + points[k + 1..l] && points[..k + 1] == points[..k] + [points[k]];
    FlattenConcat(at, points[..k + 1], points[k + 1..l]);
    FlattenSnoc(at, points[..k], points[k]);
  }

  /** Events come in the order of their points, and at one point in the order of their indices. */
  lemma InOrder(at: Location -> seq<Event>, points: seq<Location>, m: nat, k: nat, j: nat, m': nat, k': nat, j': nat)
    requires IsAt(at, points, m, k, j) && IsAt(at, points, m', k', j')
    ensures m < m' <==> k < k' || (k == k' && j < j')
  {
    if k < k' {
      StartGrows(at, points, k, k');
    } else if k' < k {
      StartGrows(at, points, k', k);
    }
  }
}
