/** What the recorded activations of two-phase borrows mean: each is the one use of the temporary that the visit meets
    after the reservation. A temporary that is not used that way is what stops the visit. */
module Activations {
  import opened Mir
  import opened PlacesConflict
  import opened BorrowSets
  import opened VisitEvents

  // ---------------------------------------------------------------- uses of the temporary, on the body

  /** The point uses the temporary that `loan` was stored to. */
  ghost predicate UsesTemporary(w: BodyView, loan: BorrowData, p: Location) {
    exists j :: 0 <= j < |w.uses(p)| && CountsFor(loan, w.uses(p)[j], p)
  }

  ghost predicate UsesTwice(w: BodyView, loan: BorrowData, p: Location) {
    && exists i, j :: 0 <= i < j < |w.uses(p)|
                      && CountsFor(loan, w.uses(p)[i], p) && CountsFor(loan, w.uses(p)[j], p)
  }

  /** The visit comes to `p` when it has come to `r`. */
  ghost predicate NotBefore(order: seq<Location>, r: Location, p: Location) {
    exists a, b :: 0 <= a <= b < |order| && order[a] == r && order[b] == p
  }

  /** The visit meets a use of the temporary at `p` after the reservation. */
  ghost predicate UsesAfter(w: BodyView, order: seq<Location>, loan: BorrowData, p: Location) {
    NotBefore(order, loan.reserveLocation, p) && UsesTemporary(w, loan, p)
  }

  /** A two-phase loan is activated at `p` exactly if `p` uses its temporary after the reservation; so there is at most
      one such point, and if there is none the loan is not activated. */
  ghost predicate ActivationIsUse(w: BodyView, order: seq<Location>, loan: BorrowData) {
    && (forall p :: loan.activation == ActivatedAt(p) <==> UsesAfter(w, order, loan, p))
    && (loan.activation == NotActivated <==> forall p :: !UsesAfter(w, order, loan, p))
    && loan.assignedPlace.projection == []
  }

  ghost predicate ActivationsAreUses(w: BodyView, order: seq<Location>, loans: seq<BorrowData>) {
    forall i :: 0 <= i < |loans| && AllowTwoPhaseBorrow(loans[i].kind) ==> ActivationIsUse(w, order, loans[i])
  }

  // ---------------------------------------------------------------- misuse of a temporary, on the body

  predicate IssuesTwoPhase(w: BodyView, r: Location) {
    w.issue(r).Some? && AllowTwoPhaseBorrow(w.issue(r).value.kind)
  }

  ghost predicate StoredElsewhere(w: BodyView, r: Location) {
    IssuesTwoPhase(w, r) && w.issue(r).value.assignedPlace.projection != []
  }

  ghost predicate SameTemporary(w: BodyView, r: Location, s: Location) {
    && r != s && IssuesTwoPhase(w, r) && IssuesTwoPhase(w, s)
    && w.issue(r).value.assignedPlace.local == w.issue(s).value.assignedPlace.local
  }

  /** Two uses of the temporary come after the reservation, at two points or at one. */
  ghost predicate TwoUsesAfter(w: BodyView, order: seq<Location>, r: Location, p: Location, q: Location) {
    && IssuesTwoPhase(w, r)
    && UsesAfter(w, order, w.issue(r).value, p) && UsesAfter(w, order, w.issue(r).value, q)
    && (p == q ==> UsesTwice(w, w.issue(r).value, p))
  }

  /** A tracked two-phase borrow is stored to something that is not a local, or two are stored to one local, or the
      local of one is used twice after the reservation. */
  ghost predicate Misused(w: BodyView, order: seq<Location>) {
    || (exists r :: r in order && StoredElsewhere(w, r))
    || (exists r, s :: r in order && s in order && SameTemporary(w, r, s))
    || (exists r, p, q :: TwoUsesAfter(w, order, r, p, q))
  }

  // ---------------------------------------------------------------- which event is at which point

  /** What the event with index `j` at a point is. */
  lemma EventIs(w: BodyView, p: Location, j: nat)
    requires j < |EventsAt(w, p)|
    ensures if w.issue(p).Some? && j == 0 then EventsAt(w, p)[j] == Issue(w.issue(p).value)
            else j >= |IssueAt(w, p)| && j - |IssueAt(w, p)| < |w.uses(p)|
                 && EventsAt(w, p)[j] == Mention(w.uses(p)[j - |IssueAt(w, p)|], p)
  {
  }

  lemma MentionEvent(w: BodyView, p: Location, i: nat)
    requires i < |w.uses(p)|
    ensures |IssueAt(w, p)| + i < |EventsAt(w, p)| && EventsAt(w, p)[|IssueAt(w, p)| + i] == Mention(w.uses(p)[i], p)
  {
  }

  /** An issue in the visit is that of the tracked borrow at a visited point. */
  lemma IssueIsAt(w: BodyView, at: Location -> seq<Event>, order: seq<Location>, k: nat) returns (a: nat)
    requires Matching(w, at)
    requires k < |Flatten(at, order)| && Flatten(at, order)[k].Issue?
    ensures a < |order| && IsAt(at, order, k, a, 0)
    ensures w.issue(order[a]).Some? && Flatten(at, order)[k].data == w.issue(order[a]).value
  {
    var j: nat;
    a, j := PointOf(at, order, k);
    assert MatchingAt(w, at, order[a]);
    EventIs(w, order[a], j);
  }

  lemma MentionIsAt(w: BodyView, at: Location -> seq<Event>, order: seq<Location>, m: nat) returns (b: nat, i: nat)
    requires Matching(w, at)
    requires m < |Flatten(at, order)| && Flatten(at, order)[m].Mention?
    ensures b < |order| && IsAt(at, order, m, b, |IssueAt(w, order[b])| + i)
    ensures i < |w.uses(order[b])| && Flatten(at, order)[m] == Mention(w.uses(order[b])[i], order[b])
  {
    var j: nat;
    b, j := PointOf(at, order, m);
    assert MatchingAt(w, at, order[b]);
    EventIs(w, order[b], j);
    i := j - |IssueAt(w, order[b])|;
  }

  /** The event of a tracked borrow, and that of a mention. */
  lemma EventOfIssue(w: BodyView, at: Location -> seq<Event>, order: seq<Location>, a: nat)
    requires Matching(w, at) && a < |order| && w.issue(order[a]).Some?
    ensures IsAt(at, order, StartOf(at, order, a), a, 0)
    ensures Flatten(at, order)[StartOf(at, order, a)] == Issue(w.issue(order[a]).value)
  {
    assert MatchingAt(w, at, order[a]);
    EventAt(at, order, a, 0);
    EventIs(w, order[a], 0);
  }

  lemma EventOfMention(w: BodyView, at: Location -> seq<Event>, order: seq<Location>, b: nat, i: nat) returns (m: nat)
    requires Matching(w, at) && b < |order| && i < |w.uses(order[b])|
    ensures IsAt(at, order, m, b, |IssueAt(w, order[b])| + i)
    ensures Flatten(at, order)[m] == Mention(w.uses(order[b])[i], order[b])
  {
    var j: nat := |IssueAt(w, order[b])| + i;
    MentionEvent(w, order[b], i);
    assert MatchingAt(w, at, order[b]);
    m := StartOf(at, order, b) + j;
    EventAt(at, order, b, j);
  }

  // ---------------------------------------------------------------- from events to the body

  ghost predicate Setting(w: BodyView, at: Location -> seq<Event>, order: seq<Location>) {
    Matching(w, at) && DistinctPoints(order) && IssuesInPlace(w)
  }

  /** Loans are issued at their reserve locations, and not activated yet. */
  ghost predicate IssuesInPlace(w: BodyView) {
    forall p :: w.issue(p).Some? ==> w.issue(p).value.reserveLocation == p && w.issue(p).value.activation == NotTwoPhase
  }

  lemma UseThere(w: BodyView, order: seq<Location>, loan: BorrowData, a: nat, b: nat, i: nat)
    requires a <= b < |order| && order[a] == loan.reserveLocation
    requires i < |w.uses(order[b])| && CountsFor(loan, w.uses(order[b])[i], order[b])
    ensures UsesAfter(w, order, loan, order[b])
  {
  }

  /** A counted mention is a use of the temporary after the reservation. */
  lemma CountedIsUse(w: BodyView, at: Location -> seq<Event>, order: seq<Location>, k: nat, m: nat)
    requires Setting(w, at, order) && CountedAt(Flatten(at, order), k, m)
    ensures var loan := Flatten(at, order)[k].data;
            && loan.reserveLocation in order && IssuesTwoPhase(w, loan.reserveLocation)
            && loan == w.issue(loan.reserveLocation).value
            && UsesAfter(w, order, loan, Flatten(at, order)[m].point)
  {
    var a := IssueIsAt(w, at, order, k);
    var b, i := MentionIsAt(w, at, order, m);
    InOrder(at, order, k, a, 0, m, b, |IssueAt(w, order[b])| + i);
    UseThere(w, order, w.issue(order[a]).value, a, b, i);
  }

  /** And the other way round. */
  lemma UseIsCounted(w: BodyView, at: Location -> seq<Event>, order: seq<Location>, k: nat, p: Location)
    returns (m: nat)
    requires Setting(w, at, order) && k < |Flatten(at, order)| && Flatten(at, order)[k].Issue?
    requires UsesAfter(w, order, Flatten(at, order)[k].data, p)
    ensures CountedAt(Flatten(at, order), k, m) && Flatten(at, order)[m].point == p
  {
    var loan := Flatten(at, order)[k].data;
    var i: nat :| i < |w.uses(p)| && CountsFor(loan, w.uses(p)[i], p);
    var b: nat;
    m, b := UseAtIsCounted(w, at, order, k, p, i);
  }

  lemma UseAtIsCounted(w: BodyView, at: Location -> seq<Event>, order: seq<Location>, k: nat, p: Location, i: nat)
    returns (m: nat, b: nat)
    requires Setting(w, at, order) && k < |Flatten(at, order)| && Flatten(at, order)[k].Issue?
    requires NotBefore(order, Flatten(at, order)[k].data.reserveLocation, p)
    requires i < |w.uses(p)| && CountsFor(Flatten(at, order)[k].data, w.uses(p)[i], p)
    ensures CountedAt(Flatten(at, order), k, m) && Flatten(at, order)[m].point == p
    ensures b < |order| && order[b] == p && IsAt(at, order, m, b, |IssueAt(w, p)| + i)
  {
    var a := IssueIsAt(w, at, order, k);
    b := PlaceAfter(order, a, p);
    m := EventOfMention(w, at, order, b, i);
    InOrder(at, order, k, a, 0, m, b, |IssueAt(w, p)| + i);
  }

  lemma PlaceAfter(order: seq<Location>, a: nat, p: Location) returns (b: nat)
    requires DistinctPoints(order) && a < |order| && NotBefore(order, order[a], p)
    ensures a <= b < |order| && order[b] == p
  {
    var a': nat;
    a', b :| a' <= b < |order| && order[a'] == order[a] && order[b] == p;
  }

  lemma SameUses(w: BodyView, order: seq<Location>, loan: BorrowData, loan': BorrowData, p: Location)
    requires loan' == loan.(activation := loan'.activation)
    ensures UsesAfter(w, order, loan, p) <==> UsesAfter(w, order, loan', p)
  {
    assert forall u :: CountsFor(loan, u, p) <==> CountsFor(loan', u, p);
  }

  /** What the events tell about a loan is what the body says. */
  lemma ToldIsUse(w: BodyView, at: Location -> seq<Event>, order: seq<Location>, loan: BorrowData, k: nat)
    requires Setting(w, at, order) && LoanTold(Flatten(at, order), loan, k)
    requires loan.activation != NotTwoPhase && loan.assignedPlace.projection == []
    ensures ActivationIsUse(w, order, loan)
  {
    var events := Flatten(at, order);
    forall p
      ensures loan.activation == ActivatedAt(p) <==> UsesAfter(w, order, loan, p)
    {
      SameUses(w, order, events[k].data, loan, p);
      if UsesAfter(w, order, loan, p) {
        var m := UseIsCounted(w, at, order, k, p);
      }
      if loan.activation == ActivatedAt(p) {
        var m :| OnlyUse(events, k, m, p);
        CountedIsUse(w, at, order, k, m);
      }
    }
  }

  lemma MisuseOnBody(w: BodyView, at: Location -> seq<Event>, order: seq<Location>)
    requires Setting(w, at, order) && MisusedIn(Flatten(at, order))
    ensures Misused(w, order)
  {
    var events := Flatten(at, order);
    if k: nat :| Projected(events, k) {
      var a := IssueIsAt(w, at, order, k);
      assert StoredElsewhere(w, order[a]);
    } else if k: nat, m: nat :| SameTarget(events, k, m) {
      var a := IssueIsAt(w, at, order, k);
      var b := IssueIsAt(w, at, order, m);
      assert SameTemporary(w, order[a], order[b]);
    } else {
      var k: nat, m: nat, n: nat :| TwoCounted(events, k, m, n);
      TwoCountedOnBody(w, at, order, k, m, n);
    }
  }

  lemma CountedTwice(w: BodyView, at: Location -> seq<Event>, order: seq<Location>, k: nat, m: nat, n: nat)
    requires Setting(w, at, order) && TwoCounted(Flatten(at, order), k, m, n)
    requires Flatten(at, order)[m].point == Flatten(at, order)[n].point
    ensures UsesTwice(w, Flatten(at, order)[k].data, Flatten(at, order)[m].point)
  {
    var b, i := MentionIsAt(w, at, order, m);
    var c, j := MentionIsAt(w, at, order, n);
    InOrder(at, order, m, b, |IssueAt(w, order[b])| + i, n, c, |IssueAt(w, order[c])| + j);
    assert i < j;
  }

  lemma TwoCountedOnBody(w: BodyView, at: Location -> seq<Event>, order: seq<Location>, k: nat, m: nat, n: nat)
    requires Setting(w, at, order) && TwoCounted(Flatten(at, order), k, m, n)
    ensures var events := Flatten(at, order);
            TwoUsesAfter(w, order, events[k].data.reserveLocation, events[m].point, events[n].point)
  {
    CountedIsUse(w, at, order, k, m);
    CountedIsUse(w, at, order, k, n);
    if Flatten(at, order)[m].point == Flatten(at, order)[n].point {
      CountedTwice(w, at, order, k, m, n);
    }
  }

  lemma MisuseInEvents(w: BodyView, at: Location -> seq<Event>, order: seq<Location>)
    requires Setting(w, at, order) && Misused(w, order)
    ensures MisusedIn(Flatten(at, order))
  {
    var events := Flatten(at, order);
    if r :| r in order && StoredElsewhere(w, r) {
      var a: nat :| a < |order| && order[a] == r;
      EventOfIssue(w, at, order, a);
      assert Projected(events, StartOf(at, order, a));
    } else if r, s :| r in order && s in order && SameTemporary(w, r, s) {
      SameTargetInEvents(w, at, order, r, s);
    } else {
      var r, p, q :| TwoUsesAfter(w, order, r, p, q);
      TwoCountedInEvents(w, at, order, r, p, q);
    }
  }

  lemma SameTargetInEvents(w: BodyView, at: Location -> seq<Event>, order: seq<Location>, r: Location, s: Location)
    requires Setting(w, at, order) && r in order && s in order && SameTemporary(w, r, s)
    ensures MisusedIn(Flatten(at, order))
  {
    var events := Flatten(at, order);
    var a: nat :| a < |order| && order[a] == r;
    var b: nat :| b < |order| && order[b] == s;
    EventOfIssue(w, at, order, a);
    EventOfIssue(w, at, order, b);
    var k, m := StartOf(at, order, a), StartOf(at, order, b);
    InOrder(at, order, k, a, 0, m, b, 0);
    InOrder(at, order, m, b, 0, k, a, 0);
    assert SameTarget(events, k, m) || SameTarget(events, m, k);
  }

  lemma TwiceAtOnePoint(w: BodyView, at: Location -> seq<Event>, order: seq<Location>, k: nat, p: Location, i: nat,
                        j: nat)
    requires Setting(w, at, order) && k < |Flatten(at, order)| && Flatten(at, order)[k].Issue?
    requires NotBefore(order, Flatten(at, order)[k].data.reserveLocation, p)
    requires i < j < |w.uses(p)|
    requires CountsFor(Flatten(at, order)[k].data, w.uses(p)[i], p)
             && CountsFor(Flatten(at, order)[k].data, w.uses(p)[j], p)
    ensures exists m, n :: TwoCounted(Flatten(at, order), k, m, n)
  {
    var m, b := UseAtIsCounted(w, at, order, k, p, i);
    var n, c := UseAtIsCounted(w, at, order, k, p, j);
    InOrder(at, order, m, b, |IssueAt(w, p)| + i, n, c, |IssueAt(w, p)| + j);
    assert TwoCounted(Flatten(at, order), k, m, n);
  }

  lemma TwoCountedInEvents(w: BodyView, at: Location -> seq<Event>, order: seq<Location>, r: Location, p: Location,
                           q: Location)
    requires Setting(w, at, order) && TwoUsesAfter(w, order, r, p, q)
    ensures MisusedIn(Flatten(at, order))
  {
    var events, loan := Flatten(at, order), w.issue(r).value;
    var a: nat :| a < |order| && order[a] == r;
    EventOfIssue(w, at, order, a);
    var k := StartOf(at, order, a);
    if p == q {
      var i: nat, j: nat :| i < j < |w.uses(p)|
                            && CountsFor(loan, w.uses(p)[i], p) && CountsFor(loan, w.uses(p)[j], p);
      TwiceAtOnePoint(w, at, order, k, p, i, j);
    } else {
      var m := UseIsCounted(w, at, order, k, p);
      var n := UseIsCounted(w, at, order, k, q);
      assert TwoCounted(events, k, m, n) || TwoCounted(events, k, n, m);
    }
  }

  // ---------------------------------------------------------------- the visit of a body

  lemma {:induction false} OrderPoints(body: Body, blocks: seq<BasicBlock>)
    requires BlocksInRange(body, blocks)
    ensures forall p :: p in VisitOrder(body, blocks) <==> IsPoint(body, p) && p.block in blocks
    decreases |blocks|
  {
    if blocks != [] {
      OrderPoints(body, blocks[1..]);
      var first, rest := BlockPoints(body, blocks[0], 0), VisitOrder(body, blocks[1..]);
      forall p
        ensures p in first + rest <==> IsPoint(body, p) && p.block in blocks
      {
        if IsPoint(body, p) && p.block == blocks[0] {
          assert first[p.index] == p;
        }
        assert p.block in blocks <==> p.block == blocks[0] || p.block in blocks[1..];
      }
    }
  }

  lemma {:induction false} OrderDistinct(body: Body, blocks: seq<BasicBlock>)
    requires BlocksInRange(body, blocks) && DistinctBlocks(blocks)
    ensures DistinctPoints(VisitOrder(body, blocks))
    decreases |blocks|
  {
    if blocks != [] {
      OrderDistinct(body, blocks[1..]);
      OrderPoints(body, blocks[1..]);
      var first, rest := BlockPoints(body, blocks[0], 0), VisitOrder(body, blocks[1..]);
      forall a, b | 0 <= a < b < |first + rest|
        ensures (first + rest)[a] != (first + rest)[b]
      {
        if a < |first| <= b {
          assert rest[b - |first|] in rest;
        }
      }
    }
  }

  lemma IssuesAreNew(w: BodyView, at: Location -> seq<Event>, order: seq<Location>)
    requires Setting(w, at, order)
    ensures NewIssues(Flatten(at, order))
  {
    var events := Flatten(at, order);
    forall k | 0 <= k < |events| && events[k].Issue?
      ensures events[k].data.activation == NotTwoPhase
    {
      var a := IssueIsAt(w, at, order, k);
    }
    forall k, m | 0 <= k < m < |events| && events[k].Issue? && events[m].Issue?
      ensures events[k].data.reserveLocation != events[m].data.reserveLocation
    {
      var a := IssueIsAt(w, at, order, k);
      var b := IssueIsAt(w, at, order, m);
    }
  }

  /** The meaning of the activations that the visit records: each is the one use of its temporary after the
      reservation, and a loan without one has no such use. */
  lemma ActivationsExactly(v: Visit, blocks: seq<BasicBlock>)
    requires BlocksInRange(v.body, blocks) && DistinctBlocks(blocks)
    requires VisitBlocks(v.tcx, v.exit, EmptyState, v.body, blocks).Running?
    ensures ActivationsAreUses(BodyViewOf(v), VisitOrder(v.body, blocks),
                               VisitBlocks(v.tcx, v.exit, EmptyState, v.body, blocks).state.loans)
  {
    var at := EventsFrom(BodyViewOf(v));
    OrderDistinct(v.body, blocks);
    BlocksAreRun(v, at, EmptyState, blocks);
    ToldLoans(BodyViewOf(v), at, VisitOrder(v.body, blocks),
              VisitBlocks(v.tcx, v.exit, EmptyState, v.body, blocks).state);
  }

  lemma ToldLoans(w: BodyView, at: Location -> seq<Event>, order: seq<Location>, g: GatherState)
    requires Setting(w, at, order) && Run(EmptyState, Flatten(at, order)) == Running(g)
    ensures ActivationsAreUses(w, order, g.loans)
  {
    IssuesAreNew(w, at, order);
    var indices := RunTold(Flatten(at, order));
    forall i | 0 <= i < |g.loans| && AllowTwoPhaseBorrow(g.loans[i].kind)
      ensures ActivationIsUse(w, order, g.loans[i])
    {
      assert LoanTold(Flatten(at, order), g.loans[i], indices[i]);
      assert PendingFor(g.loans, g.loans[i].assignedPlace.local, i);
      ToldIsUse(w, at, order, g.loans[i], indices[i]);
    }
  }

  /** The visit stops exactly if the body misuses the temporary of a two-phase borrow. */
  lemma StopsExactly(v: Visit, blocks: seq<BasicBlock>)
    requires BlocksInRange(v.body, blocks) && DistinctBlocks(blocks)
    ensures VisitBlocks(v.tcx, v.exit, EmptyState, v.body, blocks).Stopped? <==>
              Misused(BodyViewOf(v), VisitOrder(v.body, blocks))
  {
    var at := EventsFrom(BodyViewOf(v));
    OrderDistinct(v.body, blocks);
    BlocksAreRun(v, at, EmptyState, blocks);
    StopsOnEvents(BodyViewOf(v), at, VisitOrder(v.body, blocks));
  }

  lemma StopsOnEvents(w: BodyView, at: Location -> seq<Event>, order: seq<Location>)
    requires Setting(w, at, order)
    ensures Run(EmptyState, Flatten(at, order)).Stopped? <==> Misused(w, order)
  {
    IssuesAreNew(w, at, order);
    var indices := RunTold(Flatten(at, order));
    match Run(EmptyState, Flatten(at, order))
    case Stopped(_) => MisuseOnBody(w, at, order);
    case Running(g) =>
      ToldIsProper(Flatten(at, order), g, indices);
      if Misused(w, order) {
        MisuseInEvents(w, at, order);
      }
  }

  // ---------------------------------------------------------------- two bodies

  function OneBlock(statements: seq<Statement>): Body {
    Body([BlockData(statements, Terminator(Return, 0))])
  }

  /** Stores a two-phase borrow of `x` to `t`. */
  function Reserve(t: Local, x: Local, region: RegionVid): Statement {
    Statement(Assign(LocalPlace(t), Ref(region, Mut(TwoPhaseBorrow), LocalPlace(x))), 0)
  }

  function UseInto(u: Local, operand: Operand): Statement {
    Statement(Assign(LocalPlace(u), Use(operand)), 0)
  }

  /** A second copy of what the temporary points to stops the visit: the first one has not taken the temporary out of
      the pending activations. */
  lemma SecondUseStops(tcx: TyCtxt, t: Local, x: Local, u: Local, region: RegionVid)
    requires u != t
    ensures var body := OneBlock([Reserve(t, x, region), UseInto(u, Copy(Place(t, [Deref]))),
                                  UseInto(u, Copy(Place(t, [Deref])))]);
            VisitBlocks(tcx, AllAreInvalidated, EmptyState, body, [0]).Stopped?
  {
    var body := OneBlock([Reserve(t, x, region), UseInto(u, Copy(Place(t, [Deref]))),
                          UseInto(u, Copy(Place(t, [Deref])))]);
    var v := Visit(tcx, AllAreInvalidated, body);
    var w, order := BodyViewOf(v), VisitOrder(body, [0]);
    var r, p, q := Location(0, 0), Location(0, 1), Location(0, 2);
    assert [0][1..] == [] && VisitOrder(body, []) == [];
    assert order == BlockPoints(body, 0, 0);
    assert order[0] == r && order[1] == p && order[2] == q;
    assert w.issue(r) == Some(NewLoan(LocalPlace(t), Ref(region, Mut(TwoPhaseBorrow), LocalPlace(x)), r));
    assert w.uses(p)[1] == LocalUse(t, OtherUse) && w.uses(q)[1] == LocalUse(t, OtherUse);
    assert TwoUsesAfter(w, order, r, p, q);
    StopsExactly(v, [0]);
  }

  lemma {:induction false} NothingVisited(g: GatherState, uses: seq<LocalUse>, p: Location)
    requires forall k :: 0 <= k < |uses| ==> VisitLocal(g, uses[k], p) == Running(g)
    ensures VisitUses(g, uses, p) == Running(g)
    decreases |uses|
  {
    if uses != [] {
      NothingVisited(g, uses[1..], p);
    }
  }

  /** A borrow through a shared reference that the temporary leads to is not tracked, and so does not count as a use:
      the two-phase borrow is never activated. */
  lemma IgnoredReborrowIsNoUse(tcx: TyCtxt, t: Local, x: Local, u: Local, region: RegionVid)
    requires t != 0 && t != x && tcx.kindAt(t, []) == RefTy(true) && tcx.kindAt(t, [ToPointee]) == RefTy(false)
    ensures var reborrow := Statement(Assign(LocalPlace(u), Ref(region, Shared, Place(t, [Deref, Deref]))), 0);
            var gathered := VisitBlocks(tcx, AllAreInvalidated, EmptyState, OneBlock([Reserve(t, x, region), reborrow]),
                                        [0]);
            gathered.Running? && |gathered.state.loans| == 1 && gathered.state.loans[0].activation == NotActivated
  {
    var place := Place(t, [Deref, Deref]);
    var reborrow := Statement(Assign(LocalPlace(u), Ref(region, Shared, place)), 0);
    var body := OneBlock([Reserve(t, x, region), reborrow]);
    assert TypePath(place.projection[..0]) == [] && TypePath(place.projection[..1]) == [ToPointee];
    assert IgnoredDeref(tcx, place, 1);
    assert IgnoreBorrow(tcx, AllAreInvalidated, place);
    var data := NewLoan(LocalPlace(t), Ref(region, Mut(TwoPhaseBorrow), LocalPlace(x)), START);
    var g := InsertLoan(EmptyState, data).state;
    NothingVisited(g, StatementUses(body.blocks[0].statements[0].kind), START);
    NothingVisited(g, TerminatorUses(Return), Location(0, 2));
    assert VisitBlock(tcx, AllAreInvalidated, g, body, 0, 2) == Running(g);
    assert VisitBlock(tcx, AllAreInvalidated, g, body, 0, 1) == Running(g);
    assert [0][1..] == [];
  }
}
