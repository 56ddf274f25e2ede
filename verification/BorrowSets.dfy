/** The set of loans of a body and the visitor of `borrow_set.rs` that gathers it. */
module BorrowSets {
  import opened Mir
  import opened PlacesConflict

  // ---------------------------------------------------------------- the borrow set

  type LocalMap = map<Local, seq<BorrowIndex>>
  type ActivationMap = map<Location, seq<BorrowIndex>>

  /** `loans` is the insertion-ordered map from reserve locations to loans: the position of a loan is its
      index, and its reserve location is its key. */
  datatype BorrowSet = BorrowSet(
    loans: seq<BorrowData>,
    activationMap: ActivationMap,
    localMap: LocalMap,
    localsStateAtExit: LocalsStateAtExit)

  function LoansOn(localMap: LocalMap, local: Local): seq<BorrowIndex> {
    if local in localMap then localMap[local] else []
  }

  function ActivationsAt(activationMap: ActivationMap, p: Location): seq<BorrowIndex> {
    if p in activationMap then activationMap[p] else []
  }

  /** The index of the loan reserved at `p`. */
  function IndexOf(loans: seq<BorrowData>, p: Location): (i: Option<BorrowIndex>)
    ensures i.Some? ==> i.value < |loans| && loans[i.value].reserveLocation == p
    ensures i.None? ==> forall j :: 0 <= j < |loans| ==> loans[j].reserveLocation != p
  {
    if loans == [] then None
    else if loans[0].reserveLocation == p then Some(0)
    else match IndexOf(loans[1..], p)
      case Some(j) => Some(j + 1)
      case None => None
  }

  /** The loans of places rooted at `local`, in ascending order. */
  function LoansOfLocal(loans: seq<BorrowData>, local: Local): seq<BorrowIndex>
  {
    if loans == [] then []
    else
      var n := |loans| - 1;
      LoansOfLocal(loans[..n], local) + if loans[n].borrowedPlace.local == local then [n] else []
  }

  ghost predicate DistinctIndices(s: seq<BorrowIndex>) {
    forall j, k :: 0 <= j < k < |s| ==> s[j] != s[k]
  }

  ghost predicate DistinctReserves(loans: seq<BorrowData>) {
    forall i, j :: 0 <= i < j < |loans| ==> loans[i].reserveLocation != loans[j].reserveLocation
  }

  ghost predicate LocalMapAgrees(loans: seq<BorrowData>, localMap: LocalMap) {
    forall local :: LoansOn(localMap, local) == LoansOfLocal(loans, local)
  }

  ghost predicate ActivationsAgreeAt(loans: seq<BorrowData>, activationMap: ActivationMap, p: Location) {
    && (forall i: nat :: i in ActivationsAt(activationMap, p) <==> i < |loans| && loans[i].activation == ActivatedAt(p))
    && DistinctIndices(ActivationsAt(activationMap, p))
  }

  ghost predicate ActivationMapAgrees(loans: seq<BorrowData>, activationMap: ActivationMap) {
    forall p :: ActivationsAgreeAt(loans, activationMap, p)
  }

  ghost predicate TwoPhaseAgrees(loans: seq<BorrowData>) {
    forall i :: 0 <= i < |loans| ==> (loans[i].activation != NotTwoPhase <==> AllowTwoPhaseBorrow(loans[i].kind))
  }

  ghost predicate ValidSet(set_: BorrowSet) {
    && DistinctReserves(set_.loans)
    && LocalMapAgrees(set_.loans, set_.localMap)
    && ActivationMapAgrees(set_.loans, set_.activationMap)
    && TwoPhaseAgrees(set_.loans)
  }

  // ---------------------------------------------------------------- uses of locals

  /** How a local is mentioned: what writes to it, drops it, uses it otherwise, or is no use at all because it only
      marks its storage or ascribes a type. */
  datatype PlaceContext = Store | CallOutput | AsmOutput | YieldOutput | DropUse | OtherUse | StorageMarker | Ascription

  predicate IsUse(context: PlaceContext) {
    context != StorageMarker && context != Ascription
  }

  datatype LocalUse = LocalUse(local: Local, context: PlaceContext)

  /** The locals of a projection, innermost last. */
  function ProjectionUses(projection: seq<ProjectionElem>): seq<LocalUse> {
    if projection == [] then []
    else
      var last := |projection| - 1;
      (if projection[last].Index? then [LocalUse(projection[last].indexLocal, OtherUse)] else [])
      + ProjectionUses(projection[..last])
  }

  function PlaceUses(place: Place, context: PlaceContext): seq<LocalUse> {
    [LocalUse(place.local, if place.projection != [] && IsUse(context) then OtherUse else context)]
    + ProjectionUses(place.projection)
  }

  function OperandUses(operand: Operand): seq<LocalUse> {
    match operand
    case Copy(p) => PlaceUses(p, OtherUse)
    case Move(p) => PlaceUses(p, OtherUse)
    case Constant => []
  }

  function OperandsUses(operands: seq<Operand>): seq<LocalUse> {
    if operands == [] then [] else OperandUses(operands[0]) + OperandsUses(operands[1..])
  }

  function ArgsUses(args: seq<(Operand, Span)>): seq<LocalUse> {
    if args == [] then [] else OperandUses(args[0].0) + ArgsUses(args[1..])
  }

  function RvalueUses(rvalue: Rvalue): seq<LocalUse> {
    match rvalue
    case Ref(_, _, p) => PlaceUses(p, OtherUse)
    case RawPtr(_, p) => PlaceUses(p, OtherUse)
    case Use(o) => OperandUses(o)
    case CopyForDeref(p) => PlaceUses(p, OtherUse)
    case Len(p) => PlaceUses(p, OtherUse)
    case Discriminant(p) => PlaceUses(p, OtherUse)
    case BinaryOp(l, r) => OperandUses(l) + OperandUses(r)
    case Aggregate(os) => OperandsUses(os)
    case ThreadLocalRef => []
    case NullaryOp => []
  }

  function OptionalPlaceUses(place: Option<Place>, context: PlaceContext): seq<LocalUse> {
    match place
    case Some(p) => PlaceUses(p, context)
    case None => []
  }

  function AsmUses(operands: seq<InlineAsmOperand>): seq<LocalUse> {
    if operands == [] then []
    else
      (match operands[0]
       case AsmIn(o) => OperandUses(o)
       case AsmOut(p) => OptionalPlaceUses(p, AsmOutput)
       case AsmInOut(o, p) => OperandUses(o) + OptionalPlaceUses(p, AsmOutput)
       case AsmOther => [])
      + AsmUses(operands[1..])
  }

  /** The locals that a statement mentions. */
  function StatementUses(kind: StatementKind): seq<LocalUse> {
    match kind
    case Assign(lhs, rhs) => PlaceUses(lhs, Store) + RvalueUses(rhs)
    case FakeRead(p) => PlaceUses(p, OtherUse)
    case PlaceMention(p) => PlaceUses(p, OtherUse)
    case AscribeUserType(p) => PlaceUses(p, Ascription)
    case Assume(o) => OperandUses(o)
    case StorageDead(l) => [LocalUse(l, StorageMarker)]
    case StorageLive(l) => [LocalUse(l, StorageMarker)]
    case Inert => []
  }

  function MessageOperands(message: AssertMessage): seq<Operand> {
    match message
    case BoundsCheck(len, index) => [len, index]
    case OtherMessage(operands) => operands
  }

  /** `Return` moves out of the return place, local 0. */
  function TerminatorUses(kind: TerminatorKind): seq<LocalUse> {
    match kind
    case SwitchInt(o, _) => OperandUses(o)
    case Return => [LocalUse(0, OtherUse)]
    case Drop(p, _, _, _) => PlaceUses(p, DropUse)
    case Call(f, args, d, _, _) => OperandUses(f) + ArgsUses(args) + PlaceUses(d, CallOutput)
    case TailCall(f, args) => OperandUses(f) + ArgsUses(args)
    case Assert(c, m, _, _) => OperandUses(c) + OperandsUses(MessageOperands(m))
    case Yield(v, _, p, _) => OperandUses(v) + PlaceUses(p, YieldOutput)
    case InlineAsm(os, _, _) => AsmUses(os)
    case _ => []
  }

  // ---------------------------------------------------------------- the visitor as a function

  datatype GatherState = GatherState(
    loans: seq<BorrowData>,
    activationMap: ActivationMap,
    localMap: LocalMap,
    pending: map<Local, BorrowIndex>)

  datatype GatherBug = TwoUses | NeverPending | AlreadyPending | NotALocal

  datatype Gathered = Running(state: GatherState) | Stopped(bug: GatherBug)

  const EmptyState := GatherState([], map[], map[], map[])

  function VisitLocal(g: GatherState, u: LocalUse, p: Location): Gathered {
    if !IsUse(u.context) || u.local !in g.pending || g.pending[u.local] >= |g.loans| then Running(g)
    else
      var i := g.pending[u.local];
      if g.loans[i].reserveLocation == p && u.context == Store then Running(g)
      else match g.loans[i].activation
        case ActivatedAt(_) => Stopped(TwoUses)
        case NotTwoPhase => Stopped(NeverPending)
        case NotActivated =>
          Running(g.(loans := g.loans[i := g.loans[i].(activation := ActivatedAt(p))],
                     activationMap := g.activationMap[p := ActivationsAt(g.activationMap, p) + [i]]))
  }

  function VisitUses(g: GatherState, uses: seq<LocalUse>, p: Location): Gathered
    decreases |uses|
  {
    if uses == [] then Running(g)
    else match VisitLocal(g, uses[0], p)
      case Stopped(b) => Stopped(b)
      case Running(h) => VisitUses(h, uses[1..], p)
  }

  /** Registers the loan issued at `p`: index map, pending activations, loans by local. */
  function InsertLoan(g: GatherState, data: BorrowData): Gathered {
    var (i, loans) :=
      match IndexOf(g.loans, data.reserveLocation)
      case Some(i) => (i, g.loans[i := data])
      case None => (|g.loans|, g.loans + [data]);
    var on := LoansOn(g.localMap, data.borrowedPlace.local);
    var localMap := g.localMap[data.borrowedPlace.local := if i in on then on else on + [i]];
    if !AllowTwoPhaseBorrow(data.kind) then Running(g.(loans := loans, localMap := localMap))
    else if data.assignedPlace.projection != [] then Stopped(NotALocal)
    else if data.assignedPlace.local in g.pending then Stopped(AlreadyPending)
    else Running(g.(loans := loans[i := loans[i].(activation := NotActivated)], localMap := localMap,
                    pending := g.pending[data.assignedPlace.local := i]))
  }

  function NewLoan(lhs: Place, rvalue: Rvalue, p: Location): BorrowData
    requires rvalue.Ref?
  {
    BorrowData(p, NotTwoPhase, rvalue.kind, rvalue.region, rvalue.place, lhs)
  }

  function VisitAssign(tcx: TyCtxt, exit: LocalsStateAtExit, g: GatherState, lhs: Place, rvalue: Rvalue,
                       p: Location): Gathered {
    if rvalue.Ref? then
      if IgnoreBorrow(tcx, exit, rvalue.place) then Running(g)
      else match InsertLoan(g, NewLoan(lhs, rvalue, p))
        case Stopped(b) => Stopped(b)
        case Running(h) => VisitUses(h, StatementUses(Assign(lhs, rvalue)), p)
    else VisitUses(g, StatementUses(Assign(lhs, rvalue)), p)
  }

  function VisitStatement(tcx: TyCtxt, exit: LocalsStateAtExit, g: GatherState, kind: StatementKind,
                          p: Location): Gathered {
    match kind
    case Assign(lhs, rhs) => VisitAssign(tcx, exit, g, lhs, rhs, p)
    case _ => VisitUses(g, StatementUses(kind), p)
  }

  /** The statements of block `b` from index `k` on, and then its terminator. */
  function VisitBlock(tcx: TyCtxt, exit: LocalsStateAtExit, g: GatherState, body: Body, b: BasicBlock, k: nat): Gathered
    requires b < |body.blocks| && k <= |body.blocks[b].statements|
    decreases |body.blocks[b].statements| - k
  {
    if k == |body.blocks[b].statements| then VisitUses(g, TerminatorUses(body.blocks[b].terminator.kind),
                                                       Location(b, k))
    else match VisitStatement(tcx, exit, g, body.blocks[b].statements[k].kind, Location(b, k))
      case Stopped(bug) => Stopped(bug)
      case Running(h) => VisitBlock(tcx, exit, h, body, b, k + 1)
  }

  ghost predicate BlocksInRange(body: Body, blocks: seq<BasicBlock>) {
    forall k :: 0 <= k < |blocks| ==> blocks[k] < |body.blocks|
  }

  function VisitBlocks(tcx: TyCtxt, exit: LocalsStateAtExit, g: GatherState, body: Body,
                       blocks: seq<BasicBlock>): Gathered
    requires BlocksInRange(body, blocks)
    decreases |blocks|
  {
    if blocks == [] then Running(g)
    else match VisitBlock(tcx, exit, g, body, blocks[0], 0)
      case Stopped(bug) => Stopped(bug)
      case Running(h) => VisitBlocks(tcx, exit, h, body, blocks[1..])
  }

  // ---------------------------------------------------------------- what every step keeps

  /** The maps agree with the loans, and the pending activations are exactly the two-phase loans by the
      temporary they are stored to. */
  ghost predicate GoodState(g: GatherState) {
    && DistinctReserves(g.loans)
    && LocalMapAgrees(g.loans, g.localMap)
    && ActivationMapAgrees(g.loans, g.activationMap)
    && TwoPhaseAgrees(g.loans)
    && PendingAgrees(g.loans, g.pending)
  }

  ghost predicate PendingAgrees(loans: seq<BorrowData>, pending: map<Local, BorrowIndex>) {
    && (forall t :: t in pending ==> PendingFor(loans, t, pending[t]))
    && (forall i :: 0 <= i < |loans| && AllowTwoPhaseBorrow(loans[i].kind) ==>
          loans[i].assignedPlace.local in pending && pending[loans[i].assignedPlace.local] == i)
  }

  ghost predicate PendingFor(loans: seq<BorrowData>, t: Local, i: BorrowIndex) {
    i < |loans| && AllowTwoPhaseBorrow(loans[i].kind) && loans[i].assignedPlace == LocalPlace(t)
  }

  /** A loan only ever changes from not activated to activated. */
  ghost predicate LoanAdvances(before: BorrowData, after: BorrowData) {
    || after == before
    || (before.activation == NotActivated && after.activation.ActivatedAt?
        && after == before.(activation := after.activation))
  }

  ghost predicate Advances(g: GatherState, h: GatherState) {
    && |g.loans| <= |h.loans|
    && forall i :: 0 <= i < |g.loans| ==> LoanAdvances(g.loans[i], h.loans[i])
  }

  lemma {:induction false} SameLocals(loans: seq<BorrowData>, loans': seq<BorrowData>, local: Local)
    requires |loans| == |loans'|
    requires forall i :: 0 <= i < |loans| ==> loans[i].borrowedPlace.local == loans'[i].borrowedPlace.local
    ensures LoansOfLocal(loans, local) == LoansOfLocal(loans', local)
    decreases |loans|
  {
    if loans != [] {
      SameLocals(loans[..|loans| - 1], loans'[..|loans| - 1], local);
    }
  }

  lemma {:induction false} LoansOfLocalAre(loans: seq<BorrowData>, local: Local)
    ensures var s := LoansOfLocal(loans, local);
            && (forall i: nat :: i in s <==> i < |loans| && loans[i].borrowedPlace.local == local)
            && (forall j, k :: 0 <= j < k < |s| ==> s[j] < s[k])
    decreases |loans|
  {
    if loans != [] {
      var n := |loans| - 1;
      LoansOfLocalAre(loans[..n], local);
      var before, s := LoansOfLocal(loans[..n], local), LoansOfLocal(loans, local);
      forall j | 0 <= j < |before|
        ensures before[j] < n
      {
        assert before[j] in before;
      }
      assert forall i: nat :: i in s <==> i in before || (i == n && loans[n].borrowedPlace.local == local);
    }
  }

  lemma VisitLocalKeeps(g: GatherState, u: LocalUse, p: Location)
    requires GoodState(g)
    ensures match VisitLocal(g, u, p)
            case Running(h) => GoodState(h) && Advances(g, h) && |h.loans| == |g.loans|
            case Stopped(bug) => bug == TwoUses
  {
    if u.local in g.pending {
      assert PendingFor(g.loans, u.local, g.pending[u.local]);
    }
    match VisitLocal(g, u, p)
    case Stopped(_) =>
    case Running(h) =>
      if h != g {
        var i := g.pending[u.local];
        forall t | t in h.pending
          ensures PendingFor(h.loans, t, h.pending[t])
        {
          assert PendingFor(g.loans, t, g.pending[t]);
        }
        forall local
          ensures LoansOn(h.localMap, local) == LoansOfLocal(h.loans, local)
        {
          SameLocals(g.loans, h.loans, local);
        }
        ActivationKept(g, h, i, p);
      }
  }

  /** The mention of a local at `p` counts as a use of the temporary that holds a two-phase borrow: it is a use, and
      not the store of the borrow itself. */
  predicate CountsFor(loan: BorrowData, u: LocalUse, p: Location) {
    && AllowTwoPhaseBorrow(loan.kind) && u.local == loan.assignedPlace.local && IsUse(u.context)
    && !(p == loan.reserveLocation && u.context == Store)
  }

  ghost predicate ActivatesFor(g: GatherState, h: GatherState, u: LocalUse, p: Location, i: BorrowIndex)
    requires i < |g.loans| == |h.loans|
  {
    if CountsFor(g.loans[i], u, p) then
      g.loans[i].activation == NotActivated && h.loans[i] == g.loans[i].(activation := ActivatedAt(p))
    else h.loans[i] == g.loans[i]
  }

  ghost predicate UsedAlready(g: GatherState, u: LocalUse, p: Location, i: BorrowIndex) {
    i < |g.loans| && CountsFor(g.loans[i], u, p) && g.loans[i].activation.ActivatedAt?
  }

  /** What a mention does: it activates exactly the loan whose temporary it uses, and stops if that has been used. */
  lemma VisitLocalExactly(g: GatherState, u: LocalUse, p: Location)
    requires GoodState(g)
    ensures match VisitLocal(g, u, p)
            case Running(h) =>
              && |h.loans| == |g.loans| && h.pending == g.pending
              && forall i :: 0 <= i < |g.loans| ==> ActivatesFor(g, h, u, p, i)
            case Stopped(bug) => exists i :: UsedAlready(g, u, p, i)
  {
    if u.local in g.pending {
      assert PendingFor(g.loans, u.local, g.pending[u.local]);
    }
    match VisitLocal(g, u, p)
    case Stopped(_) => assert UsedAlready(g, u, p, g.pending[u.local]);
    case Running(_) =>
  }

  lemma ActivationKept(g: GatherState, h: GatherState, i: BorrowIndex, p: Location)
    requires ActivationMapAgrees(g.loans, g.activationMap)
    requires i < |g.loans| && g.loans[i].activation == NotActivated
    requires h.loans == g.loans[i := g.loans[i].(activation := ActivatedAt(p))]
    requires h.activationMap == g.activationMap[p := ActivationsAt(g.activationMap, p) + [i]]
    ensures ActivationMapAgrees(h.loans, h.activationMap)
  {
    forall q
      ensures ActivationsAgreeAt(h.loans, h.activationMap, q)
    {
      var before := ActivationsAt(g.activationMap, q);
      assert ActivationsAgreeAt(g.loans, g.activationMap, q);
      assert i !in before;
      if q == p {
        assert ActivationsAt(h.activationMap, q) == before + [i];
        assert forall j: nat :: j in before + [i] <==> j in before || j == i;
      }
    }
  }

  lemma AdvancesTransitive(g: GatherState, h: GatherState, k: GatherState)
    requires Advances(g, h) && Advances(h, k)
    ensures Advances(g, k)
  {
    forall i | 0 <= i < |g.loans|
      ensures LoanAdvances(g.loans[i], k.loans[i])
    {
      assert LoanAdvances(g.loans[i], h.loans[i]) && LoanAdvances(h.loans[i], k.loans[i]);
    }
  }

  lemma {:induction false} VisitUsesKeeps(g: GatherState, uses: seq<LocalUse>, p: Location)
    requires GoodState(g)
    ensures match VisitUses(g, uses, p)
            case Running(h) => GoodState(h) && Advances(g, h) && |h.loans| == |g.loans|
            case Stopped(bug) => bug == TwoUses
    decreases |uses|
  {
    if uses != [] {
      VisitLocalKeeps(g, uses[0], p);
      match VisitLocal(g, uses[0], p)
      case Stopped(_) =>
      case Running(h) =>
        VisitUsesKeeps(h, uses[1..], p);
        match VisitUses(h, uses[1..], p)
        case Stopped(_) =>
        case Running(k) => AdvancesTransitive(g, h, k);
    }
  }

  /** The state after registering a loan at a location that has none. */
  ghost predicate Appended(g: GatherState, h: GatherState, data: BorrowData) {
    var n, on := |g.loans|, LoansOn(g.localMap, data.borrowedPlace.local);
    && |h.loans| == n + 1
    && (forall i :: 0 <= i < n ==> h.loans[i] == g.loans[i])
    && h.activationMap == g.activationMap
    && h.localMap == g.localMap[data.borrowedPlace.local := if n in on then on else on + [n]]
    && if AllowTwoPhaseBorrow(data.kind) then
         && h.loans[n] == data.(activation := NotActivated)
         && data.assignedPlace.projection == []
         && data.assignedPlace.local !in g.pending
         && h.pending == g.pending[data.assignedPlace.local := n]
       else
         h.loans[n] == data && h.pending == g.pending
  }

  lemma InsertLoanAppends(g: GatherState, data: BorrowData)
    requires IndexOf(g.loans, data.reserveLocation).None?
    ensures match InsertLoan(g, data)
            case Running(h) => Appended(g, h, data)
            case Stopped(bug) => AllowTwoPhaseBorrow(data.kind) && (bug == NotALocal || bug == AlreadyPending)
  {
  }

  lemma LoansOfLocalAppend(loans: seq<BorrowData>, loans': seq<BorrowData>, local: Local)
    requires |loans'| == |loans| + 1 && loans'[..|loans|] == loans
    ensures LoansOfLocal(loans', local)
         == LoansOfLocal(loans, local) + if loans'[|loans|].borrowedPlace.local == local then [|loans|] else []
    ensures |loans| !in LoansOfLocal(loans, local)
  {
    LoansOfLocalAre(loans, local);
  }

  lemma NewLoanLocals(g: GatherState, h: GatherState, data: BorrowData)
    requires LocalMapAgrees(g.loans, g.localMap)
    requires Appended(g, h, data)
    ensures LocalMapAgrees(h.loans, h.localMap)
  {
    assert h.loans[..|g.loans|] == g.loans;
    forall local
      ensures LoansOn(h.localMap, local) == LoansOfLocal(h.loans, local)
    {
      LoansOfLocalAppend(g.loans, h.loans, local);
      assert LoansOn(g.localMap, local) == LoansOfLocal(g.loans, local);
      assert LoansOn(h.localMap, local) ==
             if local == data.borrowedPlace.local then LoansOn(g.localMap, local) + [|g.loans|]
             else LoansOn(g.localMap, local);
    }
  }

  lemma NewLoanActivations(g: GatherState, h: GatherState, data: BorrowData)
    requires ActivationMapAgrees(g.loans, g.activationMap)
    requires Appended(g, h, data) && data.activation == NotTwoPhase
    ensures ActivationMapAgrees(h.loans, h.activationMap)
  {
    forall p
      ensures ActivationsAgreeAt(h.loans, h.activationMap, p)
    {
      assert ActivationsAgreeAt(g.loans, g.activationMap, p);
    }
  }

  lemma NewLoanPending(g: GatherState, h: GatherState, data: BorrowData)
    requires PendingAgrees(g.loans, g.pending)
    requires Appended(g, h, data)
    ensures PendingAgrees(h.loans, h.pending)
  {
    forall t | t in h.pending
      ensures PendingFor(h.loans, t, h.pending[t])
    {
      if t in g.pending {
        assert PendingFor(g.loans, t, g.pending[t]);
      }
    }
  }

  lemma NewLoanDistinct(g: GatherState, h: GatherState, data: BorrowData)
    requires DistinctReserves(g.loans) && TwoPhaseAgrees(g.loans)
    requires IndexOf(g.loans, data.reserveLocation).None?
    requires Appended(g, h, data) && data.activation == NotTwoPhase
    ensures DistinctReserves(h.loans) && TwoPhaseAgrees(h.loans)
  {
  }

  lemma NewLoanAdvances(g: GatherState, h: GatherState, data: BorrowData)
    requires Appended(g, h, data)
    ensures Advances(g, h)
  {
  }

  lemma AppendedKeeps(g: GatherState, h: GatherState, data: BorrowData)
    requires GoodState(g)
    requires IndexOf(g.loans, data.reserveLocation).None?
    requires Appended(g, h, data) && data.activation == NotTwoPhase
    ensures GoodState(h) && Advances(g, h)
  {
    NewLoanDistinct(g, h, data);
    NewLoanAdvances(g, h, data);
    NewLoanLocals(g, h, data);
    NewLoanActivations(g, h, data);
    NewLoanPending(g, h, data);
  }

  // ---------------------------------------------------------------- soundness and completeness of the gathering

  /** The statement at `p` issues a loan that is tracked. */
  predicate IssuesLoan(tcx: TyCtxt, exit: LocalsStateAtExit, body: Body, p: Location) {
    && p.block < |body.blocks| && p.index < |body.blocks[p.block].statements|
    && var kind := body.blocks[p.block].statements[p.index].kind;
       kind.Assign? && kind.rhs.Ref? && !IgnoreBorrow(tcx, exit, kind.rhs.place)
  }

  /** The loan is the one that the statement at its reserve location issues. */
  ghost predicate IssuedBy(tcx: TyCtxt, exit: LocalsStateAtExit, body: Body, loan: BorrowData) {
    && IssuesLoan(tcx, exit, body, loan.reserveLocation)
    && var kind := body.blocks[loan.reserveLocation.block].statements[loan.reserveLocation.index].kind;
       loan == NewLoan(kind.lhs, kind.rhs, loan.reserveLocation).(activation := loan.activation)
  }

  ghost predicate AreIssued(tcx: TyCtxt, exit: LocalsStateAtExit, body: Body, g: GatherState,
                            visited: Location -> bool) {
    forall i :: 0 <= i < |g.loans| ==> IssuedBy(tcx, exit, body, g.loans[i]) && visited(g.loans[i].reserveLocation)
  }

  ghost predicate AreFound(tcx: TyCtxt, exit: LocalsStateAtExit, body: Body, g: GatherState,
                           visited: Location -> bool) {
    forall p :: visited(p) && IssuesLoan(tcx, exit, body, p) ==> IndexOf(g.loans, p).Some?
  }

  /** The loans are exactly those issued at the points visited so far. */
  ghost predicate Gathers(tcx: TyCtxt, exit: LocalsStateAtExit, body: Body, g: GatherState, visited: Location -> bool) {
    GoodState(g) && AreIssued(tcx, exit, body, g, visited) && AreFound(tcx, exit, body, g, visited)
  }

  function And(visited: Location -> bool, p: Location): Location -> bool {
    (q: Location) => visited(q) || q == p
  }

  lemma GathersUses(tcx: TyCtxt, exit: LocalsStateAtExit, body: Body, g: GatherState, visited: Location -> bool,
                    visited': Location -> bool, uses: seq<LocalUse>, p: Location)
    requires Gathers(tcx, exit, body, g, visited)
    requires forall q :: visited(q) ==> visited'(q)
    requires forall q :: visited'(q) && !visited(q) ==> !IssuesLoan(tcx, exit, body, q)
    requires VisitUses(g, uses, p).Running?
    ensures Gathers(tcx, exit, body, VisitUses(g, uses, p).state, visited')
    ensures Advances(g, VisitUses(g, uses, p).state)
  {
    VisitUsesKeeps(g, uses, p);
    var h := VisitUses(g, uses, p).state;
    forall i | 0 <= i < |h.loans|
      ensures IssuedBy(tcx, exit, body, h.loans[i]) && visited'(h.loans[i].reserveLocation)
    {
      assert LoanAdvances(g.loans[i], h.loans[i]);
      assert IssuedBy(tcx, exit, body, g.loans[i]);
    }
    forall q | visited'(q) && IssuesLoan(tcx, exit, body, q)
      ensures IndexOf(h.loans, q).Some?
    {
      var i := IndexOf(g.loans, q).value;
      assert LoanAdvances(g.loans[i], h.loans[i]);
    }
  }

  lemma InsertedIssued(tcx: TyCtxt, exit: LocalsStateAtExit, body: Body, g: GatherState, h: GatherState,
                       visited: Location -> bool, data: BorrowData)
    requires AreIssued(tcx, exit, body, g, visited)
    requires IssuedBy(tcx, exit, body, data) && Appended(g, h, data)
    ensures AreIssued(tcx, exit, body, h, And(visited, data.reserveLocation))
  {
    forall j | 0 <= j < |h.loans|
      ensures IssuedBy(tcx, exit, body, h.loans[j]) && And(visited, data.reserveLocation)(h.loans[j].reserveLocation)
    {
      if j < |g.loans| {
        assert h.loans[j] == g.loans[j];
      }
    }
  }

  lemma InsertedFound(tcx: TyCtxt, exit: LocalsStateAtExit, body: Body, g: GatherState, h: GatherState,
                      visited: Location -> bool, data: BorrowData)
    requires AreFound(tcx, exit, body, g, visited) && Appended(g, h, data)
    ensures AreFound(tcx, exit, body, h, And(visited, data.reserveLocation))
  {
    forall q | And(visited, data.reserveLocation)(q) && IssuesLoan(tcx, exit, body, q)
      ensures IndexOf(h.loans, q).Some?
    {
      var j := if q == data.reserveLocation then |g.loans| else IndexOf(g.loans, q).value;
      assert h.loans[j].reserveLocation == q;
    }
  }

  lemma GathersInsert(tcx: TyCtxt, exit: LocalsStateAtExit, body: Body, g: GatherState, h: GatherState,
                      visited: Location -> bool, data: BorrowData)
    requires Gathers(tcx, exit, body, g, visited)
    requires IssuedBy(tcx, exit, body, data) && data.activation == NotTwoPhase
    requires IndexOf(g.loans, data.reserveLocation).None?
    requires Appended(g, h, data)
    ensures Gathers(tcx, exit, body, h, And(visited, data.reserveLocation))
    ensures Advances(g, h)
  {
    AppendedKeeps(g, h, data);
    InsertedIssued(tcx, exit, body, g, h, visited, data);
    InsertedFound(tcx, exit, body, g, h, visited, data);
  }

  /** One statement: what is gathered stays right, and one more point is visited. */
  lemma GathersStatement(tcx: TyCtxt, exit: LocalsStateAtExit, body: Body, g: GatherState, visited: Location -> bool,
                         p: Location)
    requires Gathers(tcx, exit, body, g, visited)
    requires p.block < |body.blocks| && p.index < |body.blocks[p.block].statements|
    requires !visited(p)
    requires VisitStatement(tcx, exit, g, body.blocks[p.block].statements[p.index].kind, p).Running?
    ensures var h := VisitStatement(tcx, exit, g, body.blocks[p.block].statements[p.index].kind, p).state;
            Gathers(tcx, exit, body, h, And(visited, p)) && Advances(g, h)
  {
    var kind := body.blocks[p.block].statements[p.index].kind;
    if IssuesLoan(tcx, exit, body, p) {
      var data := NewLoan(kind.lhs, kind.rhs, p);
      assert IndexOf(g.loans, p).None?;
      InsertLoanAppends(g, data);
      var h := InsertLoan(g, data).state;
      GathersInsert(tcx, exit, body, g, h, visited, data);
      GathersUses(tcx, exit, body, h, And(visited, p), And(visited, p), StatementUses(kind), p);
      AdvancesTransitive(g, h, VisitUses(h, StatementUses(kind), p).state);
    } else if kind.Assign? && kind.rhs.Ref? {
      assert VisitUses(g, [], p) == Running(g);
      GathersUses(tcx, exit, body, g, visited, And(visited, p), [], p);
    } else {
      GathersUses(tcx, exit, body, g, visited, And(visited, p), StatementUses(kind), p);
    }
  }

  /** The points of the given blocks, and those of block `b` before index `k`. */
  function PointsOf(done: set<BasicBlock>, b: BasicBlock, k: nat): Location -> bool {
    (q: Location) => q.block in done || (q.block == b && q.index < k)
  }

  lemma {:induction false} GathersBlock(tcx: TyCtxt, exit: LocalsStateAtExit, body: Body, g: GatherState,
                                        done: set<BasicBlock>, b: BasicBlock, k: nat)
    requires b < |body.blocks| && k <= |body.blocks[b].statements| && b !in done
    requires Gathers(tcx, exit, body, g, PointsOf(done, b, k))
    requires VisitBlock(tcx, exit, g, body, b, k).Running?
    ensures var h := VisitBlock(tcx, exit, g, body, b, k).state;
            Gathers(tcx, exit, body, h, PointsOf(done + {b}, b, 0)) && Advances(g, h)
    decreases |body.blocks[b].statements| - k
  {
    if k == |body.blocks[b].statements| {
      GathersUses(tcx, exit, body, g, PointsOf(done, b, k), PointsOf(done + {b}, b, 0),
                  TerminatorUses(body.blocks[b].terminator.kind), Location(b, k));
    } else {
      var p := Location(b, k);
      GathersStatement(tcx, exit, body, g, PointsOf(done, b, k), p);
      var h := VisitStatement(tcx, exit, g, body.blocks[b].statements[k].kind, p).state;
      GathersUses(tcx, exit, body, h, And(PointsOf(done, b, k), p), PointsOf(done, b, k + 1), [], p);
      GathersBlock(tcx, exit, body, h, done, b, k + 1);
      AdvancesTransitive(g, h, VisitBlock(tcx, exit, h, body, b, k + 1).state);
    }
  }

  function BlockSet(blocks: seq<BasicBlock>): set<BasicBlock> {
    set b | b in blocks
  }

  ghost predicate DistinctBlocks(blocks: seq<BasicBlock>) {
    forall j, k :: 0 <= j < k < |blocks| ==> blocks[j] != blocks[k]
  }

  /** Visiting distinct blocks gathers exactly the tracked loans they issue, with all maps in agreement, and
      never moves an activation other than from not activated to activated. */
  lemma {:induction false} GathersBlocks(tcx: TyCtxt, exit: LocalsStateAtExit, body: Body, g: GatherState,
                                         done: set<BasicBlock>, blocks: seq<BasicBlock>)
    requires BlocksInRange(body, blocks) && DistinctBlocks(blocks)
    requires forall b :: b in blocks ==> b !in done
    requires Gathers(tcx, exit, body, g, PointsOf(done, 0, 0))
    requires VisitBlocks(tcx, exit, g, body, blocks).Running?
    ensures var h := VisitBlocks(tcx, exit, g, body, blocks).state;
            Gathers(tcx, exit, body, h, PointsOf(done + BlockSet(blocks), 0, 0)) && Advances(g, h)
    decreases |blocks|
  {
    if blocks == [] {
      assert done + BlockSet(blocks) == done;
    } else {
      var b := blocks[0];
      assert b in blocks;
      SamePoints(tcx, exit, body, g, PointsOf(done, 0, 0), PointsOf(done, b, 0));
      GathersBlock(tcx, exit, body, g, done, b, 0);
      var h := VisitBlock(tcx, exit, g, body, b, 0).state;
      SamePoints(tcx, exit, body, h, PointsOf(done + {b}, b, 0), PointsOf(done + {b}, 0, 0));
      assert forall c :: c in blocks[1..] ==> c in blocks && c != b;
      GathersBlocks(tcx, exit, body, h, done + {b}, blocks[1..]);
      var k := VisitBlocks(tcx, exit, h, body, blocks[1..]).state;
      AdvancesTransitive(g, h, k);
      assert done + {b} + BlockSet(blocks[1..]) == done + BlockSet(blocks);
    }
  }

  lemma SamePoints(tcx: TyCtxt, exit: LocalsStateAtExit, body: Body, g: GatherState, visited: Location -> bool,
                   visited': Location -> bool)
    requires Gathers(tcx, exit, body, g, visited)
    requires forall q :: visited(q) <==> visited'(q)
    ensures Gathers(tcx, exit, body, g, visited')
  {
  }
}
