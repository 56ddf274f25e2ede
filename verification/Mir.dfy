/** The slice of MIR that the loan analysis looks at: places, statements, terminators, and the
    control-flow graph seen as a graph of points `(block, index)`, where the index one past the
    last statement is the terminator. */
module Mir {

  datatype Option<+T> = None | Some(value: T)

  type BasicBlock = nat
  type Local = nat
  type RegionVid = nat
  type BorrowIndex = nat
  type Span = nat

  // ---------------------------------------------------------------- places

  datatype ProjectionElem =
    | Deref
    | Field(field: nat)
    | Index(indexLocal: Local)
    | ConstantIndex(offset: nat, minLength: nat, fromEnd: bool)
    | Subslice(from: nat, to: nat, fromEnd: bool)
    | Downcast(variant: nat)
    | OpaqueCast
    | Subtype

  datatype Place = Place(local: Local, projection: seq<ProjectionElem>)

  function LocalPlace(local: Local): Place {
    Place(local, [])
  }

  // --------------------------------------------------- statements and terminators

  datatype FakeBorrowKind = ShallowFake | DeepFake
  datatype MutBorrowKind = DefaultMut | TwoPhaseBorrow | ClosureCapture
  datatype BorrowKind = Shared | Fake(fake: FakeBorrowKind) | Mut(mutKind: MutBorrowKind)

  predicate AllowTwoPhaseBorrow(kind: BorrowKind) {
    kind == Mut(TwoPhaseBorrow)
  }

  datatype Operand = Copy(place: Place) | Move(place: Place) | Constant

  // `Use` stands for every rvalue that only consumes one operand.
  datatype Rvalue =
    | Ref(region: RegionVid, kind: BorrowKind, place: Place)
    | RawPtr(mutable: bool, place: Place)
    | ThreadLocalRef
    | Use(operand: Operand)
    | CopyForDeref(place: Place)
    | Len(place: Place)
    | Discriminant(place: Place)
    | BinaryOp(left: Operand, right: Operand)
    | NullaryOp
    | Aggregate(operands: seq<Operand>)

  // `Inert` stands for the statements without any effect on loans.
  datatype StatementKind =
    | Assign(lhs: Place, rhs: Rvalue)
    | FakeRead(place: Place)
    | PlaceMention(place: Place)
    | AscribeUserType(place: Place)
    | Assume(operand: Operand)
    | StorageDead(local: Local)
    | StorageLive(local: Local)
    | Inert

  datatype Statement = Statement(kind: StatementKind, span: Span)

  datatype UnwindAction = UnwindContinue | UnwindUnreachable | UnwindTerminateWith | Cleanup(block: BasicBlock)

  datatype InlineAsmOperand =
    | AsmIn(value: Operand)
    | AsmOut(place: Option<Place>)
    | AsmInOut(inValue: Operand, outPlace: Option<Place>)
    | AsmOther

  /** What an assertion that fails reports: the operands of a bounds check, or those of any other message. */
  datatype AssertMessage = BoundsCheck(len: Operand, index: Operand) | OtherMessage(operands: seq<Operand>)

  datatype TerminatorKind =
    | Goto(target: BasicBlock)
    | SwitchInt(discr: Operand, targets: seq<BasicBlock>)
    | UnwindResume
    | UnwindTerminate
    | Return
    | Unreachable
    | Drop(place: Place, dropTarget: BasicBlock, unwind: UnwindAction, replace: bool)
    | Call(func: Operand, args: seq<(Operand, Span)>, destination: Place,
           callTarget: Option<BasicBlock>, unwind: UnwindAction)
    | TailCall(func: Operand, args: seq<(Operand, Span)>)
    | Assert(cond: Operand, message: AssertMessage, assertTarget: BasicBlock, unwind: UnwindAction)
    | Yield(value: Operand, resume: BasicBlock, resumeArg: Place, dropBlock: Option<BasicBlock>)
    | CoroutineDrop
    | FalseEdge(realTarget: BasicBlock, imaginaryTarget: BasicBlock)
    | FalseUnwind(realTarget: BasicBlock, unwind: UnwindAction)
    | InlineAsm(asmOperands: seq<InlineAsmOperand>, asmTargets: seq<BasicBlock>, unwind: UnwindAction)

  datatype Terminator = Terminator(kind: TerminatorKind, span: Span)

  function CleanupBlocks(unwind: UnwindAction): seq<BasicBlock> {
    match unwind
    case Cleanup(b) => [b]
    case _ => []
  }

  function OptionalBlock(b: Option<BasicBlock>): seq<BasicBlock> {
    match b
    case Some(t) => [t]
    case None => []
  }

  function Successors(kind: TerminatorKind): seq<BasicBlock> {
    match kind
    case Goto(t) => [t]
    case SwitchInt(_, ts) => ts
    case Drop(_, t, u, _) => [t] + CleanupBlocks(u)
    case Call(_, _, _, t, u) => OptionalBlock(t) + CleanupBlocks(u)
    case Assert(_, _, t, u) => [t] + CleanupBlocks(u)
    case Yield(_, t, _, d) => [t] + OptionalBlock(d)
    case FalseEdge(r, i) => [r, i]
    case FalseUnwind(r, u) => [r] + CleanupBlocks(u)
    case InlineAsm(_, ts, u) => ts + CleanupBlocks(u)
    case _ => []
  }

  /** The unwind action of a terminator that has one. */
  function Unwind(kind: TerminatorKind): Option<UnwindAction> {
    match kind
    case Drop(_, _, u, _) => Some(u)
    case Call(_, _, _, _, u) => Some(u)
    case Assert(_, _, _, u) => Some(u)
    case FalseUnwind(_, u) => Some(u)
    case InlineAsm(_, _, u) => Some(u)
    case _ => None
  }

  // ---------------------------------------------------------------- bodies and points

  datatype BlockData = BlockData(statements: seq<Statement>, terminator: Terminator)

  datatype Body = Body(blocks: seq<BlockData>)

  datatype Location = Location(block: BasicBlock, index: nat)

  const START := Location(0, 0)

  ghost predicate WellFormed(body: Body) {
    && |body.blocks| > 0
    && forall b, t :: 0 <= b < |body.blocks| && t in Successors(body.blocks[b].terminator.kind) ==> t < |body.blocks|
  }

  predicate IsPoint(body: Body, p: Location) {
    p.block < |body.blocks| && p.index <= |body.blocks[p.block].statements|
  }

  predicate IsTerminatorPoint(body: Body, p: Location)
    requires IsPoint(body, p)
  {
    p.index == |body.blocks[p.block].statements|
  }

  ghost predicate Edge(body: Body, p: Location, q: Location) {
    && IsPoint(body, p)
    && IsPoint(body, q)
    && if IsTerminatorPoint(body, p) then
         q.index == 0 && q.block in Successors(body.blocks[p.block].terminator.kind)
       else
         q == Location(p.block, p.index + 1)
  }

  /** A path is a non-empty sequence of points joined by edges. */
  ghost predicate IsPath(body: Body, path: seq<Location>) {
    && |path| > 0
    && IsPoint(body, path[0])
    && forall k :: 0 <= k < |path| - 1 ==> Edge(body, path[k], path[k + 1])
  }

  ghost predicate IsPathFromTo(body: Body, path: seq<Location>, from: Location, to: Location) {
    IsPath(body, path) && path[0] == from && path[|path| - 1] == to
  }

  /** A run of the body, seen in its control-flow graph. */
  ghost predicate IsRun(body: Body, run: seq<Location>, p: Location) {
    IsPathFromTo(body, run, START, p)
  }

  ghost predicate Reachable(body: Body, p: Location) {
    exists run :: IsRun(body, run, p)
  }

  lemma PathPoints(body: Body, path: seq<Location>, k: nat)
    requires IsPath(body, path) && k < |path|
    ensures IsPoint(body, path[k])
  {
    if k > 0 {
      assert Edge(body, path[k - 1], path[k - 1 + 1]);
    }
  }

  lemma PathExtend(body: Body, path: seq<Location>, q: Location)
    requires IsPath(body, path) && Edge(body, path[|path| - 1], q)
    ensures IsPath(body, path + [q])
  {
    var longer := path + [q];
    forall k | 0 <= k < |longer| - 1
      ensures Edge(body, longer[k], longer[k + 1])
    {
      if k < |path| - 1 {
        assert Edge(body, path[k], path[k + 1]);
      }
    }
  }

  lemma PathSlice(body: Body, path: seq<Location>, i: nat, j: nat)
    requires IsPath(body, path) && i < j <= |path|
    ensures IsPath(body, path[i..j])
  {
    PathPoints(body, path, i);
    var part := path[i..j];
    forall k | 0 <= k < |part| - 1
      ensures Edge(body, part[k], part[k + 1])
    {
      assert Edge(body, path[i + k], path[i + k + 1]);
    }
  }

  /** Two paths that share an end point can be joined there. */
  lemma PathJoin(body: Body, left: seq<Location>, right: seq<Location>)
    requires IsPath(body, left) && IsPath(body, right) && left[|left| - 1] == right[0]
    ensures IsPath(body, left + right[1..])
    ensures (left + right[1..])[|left + right[1..]| - 1] == right[|right| - 1]
  {
    var joined := left + right[1..];
    forall k | 0 <= k < |joined| - 1
      ensures Edge(body, joined[k], joined[k + 1])
    {
      if k < |left| - 1 {
        assert Edge(body, left[k], left[k + 1]);
      } else {
        var i := k - (|left| - 1);
        assert joined[k] == right[i] && joined[k + 1] == right[i + 1];
        assert Edge(body, right[i], right[i + 1]);
      }
    }
  }

  /** The points of one block from `lo` to `hi` form a path. */
  lemma BlockPath(body: Body, b: BasicBlock, lo: nat, hi: nat) returns (path: seq<Location>)
    requires b < |body.blocks| && lo <= hi <= |body.blocks[b].statements|
    ensures IsPathFromTo(body, path, Location(b, lo), Location(b, hi))
    ensures |path| == hi - lo + 1
    ensures forall k :: 0 <= k < |path| ==> path[k] == Location(b, lo + k)
  {
    path := seq(hi - lo + 1, k requires 0 <= k => Location(b, lo + k));
  }

  // ---------------------------------------------------------------- loans

  datatype TwoPhaseActivation = NotTwoPhase | NotActivated | ActivatedAt(location: Location)

  datatype BorrowData = BorrowData(
    reserveLocation: Location,
    activation: TwoPhaseActivation,
    kind: BorrowKind,
    region: RegionVid,
    borrowedPlace: Place,
    assignedPlace: Place)

  /** The inferred value of each region: the points in its row. A region whose row was never
      allocated has no key. */
  type RegionValues = map<RegionVid, set<Location>>

  predicate RegionContains(values: RegionValues, r: RegionVid, p: Location) {
    r in values && p in values[r]
  }
}
