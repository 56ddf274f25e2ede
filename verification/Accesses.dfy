/** What each statement and terminator accesses, and what checking one access does: the decisions of `lib.rs`
    as functions. */
module Accesses {
  import opened Mir
  import opened PlacesConflict
  import opened BorrowSets
  import opened TwoPhaseBorrows

  // ---------------------------------------------------------------- accesses

  datatype ReadKind = ReadBorrow(kind: BorrowKind) | ReadCopy
  datatype WriteKind = StorageDeadOrDrop | Replace | MutableBorrow(kind: BorrowKind) | Mutate | MoveOut

  datatype ReadOrWrite =
    | Read(readKind: ReadKind)
    | Write(writeKind: WriteKind)
    | Reservation(writeKind: WriteKind)
    | Activation(writeKind: WriteKind, activating: BorrowIndex)

  datatype LocalMutation = MutationAllowed | MutationNotAllowed

  datatype Access = Access(place: Place, span: Span, depth: AccessDepth, rw: ReadOrWrite, mutation: LocalMutation)

  function OperandAccesses(operand: Operand, span: Span): seq<Access> {
    match operand
    case Copy(p) => [Access(p, span, Deep, Read(ReadCopy), MutationNotAllowed)]
    case Move(p) => [Access(p, span, Deep, Write(MoveOut), MutationAllowed)]
    case Constant => []
  }

  function OperandsAccesses(operands: seq<Operand>, span: Span): seq<Access> {
    if operands == [] then [] else OperandAccesses(operands[0], span) + OperandsAccesses(operands[1..], span)
  }

  function ArgsAccesses(args: seq<(Operand, Span)>): seq<Access> {
    if args == [] then [] else OperandAccesses(args[0].0, args[0].1) + ArgsAccesses(args[1..])
  }

  function BorrowAccess(kind: BorrowKind, place: Place, span: Span): Access {
    match kind
    case Fake(ShallowFake) =>
      Access(place, span, Shallow(Some(FakeBorrow)), Read(ReadBorrow(kind)), MutationNotAllowed)
    case Shared => Access(place, span, Deep, Read(ReadBorrow(kind)), MutationNotAllowed)
    case Fake(DeepFake) => Access(place, span, Deep, Read(ReadBorrow(kind)), MutationNotAllowed)
    case Mut(_) =>
      Access(place, span, Deep,
             if AllowTwoPhaseBorrow(kind) then Reservation(MutableBorrow(kind)) else Write(MutableBorrow(kind)),
             MutationNotAllowed)
  }

  function RvalueAccesses(rvalue: Rvalue, span: Span): seq<Access> {
    match rvalue
    case Ref(_, kind, p) => [BorrowAccess(kind, p, span)]
    case RawPtr(mutable, p) =>
      [Access(p, span, Deep, if mutable then Write(MutableBorrow(Mut(DefaultMut))) else Read(ReadBorrow(Shared)),
              MutationNotAllowed)]
    case ThreadLocalRef => []
    case Use(o) => OperandAccesses(o, span)
    case CopyForDeref(p) => [Access(p, span, Deep, Read(ReadCopy), MutationNotAllowed)]
    case Len(p) => [Access(p, span, Shallow(Some(ArrayLength)), Read(ReadCopy), MutationNotAllowed)]
    case Discriminant(p) => [Access(p, span, Shallow(None), Read(ReadCopy), MutationNotAllowed)]
    case BinaryOp(l, r) => OperandAccesses(l, span) + OperandAccesses(r, span)
    case NullaryOp => []
    case Aggregate(os) => OperandsAccesses(os, span)
  }

  function MutateAccess(place: Place, span: Span, depth: AccessDepth): Access {
    Access(place, span, depth, Write(Mutate), MutationNotAllowed)
  }

  function StatementAccesses(stmt: Statement): seq<Access> {
    match stmt.kind
    case Assign(lhs, rhs) => RvalueAccesses(rhs, stmt.span) + [MutateAccess(lhs, stmt.span, Shallow(None))]
    case Assume(o) => OperandAccesses(o, stmt.span)
    case StorageDead(l) =>
      [Access(LocalPlace(l), stmt.span, Shallow(None), Write(StorageDeadOrDrop), MutationAllowed)]
    case _ => []
  }

  function OptionalMutate(place: Option<Place>, span: Span): seq<Access> {
    match place
    case Some(p) => [MutateAccess(p, span, Shallow(None))]
    case None => []
  }

  function AsmAccesses(operands: seq<InlineAsmOperand>, span: Span): seq<Access> {
    if operands == [] then []
    else
      (match operands[0]
       case AsmIn(o) => OperandAccesses(o, span)
       case AsmOut(p) => OptionalMutate(p, span)
       case AsmInOut(o, p) => OperandAccesses(o, span) + OptionalMutate(p, span)
       case AsmOther => [])
      + AsmAccesses(operands[1..], span)
  }

  /** Of the messages of assertions, only bounds checks are looked at. */
  function BoundsOperands(message: AssertMessage): seq<Operand> {
    match message
    case BoundsCheck(len, index) => [len, index]
    case OtherMessage(_) => []
  }

  function TerminatorAccesses(term: Terminator): seq<Access> {
    match term.kind
    case SwitchInt(o, _) => OperandAccesses(o, term.span)
    case Drop(p, _, _, replace) =>
      [Access(p, term.span, DropDepth, Write(if replace then Replace else StorageDeadOrDrop), MutationAllowed)]
    case Call(f, args, d, _, _) =>
      OperandAccesses(f, term.span) + ArgsAccesses(args) + [MutateAccess(d, term.span, Deep)]
    case TailCall(f, args) => OperandAccesses(f, term.span) + ArgsAccesses(args)
    case Assert(c, m, _, _) => OperandAccesses(c, term.span) + OperandsAccesses(BoundsOperands(m), term.span)
    case Yield(v, _, p, _) => OperandAccesses(v, term.span) + [MutateAccess(p, term.span, Deep)]
    case InlineAsm(os, _, _) => AsmAccesses(os, term.span)
    case _ => []
  }

  // ---------------------------------------------------------------- the check of one access

  /** What the checks need to know. Whether an access is permitted by mutability alone is left open. */
  datatype CheckCx = CheckCx(
    tcx: TyCtxt,
    body: Body,
    borrowSet: BorrowSet,
    dominators: Dominators,
    localsAreInvalidatedAtExit: bool,
    permissionError: (Access, Location) -> bool,
    borrowSpan: BorrowIndex -> Span)

  function ActivationAccess(cx: CheckCx, i: BorrowIndex, span: Span): Access
    requires i < |cx.borrowSet.loans|
  {
    Access(cx.borrowSet.loans[i].borrowedPlace, span, Deep,
           Activation(MutableBorrow(cx.borrowSet.loans[i].kind), i), MutationNotAllowed)
  }

  function ActivationAccesses(cx: CheckCx, indices: seq<BorrowIndex>, span: Span): seq<Access> {
    if indices == [] then []
    else (if indices[0] < |cx.borrowSet.loans| then [ActivationAccess(cx, indices[0], span)] else [])
         + ActivationAccesses(cx, indices[1..], span)
  }

  /** All accesses at a point, in the order in which they are checked: first the activations. */
  function AccessesAt(cx: CheckCx, p: Location): seq<Access>
    requires IsPoint(cx.body, p)
  {
    var data := cx.body.blocks[p.block];
    var span := if IsTerminatorPoint(cx.body, p) then data.terminator.span else data.statements[p.index].span;
    ActivationAccesses(cx, ActivationsAt(cx.borrowSet.activationMap, p), span)
    + if IsTerminatorPoint(cx.body, p) then TerminatorAccesses(data.terminator)
      else StatementAccesses(data.statements[p.index])
  }

  /** The compatibility table: may the access go on in spite of the conflicting loan `i`? */
  predicate Compatible(dominators: Dominators, rw: ReadOrWrite, i: BorrowIndex, loan: BorrowData, p: Location) {
    match (rw, loan.kind)
    case (Activation(_, activating), _) => activating == i
    case (Read(_), Shared) => true
    case (Read(_), Fake(_)) => true
    case (Read(ReadBorrow(Fake(ShallowFake))), Mut(_)) => true
    case (Reservation(_), Fake(_)) => true
    case (Reservation(_), Shared) => true
    case (Write(MoveOut), Fake(ShallowFake)) => true
    case (Read(_), Mut(_)) => !IsActive(dominators, loan, p)
    case _ => false
  }

  datatype ScanResult = NoError | Conflicting(loan: BorrowIndex) | InternalError

  /** The scan of candidate loans: the first one in scope that conflicts and is not compatible ends it. */
  function Scan(cx: CheckCx, indices: seq<BorrowIndex>, inScope: set<BorrowIndex>, access: Access,
                p: Location): ScanResult
    decreases |indices|
  {
    if indices == [] then NoError
    else
      var i, rest := indices[0], indices[1..];
      if i !in inScope || i >= |cx.borrowSet.loans| then Scan(cx, rest, inScope, access, p)
      else
        var loan := cx.borrowSet.loans[i];
        match BorrowConflictsWithPlace(cx.tcx, loan.borrowedPlace, loan.kind, access.place, access.depth, BiasOverlap)
        case Conflicts(false) => Scan(cx, rest, inScope, access, p)
        case Conflicts(true) =>
          if Compatible(cx.dominators, access.rw, i, loan, p) then Scan(cx, rest, inScope, access, p)
          else Conflicting(i)
        case _ => InternalError
  }

  /** The loans on the local of the accessed place. */
  function Candidates(cx: CheckCx, access: Access): seq<BorrowIndex> {
    LoansOn(cx.borrowSet.localMap, access.place.local)
  }

  datatype CheckState = CheckState(
    accessErrors: set<(Place, Span)>,
    reservationErrors: set<Place>,
    tainted: bool,
    aborted: bool)

  const CleanState := CheckState({}, {}, false, false)

  /** Reporting that a borrowed value does not live long enough, which is done once per local and borrow. */
  function ReportDoesNotLive(cx: CheckCx, st: CheckState, i: BorrowIndex): CheckState
    requires i < |cx.borrowSet.loans|
  {
    var key := (LocalPlace(cx.borrowSet.loans[i].borrowedPlace.local), cx.borrowSpan(i));
    if key in st.accessErrors then st else st.(accessErrors := st.accessErrors + {key}, tainted := true)
  }

  function Report(cx: CheckCx, st: CheckState, access: Access, i: BorrowIndex): CheckState
    requires i < |cx.borrowSet.loans|
  {
    var st' := if access.rw.Reservation? then st.(reservationErrors := st.reservationErrors + {access.place}) else st;
    if !access.rw.Read? && access.rw.writeKind == StorageDeadOrDrop then ReportDoesNotLive(cx, st', i)
    else st'.(tainted := true)
  }

  /** `access_place`: what checking one access does to the state. */
  function AccessPlace(cx: CheckCx, st: CheckState, access: Access, p: Location,
                       inScope: set<BorrowIndex>): CheckState {
    if st.aborted then st
    else if access.rw.Activation? && access.place in st.reservationErrors then st
    else if (access.place, access.span) in st.accessErrors then st
    else
      var mutabilityError := cx.permissionError(access, p);
      var st1 := st.(tainted := st.tainted || mutabilityError);
      match Scan(cx, Candidates(cx, access), inScope, access, p)
      case InternalError => st1.(aborted := true)
      case Conflicting(i) =>
        if i < |cx.borrowSet.loans| then
          var st2 := Report(cx, st1, access, i);
          st2.(accessErrors := st2.accessErrors + {(access.place, access.span)})
        else st1
      case NoError =>
        if mutabilityError then st1.(accessErrors := st1.accessErrors + {(access.place, access.span)}) else st1
  }

  function AccessAll(cx: CheckCx, st: CheckState, accesses: seq<Access>, p: Location,
                     inScope: set<BorrowIndex>): CheckState
    decreases |accesses|
  {
    if accesses == [] then st
    else AccessAll(cx, AccessPlace(cx, st, accesses[0], p, inScope), accesses[1..], p, inScope)
  }

  lemma {:induction false} AccessAllAppend(cx: CheckCx, st: CheckState, a: seq<Access>, b: seq<Access>, p: Location,
                                           inScope: set<BorrowIndex>)
    ensures AccessAll(cx, st, a + b, p, inScope) == AccessAll(cx, AccessAll(cx, st, a, p, inScope), b, p, inScope)
    decreases |a|
  {
    if a == [] {
      assert a + b == b;
    } else {
      assert (a + b)[1..] == a[1..] + b;
      AccessAllAppend(cx, AccessPlace(cx, st, a[0], p, inScope), a[1..], b, p, inScope);
    }
  }

  // ---------------------------------------------------------------- checks at function exit

  /** What the end of the function does to the storage a loan borrows from, if anything. */
  function ExitAccess(cx: CheckCx, loan: BorrowData): Option<(Place, AccessDepth)> {
    var l := loan.borrowedPlace.local;
    if l in cx.tcx.threadLocalRefs then Some((Place(l, [ProjectionElem.Deref]), Deep))
    else if cx.localsAreInvalidatedAtExit then Some((LocalPlace(l), Shallow(None)))
    else None
  }

  function ExitConflict(cx: CheckCx, loan: BorrowData): Answer {
    match ExitAccess(cx, loan)
    case None => Conflicts(false)
    case Some((place, depth)) =>
      BorrowConflictsWithPlace(cx.tcx, loan.borrowedPlace, loan.kind, place, depth, BiasOverlap)
  }

  function CheckExit(cx: CheckCx, st: CheckState, i: BorrowIndex): CheckState {
    if st.aborted || i >= |cx.borrowSet.loans| then st
    else match ExitConflict(cx, cx.borrowSet.loans[i])
      case Conflicts(false) => st
      case Conflicts(true) => ReportDoesNotLive(cx, st, i)
      case _ => st.(aborted := true)
  }

  /** Loans below `n` in ascending order, as the bit set is iterated. */
  function CheckExits(cx: CheckCx, st: CheckState, inScope: set<BorrowIndex>, n: nat): CheckState {
    if n == 0 then st
    else
      var before := CheckExits(cx, st, inScope, n - 1);
      if n - 1 in inScope then CheckExit(cx, before, n - 1) else before
  }

  predicate LeavesFunction(kind: TerminatorKind) {
    kind.UnwindResume? || kind.Return? || kind.TailCall? || kind.CoroutineDrop?
  }

  // ---------------------------------------------------------------- the index by local loses nothing

  function AllLoans(n: nat): (s: seq<BorrowIndex>)
    ensures |s| == n
    ensures forall k :: 0 <= k < n ==> s[k] == k
  {
    seq(n, k requires 0 <= k => k)
  }

  lemma {:induction false} ScanAppend(cx: CheckCx, a: seq<BorrowIndex>, b: seq<BorrowIndex>, inScope: set<BorrowIndex>,
                                      access: Access, p: Location)
    ensures Scan(cx, a + b, inScope, access, p) ==
            if Scan(cx, a, inScope, access, p) == NoError then Scan(cx, b, inScope, access, p)
            else Scan(cx, a, inScope, access, p)
    decreases |a|
  {
    if a == [] {
      assert a + b == b;
    } else {
      assert (a + b)[1..] == a[1..] + b;
      ScanAppend(cx, a[1..], b, inScope, access, p);
    }
  }

  /** A loan on another local is passed over. */
  lemma ScanOther(cx: CheckCx, i: BorrowIndex, inScope: set<BorrowIndex>, access: Access, p: Location)
    requires i < |cx.borrowSet.loans| && cx.borrowSet.loans[i].borrowedPlace.local != access.place.local
    ensures Scan(cx, [i], inScope, access, p) == NoError
  {
    assert Scan(cx, [i][1..], inScope, access, p) == NoError;
  }

  lemma {:induction false} ScanLocals(cx: CheckCx, n: nat, inScope: set<BorrowIndex>, access: Access, p: Location)
    requires n <= |cx.borrowSet.loans|
    ensures Scan(cx, LoansOfLocal(cx.borrowSet.loans[..n], access.place.local), inScope, access, p)
         == Scan(cx, AllLoans(n), inScope, access, p)
  {
    if n == 0 {
    } else {
      ScanLocals(cx, n - 1, inScope, access, p);
      var loans, local := cx.borrowSet.loans[..n], access.place.local;
      var front := LoansOfLocal(loans[..n - 1], local);
      assert loans[..n - 1] == cx.borrowSet.loans[..n - 1];
      assert AllLoans(n) == AllLoans(n - 1) + [n - 1];
      ScanAppend(cx, AllLoans(n - 1), [n - 1], inScope, access, p);
      if loans[n - 1].borrowedPlace.local == local {
        assert LoansOfLocal(loans, local) == front + [n - 1];
        ScanAppend(cx, front, [n - 1], inScope, access, p);
      } else {
        assert LoansOfLocal(loans, local) == front;
        ScanOther(cx, n - 1, inScope, access, p);
      }
    }
  }

  /** Scanning the loans on the local of the accessed place ends exactly as scanning all loans does, at the same
      loan when it ends with an error. */
  lemma ScanByLocalRefinesScan(cx: CheckCx, inScope: set<BorrowIndex>, access: Access, p: Location)
    requires LocalMapAgrees(cx.borrowSet.loans, cx.borrowSet.localMap)
    ensures Scan(cx, Candidates(cx, access), inScope, access, p)
         == Scan(cx, AllLoans(|cx.borrowSet.loans|), inScope, access, p)
  {
    var loans := cx.borrowSet.loans;
    assert loans[..|loans|] == loans;
    assert Candidates(cx, access) == LoansOfLocal(loans, access.place.local);
    ScanLocals(cx, |loans|, inScope, access, p);
  }

  // ---------------------------------------------------------------- quiet checking

  /** Nothing stands against the access: no mutability error, no loan in scope that conflicts without being
      compatible, and no internal error on the way. */
  ghost predicate Clean(cx: CheckCx, access: Access, p: Location, inScope: set<BorrowIndex>) {
    && !cx.permissionError(access, p)
    && forall i :: 0 <= i < |cx.borrowSet.loans| && i in inScope ==> CleanAgainst(cx, access, p, i)
  }

  ghost predicate CleanAgainst(cx: CheckCx, access: Access, p: Location, i: BorrowIndex)
    requires i < |cx.borrowSet.loans|
  {
    var loan := cx.borrowSet.loans[i];
    match BorrowConflictsWithPlace(cx.tcx, loan.borrowedPlace, loan.kind, access.place, access.depth, BiasOverlap)
    case Conflicts(false) => true
    case Conflicts(true) => Compatible(cx.dominators, access.rw, i, loan, p)
    case _ => false
  }

  lemma {:induction false} ScanExactly(cx: CheckCx, indices: seq<BorrowIndex>, inScope: set<BorrowIndex>,
                                       access: Access, p: Location)
    ensures Scan(cx, indices, inScope, access, p) == NoError <==>
              forall k :: 0 <= k < |indices| && indices[k] in inScope && indices[k] < |cx.borrowSet.loans| ==>
                CleanAgainst(cx, access, p, indices[k])
    ensures Scan(cx, indices, inScope, access, p).Conflicting? ==>
              var i := Scan(cx, indices, inScope, access, p).loan; i < |cx.borrowSet.loans|
    decreases |indices|
  {
    if indices != [] {
      ScanExactly(cx, indices[1..], inScope, access, p);
      var cleanHead := indices[0] in inScope && indices[0] < |cx.borrowSet.loans| ==>
        CleanAgainst(cx, access, p, indices[0]);
      assert forall k :: 0 < k < |indices| ==> indices[k] == indices[1..][k - 1];
      assert forall k :: 0 <= k < |indices[1..]| ==> indices[1..][k] == indices[k + 1];
    }
  }

  ghost predicate Quiet(st: CheckState) {
    !st.tainted && !st.aborted
  }

  /** Errors stay. */
  lemma AccessPlaceSticky(cx: CheckCx, st: CheckState, access: Access, p: Location, inScope: set<BorrowIndex>)
    ensures Quiet(AccessPlace(cx, st, access, p, inScope)) ==> Quiet(st)
  {
  }

  /** While no error has been reported, neither early return of the check is taken, and the check stays silent
      if and only if nothing stands against the access. */
  lemma AccessPlaceExactly(cx: CheckCx, access: Access, p: Location, inScope: set<BorrowIndex>)
    requires LocalMapAgrees(cx.borrowSet.loans, cx.borrowSet.localMap)
    ensures Quiet(AccessPlace(cx, CleanState, access, p, inScope)) <==> Clean(cx, access, p, inScope)
    ensures Clean(cx, access, p, inScope) ==> AccessPlace(cx, CleanState, access, p, inScope) == CleanState
  {
    var n := |cx.borrowSet.loans|;
    ScanByLocalRefinesScan(cx, inScope, access, p);
    ScanExactly(cx, AllLoans(n), inScope, access, p);
    assert forall i :: 0 <= i < n ==> AllLoans(n)[i] == i;
    if Scan(cx, AllLoans(n), inScope, access, p) == NoError {
      forall i | 0 <= i < n && i in inScope
        ensures CleanAgainst(cx, access, p, i)
      {
        assert AllLoans(n)[i] in inScope;
      }
    }
  }

  lemma {:induction false} AccessAllSticky(cx: CheckCx, st: CheckState, accesses: seq<Access>, p: Location,
                                           inScope: set<BorrowIndex>)
    ensures Quiet(AccessAll(cx, st, accesses, p, inScope)) ==> Quiet(st)
    decreases |accesses|
  {
    if accesses != [] {
      AccessAllSticky(cx, AccessPlace(cx, st, accesses[0], p, inScope), accesses[1..], p, inScope);
      AccessPlaceSticky(cx, st, accesses[0], p, inScope);
    }
  }

  /** A sequence of checks that starts clean stays silent if and only if every access in it is clean. */
  lemma {:induction false} AccessAllExactly(cx: CheckCx, accesses: seq<Access>, p: Location, inScope: set<BorrowIndex>)
    requires LocalMapAgrees(cx.borrowSet.loans, cx.borrowSet.localMap)
    ensures Quiet(AccessAll(cx, CleanState, accesses, p, inScope)) <==>
              forall k :: 0 <= k < |accesses| ==> Clean(cx, accesses[k], p, inScope)
    ensures Quiet(AccessAll(cx, CleanState, accesses, p, inScope)) ==>
              AccessAll(cx, CleanState, accesses, p, inScope) == CleanState
    decreases |accesses|
  {
    if accesses != [] {
      AccessPlaceExactly(cx, accesses[0], p, inScope);
      AccessAllSticky(cx, AccessPlace(cx, CleanState, accesses[0], p, inScope), accesses[1..], p, inScope);
      AccessAllExactly(cx, accesses[1..], p, inScope);
      assert forall k :: 0 < k < |accesses| ==> accesses[k] == accesses[1..][k - 1];
      assert forall k :: 0 <= k < |accesses[1..]| ==> accesses[1..][k] == accesses[k + 1];
    }
  }

  ghost predicate ExitClean(cx: CheckCx, inScope: set<BorrowIndex>, n: nat) {
    forall i :: 0 <= i < n && i < |cx.borrowSet.loans| && i in inScope ==>
      ExitConflict(cx, cx.borrowSet.loans[i]) == Conflicts(false)
  }

  lemma {:induction false} CheckExitsExactly(cx: CheckCx, st: CheckState, inScope: set<BorrowIndex>, n: nat)
    requires st == CleanState || !Quiet(st)
    ensures Quiet(CheckExits(cx, st, inScope, n)) <==> st == CleanState && ExitClean(cx, inScope, n)
    ensures Quiet(CheckExits(cx, st, inScope, n)) ==> CheckExits(cx, st, inScope, n) == CleanState
  {
    if n > 0 {
      CheckExitsExactly(cx, st, inScope, n - 1);
    }
  }
}
