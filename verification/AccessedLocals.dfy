/** The list of accesses of a point against the mentions of locals that a visitor meets there, two walks over the same
    statements written for different purposes: what is mentioned is accessed, what is assigned is mutated, and what is
    dropped is dropped. */
module AccessedLocals {
  import opened Mir
  import opened PlacesConflict
  import opened BorrowSets
  import opened Accesses
  import opened Occurrences

  // ---------------------------------------------------------------- mentions and accesses of a local

  ghost predicate Mentioned(uses: seq<LocalUse>, l: Local) {
    exists j :: 0 <= j < |uses| && uses[j].local == l
  }

  ghost predicate Accessed(accesses: seq<Access>, l: Local) {
    exists k :: 0 <= k < |accesses| && OccursIn(l, accesses[k].place)
  }

  predicate IsDefinition(context: PlaceContext) {
    context in {Store, CallOutput, AsmOutput, YieldOutput}
  }

  ghost predicate Defined(uses: seq<LocalUse>, l: Local) {
    exists j :: 0 <= j < |uses| && uses[j].local == l && IsDefinition(uses[j].context)
  }

  ghost predicate Mutated(accesses: seq<Access>, l: Local) {
    exists k :: 0 <= k < |accesses| && accesses[k].place == LocalPlace(l) && accesses[k].rw == Write(Mutate)
  }

  ghost predicate Dropped(uses: seq<LocalUse>, l: Local) {
    exists j :: 0 <= j < |uses| && uses[j].local == l && uses[j].context == DropUse
  }

  ghost predicate AccessedByDrop(accesses: seq<Access>, l: Local) {
    exists k :: 0 <= k < |accesses| && accesses[k].place == LocalPlace(l) && accesses[k].depth == DropDepth
  }

  ghost predicate SameFor(uses: seq<LocalUse>, accesses: seq<Access>, l: Local) {
    && (Mentioned(uses, l) <==> Accessed(accesses, l))
    && (Defined(uses, l) <==> Mutated(accesses, l))
    && (Dropped(uses, l) <==> AccessedByDrop(accesses, l))
  }

  /** The mentions and the accesses speak of the same locals, in the same roles. */
  ghost predicate SameRoles(uses: seq<LocalUse>, accesses: seq<Access>) {
    forall l :: SameFor(uses, accesses, l)
  }

  // ---------------------------------------------------------------- walking both

  lemma OneUse(u: LocalUse, l: Local)
    ensures Mentioned([u], l) <==> u.local == l
    ensures Defined([u], l) <==> u.local == l && IsDefinition(u.context)
    ensures Dropped([u], l) <==> u.local == l && u.context == DropUse
  {
    assert [u][0] == u;
  }

  lemma OneAccess(a: Access, l: Local)
    ensures Accessed([a], l) <==> OccursIn(l, a.place)
    ensures Mutated([a], l) <==> a.place == LocalPlace(l) && a.rw == Write(Mutate)
    ensures AccessedByDrop([a], l) <==> a.place == LocalPlace(l) && a.depth == DropDepth
  {
    assert [a][0] == a;
  }

  lemma UsesAppend(u: seq<LocalUse>, v: seq<LocalUse>, l: Local)
    ensures Mentioned(u + v, l) <==> Mentioned(u, l) || Mentioned(v, l)
    ensures Defined(u + v, l) <==> Defined(u, l) || Defined(v, l)
    ensures Dropped(u + v, l) <==> Dropped(u, l) || Dropped(v, l)
  {
    assert forall j :: 0 <= j < |u| ==> (u + v)[j] == u[j];
    assert forall j :: 0 <= j < |v| ==> (u + v)[|u| + j] == v[j];
  }

  lemma AccessesAppend(a: seq<Access>, b: seq<Access>, l: Local)
    ensures Accessed(a + b, l) <==> Accessed(a, l) || Accessed(b, l)
    ensures Mutated(a + b, l) <==> Mutated(a, l) || Mutated(b, l)
    ensures AccessedByDrop(a + b, l) <==> AccessedByDrop(a, l) || AccessedByDrop(b, l)
  {
    assert forall k :: 0 <= k < |a| ==> (a + b)[k] == a[k];
    assert forall k :: 0 <= k < |b| ==> (a + b)[|a| + k] == b[k];
  }

  lemma SameAppend(u: seq<LocalUse>, a: seq<Access>, v: seq<LocalUse>, b: seq<Access>)
    requires SameRoles(u, a) && SameRoles(v, b)
    ensures SameRoles(u + v, a + b) && SameRoles(u + v, b + a)
  {
    forall l
      ensures SameFor(u + v, a + b, l) && SameFor(u + v, b + a, l)
    {
      assert SameFor(u, a, l) && SameFor(v, b, l);
      UsesAppend(u, v, l);
      AccessesAppend(a, b, l);
      AccessesAppend(b, a, l);
    }
  }

  lemma {:induction false} ProjectionMentions(projection: seq<ProjectionElem>, l: Local)
    ensures Mentioned(ProjectionUses(projection), l) <==> exists j :: 0 <= j < |projection| && projection[j] == Index(l)
    ensures !Defined(ProjectionUses(projection), l) && !Dropped(ProjectionUses(projection), l)
    decreases |projection|
  {
    if projection != [] {
      var n := |projection| - 1;
      ProjectionMentions(projection[..n], l);
      var last := if projection[n].Index? then [LocalUse(projection[n].indexLocal, OtherUse)] else [];
      UsesAppend(last, ProjectionUses(projection[..n]), l);
      if projection[n].Index? {
        OneUse(last[0], l);
      }
      if j :| 0 <= j < |projection| && projection[j] == Index(l) {
        assert j < n ==> projection[..n][j] == Index(l);
      }
    }
  }

  /** One place, mentioned in a role and accessed in the same. */
  lemma PlaceSame(place: Place, context: PlaceContext, access: Access)
    requires access.place == place && IsUse(context)
    requires IsDefinition(context) <==> access.rw == Write(Mutate)
    requires context == DropUse <==> access.depth == DropDepth
    ensures SameRoles(PlaceUses(place, context), [access])
  {
    var root := LocalUse(place.local, if place.projection != [] then OtherUse else context);
    forall l
      ensures SameFor(PlaceUses(place, context), [access], l)
    {
      ProjectionMentions(place.projection, l);
      UsesAppend([root], ProjectionUses(place.projection), l);
      OneUse(root, l);
      OneAccess(access, l);
    }
  }

  lemma OperandSame(operand: Operand, span: Span)
    ensures SameRoles(OperandUses(operand), OperandAccesses(operand, span))
  {
    match operand
    case Copy(p) => PlaceSame(p, OtherUse, OperandAccesses(operand, span)[0]);
    case Move(p) => PlaceSame(p, OtherUse, OperandAccesses(operand, span)[0]);
    case Constant =>
  }

  lemma {:induction false} OperandsSame(operands: seq<Operand>, span: Span)
    ensures SameRoles(OperandsUses(operands), OperandsAccesses(operands, span))
    decreases |operands|
  {
    if operands != [] {
      OperandSame(operands[0], span);
      OperandsSame(operands[1..], span);
      SameAppend(OperandUses(operands[0]), OperandAccesses(operands[0], span),
                 OperandsUses(operands[1..]), OperandsAccesses(operands[1..], span));
    }
  }

  lemma {:induction false} ArgsSame(args: seq<(Operand, Span)>)
    ensures SameRoles(ArgsUses(args), ArgsAccesses(args))
    decreases |args|
  {
    if args != [] {
      OperandSame(args[0].0, args[0].1);
      ArgsSame(args[1..]);
      SameAppend(OperandUses(args[0].0), OperandAccesses(args[0].0, args[0].1), ArgsUses(args[1..]),
                 ArgsAccesses(args[1..]));
    }
  }

  lemma RvalueSame(rvalue: Rvalue, span: Span)
    ensures SameRoles(RvalueUses(rvalue), RvalueAccesses(rvalue, span))
  {
    match rvalue
    case Ref(_, kind, p) => PlaceSame(p, OtherUse, BorrowAccess(kind, p, span));
    case RawPtr(_, p) => PlaceSame(p, OtherUse, RvalueAccesses(rvalue, span)[0]);
    case Use(o) => OperandSame(o, span);
    case CopyForDeref(p) => PlaceSame(p, OtherUse, RvalueAccesses(rvalue, span)[0]);
    case Len(p) => PlaceSame(p, OtherUse, RvalueAccesses(rvalue, span)[0]);
    case Discriminant(p) => PlaceSame(p, OtherUse, RvalueAccesses(rvalue, span)[0]);
    case BinaryOp(l, r) =>
      OperandSame(l, span);
      OperandSame(r, span);
      SameAppend(OperandUses(l), OperandAccesses(l, span), OperandUses(r), OperandAccesses(r, span));
    case Aggregate(os) => OperandsSame(os, span);
    case ThreadLocalRef =>
    case NullaryOp =>
  }

  lemma OptionalSame(place: Option<Place>, span: Span)
    ensures SameRoles(OptionalPlaceUses(place, AsmOutput), OptionalMutate(place, span))
  {
    match place
    case Some(p) => PlaceSame(p, AsmOutput, MutateAccess(p, span, Shallow(None)));
    case None =>
  }

  lemma {:induction false} AsmSame(operands: seq<InlineAsmOperand>, span: Span)
    ensures SameRoles(AsmUses(operands), AsmAccesses(operands, span))
    decreases |operands|
  {
    if operands != [] {
      AsmSame(operands[1..], span);
      match operands[0]
      case AsmIn(o) =>
        OperandSame(o, span);
        SameAppend(OperandUses(o), OperandAccesses(o, span), AsmUses(operands[1..]), AsmAccesses(operands[1..], span));
      case AsmOut(p) =>
        OptionalSame(p, span);
        SameAppend(OptionalPlaceUses(p, AsmOutput), OptionalMutate(p, span), AsmUses(operands[1..]),
                   AsmAccesses(operands[1..], span));
      case AsmInOut(o, p) =>
        OperandSame(o, span);
        OptionalSame(p, span);
        SameAppend(OperandUses(o), OperandAccesses(o, span), OptionalPlaceUses(p, AsmOutput), OptionalMutate(p, span));
        SameAppend(OperandUses(o) + OptionalPlaceUses(p, AsmOutput), OperandAccesses(o, span) + OptionalMutate(p, span),
                   AsmUses(operands[1..]), AsmAccesses(operands[1..], span));
      case AsmOther =>
        SameAppend([], [], AsmUses(operands[1..]), AsmAccesses(operands[1..], span));
    }
  }

  // ---------------------------------------------------------------- statements and terminators

  /** The statements that only mention places, without accessing them. */
  predicate OnlyMentions(kind: StatementKind) {
    kind.FakeRead? || kind.PlaceMention? || kind.AscribeUserType? || kind.StorageLive?
  }

  /** The locals that a statement mentions are those it accesses, what it assigns is mutated. */
  lemma StatementSame(stmt: Statement)
    ensures if OnlyMentions(stmt.kind) then StatementAccesses(stmt) == []
            else SameRoles(StatementUses(stmt.kind), StatementAccesses(stmt))
  {
    match stmt.kind
    case Assign(lhs, rhs) =>
      var mutate := MutateAccess(lhs, stmt.span, Shallow(None));
      PlaceSame(lhs, Store, mutate);
      RvalueSame(rhs, stmt.span);
      SameAppend(PlaceUses(lhs, Store), [mutate], RvalueUses(rhs), RvalueAccesses(rhs, stmt.span));
    case Assume(o) => OperandSame(o, stmt.span);
    case StorageDead(l) =>
      assert StatementUses(stmt.kind)[0].local == l && StatementAccesses(stmt)[0].place == LocalPlace(l);
    case _ =>
  }

  /** A terminator whose mentions are not all accessed: `Return` moves out of the return place unchecked, and only
      bounds checks have the operands of their message looked at. */
  predicate MentionsMore(kind: TerminatorKind) {
    kind.Return? || (kind.Assert? && kind.message.OtherMessage?)
  }

  /** The same for terminators; what a call, an inline assembly or a resumption assigns is mutated, and what is dropped
      is accessed by a drop. */
  lemma TerminatorSame(term: Terminator)
    requires !MentionsMore(term.kind)
    ensures SameRoles(TerminatorUses(term.kind), TerminatorAccesses(term))
  {
    match term.kind
    case SwitchInt(o, _) => OperandSame(o, term.span);
    case Drop(p, _, _, _) => PlaceSame(p, DropUse, TerminatorAccesses(term)[0]);
    case Call(f, args, d, _, _) =>
      OperandSame(f, term.span);
      ArgsSame(args);
      PlaceSame(d, CallOutput, MutateAccess(d, term.span, Deep));
      SameAppend(OperandUses(f), OperandAccesses(f, term.span), ArgsUses(args), ArgsAccesses(args));
      SameAppend(OperandUses(f) + ArgsUses(args), OperandAccesses(f, term.span) + ArgsAccesses(args),
                 PlaceUses(d, CallOutput), [MutateAccess(d, term.span, Deep)]);
    case TailCall(f, args) =>
      OperandSame(f, term.span);
      ArgsSame(args);
      SameAppend(OperandUses(f), OperandAccesses(f, term.span), ArgsUses(args), ArgsAccesses(args));
    case Assert(c, m, _, _) =>
      OperandSame(c, term.span);
      OperandsSame([m.len, m.index], term.span);
      SameAppend(OperandUses(c), OperandAccesses(c, term.span), OperandsUses([m.len, m.index]),
                 OperandsAccesses([m.len, m.index], term.span));
    case Yield(v, _, p, _) =>
      OperandSame(v, term.span);
      PlaceSame(p, YieldOutput, MutateAccess(p, term.span, Deep));
      SameAppend(OperandUses(v), OperandAccesses(v, term.span), PlaceUses(p, YieldOutput),
                 [MutateAccess(p, term.span, Deep)]);
    case InlineAsm(os, _, _) => AsmSame(os, term.span);
    case _ =>
  }

  /** Every local that a checked statement or terminator mentions is accessed at its point, and mutated if it is
      assigned. */
  lemma MentionsAreAccessed(cx: CheckCx, p: Location, l: Local)
    requires IsPoint(cx.body, p)
    ensures var data := cx.body.blocks[p.block];
            var uses := if IsTerminatorPoint(cx.body, p) then TerminatorUses(data.terminator.kind)
                        else StatementUses(data.statements[p.index].kind);
            var checked := if IsTerminatorPoint(cx.body, p) then !MentionsMore(data.terminator.kind)
                           else !OnlyMentions(data.statements[p.index].kind);
            checked ==>
              && (Mentioned(uses, l) ==> Accessed(AccessesAt(cx, p), l))
              && (Defined(uses, l) ==> Mutated(AccessesAt(cx, p), l))
              && (Dropped(uses, l) ==> AccessedByDrop(AccessesAt(cx, p), l))
  {
    var data := cx.body.blocks[p.block];
    if IsTerminatorPoint(cx.body, p) {
      if !MentionsMore(data.terminator.kind) {
        TerminatorSame(data.terminator);
        assert SameFor(TerminatorUses(data.terminator.kind), TerminatorAccesses(data.terminator), l);
        AccessesAppend(ActivationAccesses(cx, ActivationsAt(cx.borrowSet.activationMap, p), data.terminator.span),
                       TerminatorAccesses(data.terminator), l);
      }
    } else {
      var stmt := data.statements[p.index];
      StatementSame(stmt);
      if !OnlyMentions(stmt.kind) {
        assert SameFor(StatementUses(stmt.kind), StatementAccesses(stmt), l);
        AccessesAppend(ActivationAccesses(cx, ActivationsAt(cx.borrowSet.activationMap, p), stmt.span),
                       StatementAccesses(stmt), l);
      }
    }
  }
}
