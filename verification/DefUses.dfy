/** What the search for the nearest use finds at one point, told by the places of the statement or terminator: reading
    is a use, assigning a whole local defines it, dropping a whole local drops it. */
module DefUses {
  import opened Mir
  import opened Occurrences
  import opened BorrowSets
  import opened UsedLocals
  import opened UseFinder

  lemma {:induction false} LastOfBoth(u: seq<LocalUse>, v: seq<LocalUse>, ms: set<Local>)
    ensures LastDefUse(u + v, ms) == if LastDefUse(v, ms).Some? then LastDefUse(v, ms) else LastDefUse(u, ms)
    decreases |v|
  {
    if v == [] {
      assert u + v == u;
    } else {
      var n := |v| - 1;
      assert (u + v)[..|u| + n] == u + v[..n] && (u + v)[|u| + n] == v[n];
      LastOfBoth(u, v[..n], ms);
    }
  }

  lemma LastOfOne(u: LocalUse, ms: set<Local>)
    ensures LastDefUse([u], ms) == if u.local in ms then Some(Categorize(u)) else None
  {
    assert [u][..0] == [];
  }

  /** All mentions are plain uses. */
  ghost predicate PlainUses(uses: seq<LocalUse>) {
    forall j :: 0 <= j < |uses| ==> uses[j].context == OtherUse
  }

  /** A use of one of the locals is found, or there is none. */
  ghost predicate FindsUse(found: Option<DefUse>, uses: seq<LocalUse>, ms: set<Local>) {
    match found
    case None => forall l :: l in ms ==> !UsesLocal(uses, l)
    case Some(d) => d.UseLive? && d.local in ms && UsesLocal(uses, d.local)
  }

  lemma {:induction false} LastOfPlain(uses: seq<LocalUse>, ms: set<Local>)
    requires PlainUses(uses)
    ensures FindsUse(LastDefUse(uses, ms), uses, ms)
  {
    if uses != [] {
      var n := |uses| - 1;
      LastOfPlain(uses[..n], ms);
      assert uses == uses[..n] + [uses[n]];
      forall l
        ensures UsesLocal(uses, l) <==> UsesLocal(uses[..n], l) || uses[n].local == l
      {
        UsesLocalAppend(uses[..n], [uses[n]], l);
        OneUses(uses[n], l);
      }
    }
  }

  lemma OperandPlain(o: Operand)
    ensures PlainUses(OperandUses(o))
  {
    if !o.Constant? {
      NoStoreInPlace(o.place);
    }
  }

  lemma {:induction false} OperandsPlain(operands: seq<Operand>)
    ensures PlainUses(OperandsUses(operands))
  {
    if operands != [] {
      OperandPlain(operands[0]);
      OperandsPlain(operands[1..]);
    }
  }

  lemma {:induction false} ArgsPlain(args: seq<(Operand, Span)>)
    ensures PlainUses(ArgsUses(args))
  {
    if args != [] {
      OperandPlain(args[0].0);
      ArgsPlain(args[1..]);
    }
  }

  lemma RvaluePlain(rvalue: Rvalue)
    ensures PlainUses(RvalueUses(rvalue))
  {
    match rvalue
    case Ref(_, _, p) => NoStoreInPlace(p);
    case RawPtr(_, p) => NoStoreInPlace(p);
    case CopyForDeref(p) => NoStoreInPlace(p);
    case Len(p) => NoStoreInPlace(p);
    case Discriminant(p) => NoStoreInPlace(p);
    case Use(o) => OperandPlain(o);
    case BinaryOp(left, right) =>
      OperandPlain(left);
      OperandPlain(right);
    case Aggregate(operands) => OperandsPlain(operands);
    case _ =>
  }

  /** What is found among the mentions of a place that is assigned or dropped. */
  ghost predicate FoundInTarget(found: Option<DefUse>, place: Place, whole: DefUse, ms: set<Local>) {
    if place.projection == [] then found == if place.local in ms then Some(whole) else None
    else
      match found
      case None => forall l :: l in ms ==> !OccursIn(l, place)
      case Some(d) => d.UseLive? && d.local in ms && OccursIn(d.local, place)
  }

  lemma TargetDefUse(place: Place, context: PlaceContext, ms: set<Local>)
    requires context == DropUse || context in {Store, CallOutput, YieldOutput, AsmOutput}
    ensures FoundInTarget(LastDefUse(PlaceUses(place, context), ms), place,
                          if context == DropUse then UseDrop(place.local) else Def, ms)
  {
    if place.projection == [] {
      assert PlaceUses(place, context) == [LocalUse(place.local, context)];
      LastOfOne(LocalUse(place.local, context), ms);
    } else {
      assert PlaceUses(place, context) == PlaceUses(place, OtherUse);
      NoStoreInPlace(place);
      LastOfPlain(PlaceUses(place, context), ms);
      forall l
        ensures UsesLocal(PlaceUses(place, context), l) <==> OccursIn(l, place)
      {
        PlaceUsesAre(place, context, l);
      }
    }
  }

  /** An assignment uses what its right side mentions; if that is nothing of interest, it defines the local it assigns,
      or uses the locals on the way to the part it assigns. */
  lemma AssignDefUse(lhs: Place, rhs: Rvalue, ms: set<Local>)
    ensures var found := LastDefUse(StatementUses(Assign(lhs, rhs)), ms);
            if exists l :: l in ms && OccursInRvalue(l, rhs) then
              && found.Some? && found.value.UseLive? && found.value.local in ms
              && OccursInRvalue(found.value.local, rhs)
            else FoundInTarget(found, lhs, Def, ms)
  {
    LastOfBoth(PlaceUses(lhs, Store), RvalueUses(rhs), ms);
    RvaluePlain(rhs);
    LastOfPlain(RvalueUses(rhs), ms);
    forall l
      ensures UsesLocal(RvalueUses(rhs), l) <==> OccursInRvalue(l, rhs)
    {
      RvalueUsesAre(rhs, l);
    }
    TargetDefUse(lhs, Store, ms);
  }

  /** A call or a resumption defines the local that takes its result; otherwise it uses what it mentions. */
  lemma ResultDefUse(kind: TerminatorKind, place: Place, ms: set<Local>)
    requires (kind.Call? && kind.destination == place) || (kind.Yield? && kind.resumeArg == place)
    ensures var found := LastDefUse(TerminatorUses(kind), ms);
            if place.projection == [] && place.local in ms then found == Some(Def)
            else
              match found
              case None => forall l :: l in ms ==> !TerminatorTouches(kind, l)
              case Some(d) => d.UseLive? && d.local in ms && TerminatorTouches(kind, d.local)
  {
    var context := if kind.Call? then CallOutput else YieldOutput;
    var operands := if kind.Call? then OperandUses(kind.func) + ArgsUses(kind.args) else OperandUses(kind.value);
    LastOfBoth(operands, PlaceUses(place, context), ms);
    if kind.Call? {
      OperandPlain(kind.func);
      ArgsPlain(kind.args);
    } else {
      OperandPlain(kind.value);
    }
    LastOfPlain(operands, ms);
    TargetDefUse(place, context, ms);
    forall l
      ensures TerminatorTouches(kind, l) <==> UsesLocal(operands, l) || OccursIn(l, place)
    {
      TerminatorUsesAre(kind, l);
      UsesLocalAppend(operands, PlaceUses(place, context), l);
      PlaceUsesAre(place, context, l);
    }
  }

  /** Dropping a whole local drops it; dropping a part uses the locals on the way. */
  lemma DropDefUse(kind: TerminatorKind, ms: set<Local>)
    requires kind.Drop?
    ensures FoundInTarget(LastDefUse(TerminatorUses(kind), ms), kind.place, UseDrop(kind.place.local), ms)
  {
    TargetDefUse(kind.place, DropUse, ms);
  }

  /** Any other terminator but inline assembly only uses. */
  lemma OtherDefUse(kind: TerminatorKind, ms: set<Local>)
    requires !kind.Call? && !kind.Yield? && !kind.Drop? && !kind.InlineAsm?
    ensures match LastDefUse(TerminatorUses(kind), ms)
            case None => forall l :: l in ms ==> !TerminatorTouches(kind, l)
            case Some(d) => d.UseLive? && d.local in ms && TerminatorTouches(kind, d.local)
  {
    match kind {
      case SwitchInt(o, _) => OperandPlain(o);
      case TailCall(func, args) =>
        OperandPlain(func);
        ArgsPlain(args);
      case Assert(cond, message, _, _) =>
        OperandPlain(cond);
        OperandsPlain(MessageOperands(message));
      case _ =>
    }
    LastOfPlain(TerminatorUses(kind), ms);
    forall l
      ensures UsesLocal(TerminatorUses(kind), l) <==> TerminatorTouches(kind, l)
    {
      TerminatorUsesAre(kind, l);
    }
  }

  /** The beginning and the end of a local's storage define it. */
  lemma MarkerDefUse(kind: StatementKind, ms: set<Local>)
    requires kind.StorageDead? || kind.StorageLive?
    ensures LastDefUse(StatementUses(kind), ms) == if kind.local in ms then Some(Def) else None
  {
    LastOfOne(LocalUse(kind.local, StorageMarker), ms);
  }
}
