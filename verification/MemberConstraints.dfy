/** The set of member constraints of `member_constraints.rs`: linked lists threaded through one vector, whose links
    are spliced in place when the keys of the set are mapped. */
module MemberConstraints {
  import opened Mir

  datatype MemberConstraint = MemberConstraint(
    next: Option<nat>,
    memberRegion: RegionVid,
    startIndex: nat,
    endIndex: nat)

  // ---------------------------------------------------------------- insertion-ordered maps

  type Entries<R> = seq<(R, nat)>

  function Lookup<R(==)>(entries: Entries<R>, key: R): (value: Option<nat>)
    ensures value.Some? ==> exists e :: 0 <= e < |entries| && entries[e] == (key, value.value)
    ensures value.None? ==> forall e :: 0 <= e < |entries| ==> entries[e].0 != key
  {
    if entries == [] then None
    else if entries[0].0 == key then Some(entries[0].1)
    else Lookup(entries[1..], key)
  }

  /** Inserting keeps the position of a key that is there already. */
  function Insert<R(==)>(entries: Entries<R>, key: R, value: nat): Entries<R> {
    if entries == [] then [(key, value)]
    else if entries[0].0 == key then [(key, value)] + entries[1..]
    else [entries[0]] + Insert(entries[1..], key, value)
  }

  ghost predicate DistinctKeys<R>(entries: Entries<R>) {
    forall d, e :: 0 <= d < e < |entries| ==> entries[d].0 != entries[e].0
  }

  lemma {:induction false} InsertNew<R>(entries: Entries<R>, key: R, value: nat)
    requires forall e :: 0 <= e < |entries| ==> entries[e].0 != key
    ensures Insert(entries, key, value) == entries + [(key, value)]
  {
    if entries != [] {
      InsertNew(entries[1..], key, value);
    }
  }

  lemma {:induction false} InsertAt<R>(entries: Entries<R>, key: R, value: nat, e: nat)
    requires DistinctKeys(entries) && e < |entries| && entries[e].0 == key
    ensures Insert(entries, key, value) == entries[e := (key, value)]
    ensures Lookup(entries, key) == Some(entries[e].1)
  {
    if e > 0 {
      assert entries[1..][e - 1] == entries[e];
      InsertAt(entries[1..], key, value, e - 1);
    }
  }

  /** What was inserted is found first. */
  lemma {:induction false} LookupInserted<R>(entries: Entries<R>, key: R, value: nat)
    ensures Lookup(Insert(entries, key, value), key) == Some(value)
  {
    if entries != [] {
      LookupInserted(entries[1..], key, value);
    }
  }

  // ---------------------------------------------------------------- lists of constraints

  /** `list` is what following the links from `start` yields. */
  ghost predicate Chain(constraints: seq<MemberConstraint>, start: Option<nat>, list: seq<nat>)
    decreases |list|
  {
    match start
    case None => list == []
    case Some(i) =>
      list != [] && list[0] == i && i < |constraints| && Chain(constraints, constraints[i].next, list[1..])
  }

  ghost predicate NoRepeats(list: seq<nat>) {
    forall j, k :: 0 <= j < k < |list| ==> list[j] != list[k]
  }

  ghost predicate SameOn(before: seq<MemberConstraint>, after: seq<MemberConstraint>, list: seq<nat>) {
    |before| <= |after| && forall i :: i in list && i < |before| ==> after[i] == before[i]
  }

  lemma {:induction false} ChainFrame(before: seq<MemberConstraint>, after: seq<MemberConstraint>, start: Option<nat>,
                                      list: seq<nat>)
    requires Chain(before, start, list) && SameOn(before, after, list)
    ensures Chain(after, start, list)
    decreases |list|
  {
    if start.Some? {
      assert list[0] in list;
      ChainFrame(before, after, before[start.value].next, list[1..]);
    }
  }

  lemma Joined(a: seq<nat>, b: seq<nat>)
    ensures forall i :: i in a + b <==> i in a || i in b
    ensures NoRepeats(a) && NoRepeats(b) && (forall i :: i in a ==> i !in b) ==> NoRepeats(a + b)
  {
    if NoRepeats(a) && NoRepeats(b) && forall i :: i in a ==> i !in b {
      forall j, k | 0 <= j < k < |a + b|
        ensures (a + b)[j] != (a + b)[k]
      {
        if j < |a| <= k {
          assert (a + b)[j] in a && (a + b)[k] in b;
        }
      }
    }
  }

  lemma {:induction false} ChainInRange(constraints: seq<MemberConstraint>, start: Option<nat>, list: seq<nat>)
    requires Chain(constraints, start, list)
    ensures forall i :: i in list ==> i < |constraints|
    decreases |list|
  {
    if start.Some? {
      ChainInRange(constraints, constraints[start.value].next, list[1..]);
      assert list == [list[0]] + list[1..];
    }
  }

  /** The link of the k-th element of a list leads to the next one, or nowhere at the end. */
  lemma {:induction false} ChainLink(constraints: seq<MemberConstraint>, start: Option<nat>, list: seq<nat>, k: nat)
    requires Chain(constraints, start, list) && k < |list|
    ensures list[k] < |constraints|
    ensures constraints[list[k]].next == if k + 1 < |list| then Some(list[k + 1]) else None
    decreases |list|
  {
    if k > 0 {
      ChainLink(constraints, constraints[start.value].next, list[1..], k - 1);
    }
  }

  /** Linking the end of one list to the start of another joins them. */
  lemma {:induction false} ChainJoin(before: seq<MemberConstraint>, after: seq<MemberConstraint>, target: Option<nat>,
                                     source: nat, t: seq<nat>, s: seq<nat>, last: nat)
    requires Chain(before, target, t) && Chain(before, Some(source), s)
    requires t != [] && t[|t| - 1] == last < |before|
    requires NoRepeats(t) && last !in s
    requires after == before[last := before[last].(next := Some(source))]
    ensures Chain(after, target, t + s)
    decreases |t|
  {
    var i := target.value;
    ChainFrame(before, after, Some(source), s);
    if |t| == 1 {
      assert t + s == [i] + s;
    } else {
      ChainJoin(before, after, before[i].next, source, t[1..], s, last);
      assert (t + s)[1..] == t[1..] + s;
      assert after[i] == before[i];
    }
  }

  // ---------------------------------------------------------------- what a set holds

  /** The indices of constraints for which the entry of `key` stands: those of its member regions. */
  ghost predicate Holds<R>(constraints: seq<MemberConstraint>, keyOf: RegionVid -> R, key: R, list: seq<nat>) {
    && NoRepeats(list)
    && forall i: nat :: i in list <==> i < |constraints| && keyOf(constraints[i].memberRegion) == key
  }

  ghost predicate EntryValid<R>(constraints: seq<MemberConstraint>, keyOf: RegionVid -> R, entry: (R, nat),
                                list: seq<nat>) {
    Chain(constraints, Some(entry.1), list) && Holds(constraints, keyOf, entry.0, list)
  }

  ghost predicate SlicesInRange(constraints: seq<MemberConstraint>, n: nat) {
    forall i :: 0 <= i < |constraints| ==> constraints[i].startIndex <= constraints[i].endIndex <= n
  }

  ghost predicate HasKey<R>(entries: Entries<R>, key: R) {
    exists e :: 0 <= e < |entries| && entries[e].0 == key
  }

  /** Every key has a list of its own, and the lists partition the constraints by the key of their member region. */
  ghost predicate Partition<R>(entries: Entries<R>, constraints: seq<MemberConstraint>, lists: seq<seq<nat>>,
                               keyOf: RegionVid -> R) {
    && |lists| == |entries|
    && DistinctKeys(entries)
    && (forall e :: 0 <= e < |lists| ==> EntryValid(constraints, keyOf, entries[e], lists[e]))
    && (forall i :: 0 <= i < |constraints| ==> HasKey(entries, keyOf(constraints[i].memberRegion)))
  }

  lemma ListOf<R>(entries: Entries<R>, constraints: seq<MemberConstraint>, lists: seq<seq<nat>>, keyOf: RegionVid -> R,
                  key: R)
    returns (list: seq<nat>)
    requires Partition(entries, constraints, lists, keyOf)
    ensures Chain(constraints, Lookup(entries, key), list) && Holds(constraints, keyOf, key, list)
  {
    if Lookup(entries, key).Some? {
      var e :| 0 <= e < |entries| && entries[e] == (key, Lookup(entries, key).value);
      assert EntryValid(constraints, keyOf, entries[e], lists[e]);
      list := lists[e];
    } else {
      list := [];
      forall i | 0 <= i < |constraints|
        ensures keyOf(constraints[i].memberRegion) != key
      {
        assert HasKey(entries, keyOf(constraints[i].memberRegion));
      }
    }
  }

  /** The choice regions of a constraint. */
  function Slice(choiceRegions: seq<RegionVid>, c: MemberConstraint): seq<RegionVid>
    requires c.startIndex <= c.endIndex <= |choiceRegions|
  {
    choiceRegions[c.startIndex..c.endIndex]
  }

  class MemberConstraintSet<R(==)> {
    var firstConstraints: Entries<R>
    var constraints: seq<MemberConstraint>
    var choiceRegions: seq<RegionVid>
    ghost var lists: seq<seq<nat>>
    ghost const keyOf: RegionVid -> R

    ghost predicate Valid()
      reads this
    {
      Partition(firstConstraints, constraints, lists, keyOf) && SlicesInRange(constraints, |choiceRegions|)
    }

    constructor Empty(ghost keyOf: RegionVid -> R)
      ensures Valid() && this.keyOf == keyOf
      ensures firstConstraints == [] && constraints == [] && choiceRegions == []
    {
      this.firstConstraints, this.constraints, this.choiceRegions, this.lists := [], [], [], [];
      this.keyOf := keyOf;
    }

    constructor FromParts(first: Entries<R>, constraints: seq<MemberConstraint>, choiceRegions: seq<RegionVid>,
                          ghost lists: seq<seq<nat>>, ghost keyOf: RegionVid -> R)
      ensures firstConstraints == first && this.constraints == constraints && this.choiceRegions == choiceRegions
      ensures this.lists == lists && this.keyOf == keyOf
    {
      this.firstConstraints, this.constraints, this.choiceRegions := first, constraints, choiceRegions;
      this.lists, this.keyOf := lists, keyOf;
    }

    function ChoiceRegions(i: nat): seq<RegionVid>
      reads this
      requires Valid() && i < |constraints|
    {
      Slice(choiceRegions, constraints[i])
    }

    /** Follows the links of the list of `key`: exactly the constraints whose member region has that key, each once. */
    method Indices(key: R) returns (list: seq<nat>)
      requires Valid()
      ensures Holds(constraints, keyOf, key, list)
    {
      list := [];
      var next := Lookup(firstConstraints, key);
      ghost var all := ListOf(firstConstraints, constraints, lists, keyOf, key);
      ghost var rest := all;
      while next.Some?
        invariant Chain(constraints, next, rest)
        invariant list + rest == all
        decreases |rest|
      {
        list := list + [next.value];
        next := constraints[next.value].next;
        rest := rest[1..];
      }
      assert list == all;
    }
  }

  function Identity(): RegionVid -> RegionVid {
    (r: RegionVid) => r
  }

  // ---------------------------------------------------------------- pushing

  lemma EntryGrows(constraints: seq<MemberConstraint>, c: MemberConstraint, entry: (RegionVid, nat), list: seq<nat>)
    requires EntryValid(constraints, Identity(), entry, list)
    requires c.memberRegion == entry.0 && c.next == Some(entry.1)
    ensures EntryValid(constraints + [c], Identity(), (entry.0, |constraints|), [|constraints|] + list)
  {
    ChainInRange(constraints, Some(entry.1), list);
    ChainFrame(constraints, constraints + [c], Some(entry.1), list);
    assert ([|constraints|] + list)[1..] == list;
    Joined([|constraints|], list);
  }

  lemma EntryStays(constraints: seq<MemberConstraint>, c: MemberConstraint, entry: (RegionVid, nat), list: seq<nat>)
    requires EntryValid(constraints, Identity(), entry, list)
    requires c.memberRegion != entry.0
    ensures EntryValid(constraints + [c], Identity(), entry, list)
  {
    ChainInRange(constraints, Some(entry.1), list);
    ChainFrame(constraints, constraints + [c], Some(entry.1), list);
  }

  /** Pushing onto the list of a region that has one already. */
  lemma PushOntoList(entries: Entries<RegionVid>, constraints: seq<MemberConstraint>, lists: seq<seq<nat>>,
                     c: MemberConstraint, e: nat)
    requires Partition(entries, constraints, lists, Identity())
    requires e < |entries| && entries[e] == (c.memberRegion, entries[e].1) && c.next == Some(entries[e].1)
    ensures Partition(entries[e := (c.memberRegion, |constraints|)], constraints + [c],
                      lists[e := [|constraints|] + lists[e]], Identity())
  {
    var entries', lists' := entries[e := (c.memberRegion, |constraints|)], lists[e := [|constraints|] + lists[e]];
    assert EntryValid(constraints, Identity(), entries[e], lists[e]);
    EntryGrows(constraints, c, entries[e], lists[e]);
    forall d | 0 <= d < |lists|
      ensures EntryValid(constraints + [c], Identity(), entries'[d], lists'[d])
    {
      if d != e {
        assert EntryValid(constraints, Identity(), entries[d], lists[d]);
        EntryStays(constraints, c, entries[d], lists[d]);
      }
    }
    forall i | 0 <= i < |constraints + [c]|
      ensures HasKey(entries', (constraints + [c])[i].memberRegion)
    {
      if i < |constraints| {
        assert HasKey(entries, Identity()(constraints[i].memberRegion));
        var d :| 0 <= d < |entries| && entries[d].0 == constraints[i].memberRegion;
        assert entries'[d].0 == entries[d].0;
      } else {
        assert entries'[e].0 == c.memberRegion;
      }
    }
  }

  /** Pushing the first constraint of a region. */
  lemma PushNewList(entries: Entries<RegionVid>, constraints: seq<MemberConstraint>, lists: seq<seq<nat>>,
                    c: MemberConstraint)
    requires Partition(entries, constraints, lists, Identity())
    requires !HasKey(entries, c.memberRegion) && c.next == None
    ensures Partition(entries + [(c.memberRegion, |constraints|)], constraints + [c], lists + [[|constraints|]],
                      Identity())
  {
    var entries', lists', after := entries + [(c.memberRegion, |constraints|)], lists + [[|constraints|]],
        constraints + [c];
    forall d | 0 <= d < |lists'|
      ensures EntryValid(after, Identity(), entries'[d], lists'[d])
    {
      if d < |lists| {
        assert EntryValid(constraints, Identity(), entries[d], lists[d]);
        EntryStays(constraints, c, entries[d], lists[d]);
      } else {
        assert Chain(after, None, [|constraints|][1..]);
        forall i | 0 <= i < |constraints|
          ensures constraints[i].memberRegion != c.memberRegion
        {
          assert HasKey(entries, Identity()(constraints[i].memberRegion));
        }
      }
    }
    forall i | 0 <= i < |after|
      ensures HasKey(entries', after[i].memberRegion)
    {
      if i < |constraints| {
        assert HasKey(entries, Identity()(constraints[i].memberRegion));
        var d :| 0 <= d < |entries| && entries[d].0 == constraints[i].memberRegion;
        assert entries'[d].0 == entries[d].0;
      } else {
        assert entries'[|entries|].0 == c.memberRegion;
      }
    }
  }

  lemma Pushed(entries: Entries<RegionVid>, constraints: seq<MemberConstraint>, lists: seq<seq<nat>>,
               c: MemberConstraint)
    returns (lists': seq<seq<nat>>)
    requires Partition(entries, constraints, lists, Identity())
    requires c.next == Lookup(entries, c.memberRegion)
    ensures Partition(Insert(entries, c.memberRegion, |constraints|), constraints + [c], lists', Identity())
  {
    if c.next.Some? {
      var e :| 0 <= e < |entries| && entries[e] == (c.memberRegion, c.next.value);
      InsertAt(entries, c.memberRegion, |constraints|, e);
      PushOntoList(entries, constraints, lists, c, e);
      lists' := lists[e := [|constraints|] + lists[e]];
    } else {
      InsertNew(entries, c.memberRegion, |constraints|);
      PushNewList(entries, constraints, lists, c);
      lists' := lists + [[|constraints|]];
    }
  }

  /** The choice regions of the new constraint are appended to those of the others. */
  lemma PushedSlices(constraints: seq<MemberConstraint>, c: MemberConstraint, before: seq<RegionVid>,
                     choices: seq<RegionVid>)
    requires SlicesInRange(constraints, |before|)
    requires c.startIndex == |before| && c.endIndex == |before| + |choices|
    ensures SlicesInRange(constraints + [c], |before + choices|)
    ensures forall i :: 0 <= i < |constraints| ==>
              Slice(before + choices, (constraints + [c])[i]) == Slice(before, constraints[i])
    ensures Slice(before + choices, c) == choices
  {
  }

  /** Pushes a constraint in front of the list of its member region. */
  method PushConstraint(s: MemberConstraintSet<RegionVid>, memberRegion: RegionVid, choices: seq<RegionVid>)
    requires s.Valid() && s.keyOf == Identity()
    modifies s
    ensures s.Valid()
    ensures |s.constraints| == |old(s.constraints)| + 1
    ensures forall i :: 0 <= i < |old(s.constraints)| ==>
              s.constraints[i] == old(s.constraints)[i] && s.ChoiceRegions(i) == old(s.ChoiceRegions(i))
    ensures s.constraints[|old(s.constraints)|].memberRegion == memberRegion
    ensures s.ChoiceRegions(|old(s.constraints)|) == choices
    ensures s.firstConstraints == Insert(old(s.firstConstraints), memberRegion, |old(s.constraints)|)
    ensures s.constraints[|old(s.constraints)|].next == old(Lookup(s.firstConstraints, memberRegion))
  {
    var next := Lookup(s.firstConstraints, memberRegion);
    var startIndex := |s.choiceRegions|;
    var constraint := MemberConstraint(next, memberRegion, startIndex, startIndex + |choices|);
    PushedSlices(s.constraints, constraint, s.choiceRegions, choices);
    s.lists := Pushed(s.firstConstraints, s.constraints, s.lists, constraint);
    s.firstConstraints := Insert(s.firstConstraints, memberRegion, |s.constraints|);
    s.constraints := s.constraints + [constraint];
    s.choiceRegions := s.choiceRegions + choices;
  }

  // ---------------------------------------------------------------- mapping the keys

  /** Makes the list starting at `source` follow the list starting at `target`. */
  method AppendList(constraints: array<MemberConstraint>, target: nat, source: nat, ghost t: seq<nat>)
    requires Chain(constraints[..], Some(target), t)
    modifies constraints
    ensures Linked(old(constraints[..]), constraints[..], t, Some(source))
  {
    var p := target;
    ghost var k := 0;
    ChainLink(constraints[..], Some(target), t, 0);
    while constraints[p].next.Some?
      invariant k < |t| && t[k] == p && p < constraints.Length
      invariant constraints[..] == old(constraints[..])
      decreases |t| - k
    {
      ChainLink(constraints[..], Some(target), t, k);
      p := constraints[p].next.value;
      k := k + 1;
      ChainLink(constraints[..], Some(target), t, k);
    }
    ChainLink(constraints[..], Some(target), t, k);
    constraints[p] := constraints[p].(next := Some(source));
  }

  /** The lists of the first `n` entries whose key maps to `key`, those of later entries first. */
  ghost function Merged<R, S>(entries: Entries<R>, lists: seq<seq<nat>>, f: R -> S, key: S, n: nat): seq<nat>
    requires n <= |entries| == |lists|
  {
    if n == 0 then []
    else if f(entries[n - 1].0) == key then lists[n - 1] + Merged(entries, lists, f, key, n - 1)
    else Merged(entries, lists, f, key, n - 1)
  }

  lemma {:induction false} MergedMembers<R, S>(entries: Entries<R>, lists: seq<seq<nat>>, f: R -> S, key: S, n: nat)
    requires n <= |entries| == |lists|
    ensures forall i :: i in Merged(entries, lists, f, key, n) <==>
              exists e :: 0 <= e < n && f(entries[e].0) == key && i in lists[e]
  {
    if n > 0 {
      MergedMembers(entries, lists, f, key, n - 1);
      forall i
        ensures i in Merged(entries, lists, f, key, n) <==>
                  exists e :: 0 <= e < n && f(entries[e].0) == key && i in lists[e]
      {
        if i in Merged(entries, lists, f, key, n - 1) {
          var e :| 0 <= e < n - 1 && f(entries[e].0) == key && i in lists[e];
        }
      }
    }
  }

  /** The lists of different keys have nothing in common. */
  lemma ListsDisjoint<R>(entries: Entries<R>, constraints: seq<MemberConstraint>, lists: seq<seq<nat>>,
                         keyOf: RegionVid -> R, d: nat, e: nat)
    requires Partition(entries, constraints, lists, keyOf) && d < |lists| && e < |lists| && d != e
    ensures forall i :: i in lists[d] ==> i !in lists[e]
  {
    assert EntryValid(constraints, keyOf, entries[d], lists[d]) && EntryValid(constraints, keyOf, entries[e], lists[e]);
  }

  lemma MergedAvoids<R, S>(entries: Entries<R>, constraints: seq<MemberConstraint>, lists: seq<seq<nat>>,
                           keyOf: RegionVid -> R, f: R -> S, key: S, n: nat)
    requires Partition(entries, constraints, lists, keyOf) && n < |lists|
    ensures forall i :: i in lists[n] ==> i !in Merged(entries, lists, f, key, n)
  {
    MergedMembers(entries, lists, f, key, n);
    forall i | i in Merged(entries, lists, f, key, n)
      ensures i !in lists[n]
    {
      var e :| 0 <= e < n && f(entries[e].0) == key && i in lists[e];
      ListsDisjoint(entries, constraints, lists, keyOf, e, n);
    }
  }

  lemma ListNoRepeats<R>(entries: Entries<R>, constraints: seq<MemberConstraint>, lists: seq<seq<nat>>,
                         keyOf: RegionVid -> R, n: nat)
    requires Partition(entries, constraints, lists, keyOf) && n < |lists|
    ensures NoRepeats(lists[n])
  {
    assert EntryValid(constraints, keyOf, entries[n], lists[n]);
  }

  lemma {:induction false} MergedNoRepeats<R, S>(entries: Entries<R>, constraints: seq<MemberConstraint>,
                                                 lists: seq<seq<nat>>, keyOf: RegionVid -> R, f: R -> S, key: S, n: nat)
    requires Partition(entries, constraints, lists, keyOf) && n <= |lists|
    ensures NoRepeats(Merged(entries, lists, f, key, n))
  {
    if n > 0 {
      MergedNoRepeats(entries, constraints, lists, keyOf, f, key, n - 1);
      MergedAvoids(entries, constraints, lists, keyOf, f, key, n - 1);
      ListNoRepeats(entries, constraints, lists, keyOf, n - 1);
      Joined(lists[n - 1], Merged(entries, lists, f, key, n - 1));
    }
  }

  ghost predicate SameButLinks(before: seq<MemberConstraint>, after: seq<MemberConstraint>) {
    && |after| == |before|
    && forall i :: 0 <= i < |before| ==> after[i] == before[i].(next := after[i].next)
  }

  /** The state of the mapping after `n` entries: the merged lists are in place, and the lists still to come are
      untouched. */
  ghost predicate Mapping<R, S>(entries: Entries<R>, constraints: seq<MemberConstraint>, lists: seq<seq<nat>>,
                                f: R -> S, after: seq<MemberConstraint>, entries2: Entries<S>, n: nat)
    requires n <= |entries| == |lists|
  {
    && SameButLinks(constraints, after)
    && MergedInPlace(entries, lists, f, after, entries2, n)
    && LaterInPlace(entries, lists, after, n)
    && KeysMatch(entries, f, entries2, n)
  }

  ghost predicate MergedAt<R, S>(entries: Entries<R>, lists: seq<seq<nat>>, f: R -> S, after: seq<MemberConstraint>,
                                 entry: (S, nat), n: nat)
    requires n <= |entries| == |lists|
  {
    Chain(after, Some(entry.1), Merged(entries, lists, f, entry.0, n))
  }

  ghost predicate MergedInPlace<R, S>(entries: Entries<R>, lists: seq<seq<nat>>, f: R -> S,
                                      after: seq<MemberConstraint>, entries2: Entries<S>, n: nat)
    requires n <= |entries| == |lists|
  {
    forall e :: 0 <= e < |entries2| ==> MergedAt(entries, lists, f, after, entries2[e], n)
  }

  ghost predicate LaterInPlace<R>(entries: Entries<R>, lists: seq<seq<nat>>, after: seq<MemberConstraint>, n: nat)
    requires |entries| == |lists|
  {
    forall e :: n <= e < |entries| ==> Chain(after, Some(entries[e].1), lists[e])
  }

  /** The new keys are those that the first `n` keys map to. */
  ghost predicate KeysMatch<R, S>(entries: Entries<R>, f: R -> S, entries2: Entries<S>, n: nat)
    requires n <= |entries|
  {
    && DistinctKeys(entries2)
    && forall e :: 0 <= e < n ==> HasKey(entries2, f(entries[e].0))
  }

  lemma MergedOther<R, S>(entries: Entries<R>, constraints: seq<MemberConstraint>, lists: seq<seq<nat>>,
                          keyOf: RegionVid -> R, f: R -> S, before: seq<MemberConstraint>, after: seq<MemberConstraint>,
                          entry: (S, nat), n: nat, last: nat)
    requires Partition(entries, constraints, lists, keyOf) && n < |entries|
    requires MergedAt(entries, lists, f, before, entry, n) && entry.0 != f(entries[n].0)
    requires last < |before| == |after| && last in lists[n]
    requires forall i :: 0 <= i < |before| && i != last ==> after[i] == before[i]
    ensures MergedAt(entries, lists, f, after, entry, n + 1)
  {
    var list := Merged(entries, lists, f, entry.0, n);
    MergedAvoids(entries, constraints, lists, keyOf, f, entry.0, n);
    ChainFrame(before, after, Some(entry.1), list);
    assert Merged(entries, lists, f, entry.0, n + 1) == list;
  }

  lemma MergedJoined<R, S>(entries: Entries<R>, constraints: seq<MemberConstraint>, lists: seq<seq<nat>>,
                           keyOf: RegionVid -> R, f: R -> S, before: seq<MemberConstraint>,
                           after: seq<MemberConstraint>, entry: (S, nat), n: nat, last: nat)
    requires Partition(entries, constraints, lists, keyOf) && n < |entries|
    requires MergedAt(entries, lists, f, before, entry, n) && entry.0 == f(entries[n].0)
    requires Chain(before, Some(entries[n].1), lists[n])
    requires lists[n] != [] && lists[n][|lists[n]| - 1] == last < |before|
    requires after == before[last := before[last].(next := Some(entry.1))]
    ensures MergedAt(entries, lists, f, after, (entry.0, entries[n].1), n + 1)
  {
    var list := Merged(entries, lists, f, entry.0, n);
    assert EntryValid(constraints, keyOf, entries[n], lists[n]);
    MergedAvoids(entries, constraints, lists, keyOf, f, entry.0, n);
    assert last in lists[n];
    ChainJoin(before, after, Some(entries[n].1), entry.1, lists[n], list, last);
    assert Merged(entries, lists, f, entry.0, n + 1) == lists[n] + list;
  }

  /** Mapping entry `n` to a key that has been seen already: its list goes in front of the merged one. */
  lemma MapOntoSeen<R, S>(entries: Entries<R>, constraints: seq<MemberConstraint>, lists: seq<seq<nat>>,
                          keyOf: RegionVid -> R, f: R -> S, before: seq<MemberConstraint>, after: seq<MemberConstraint>,
                          entries2: Entries<S>, n: nat, e: nat)
    requires Partition(entries, constraints, lists, keyOf) && n < |entries|
    requires Mapping(entries, constraints, lists, f, before, entries2, n)
    requires e < |entries2| && entries2[e].0 == f(entries[n].0)
    requires lists[n] != [] && lists[n][|lists[n]| - 1] < |before|
    requires var last := lists[n][|lists[n]| - 1]; after == before[last := before[last].(next := Some(entries2[e].1))]
    ensures Mapping(entries, constraints, lists, f, after, entries2[e := (entries2[e].0, entries[n].1)], n + 1)
  {
    var key, last := entries2[e].0, lists[n][|lists[n]| - 1];
    var entries2' := entries2[e := (key, entries[n].1)];
    assert last in lists[n];
    forall d | 0 <= d < |entries2'|
      ensures MergedAt(entries, lists, f, after, entries2'[d], n + 1)
    {
      assert MergedAt(entries, lists, f, before, entries2[d], n);
      if d == e {
        MergedJoined(entries, constraints, lists, keyOf, f, before, after, entries2[e], n, last);
      } else {
        MergedOther(entries, constraints, lists, keyOf, f, before, after, entries2[d], n, last);
      }
    }
    LaterUntouched(entries, constraints, lists, keyOf, before, after, n, last);
    SeenKeys(entries, f, entries2, entries2', n);
  }

  lemma LaterUntouched<R>(entries: Entries<R>, constraints: seq<MemberConstraint>, lists: seq<seq<nat>>,
                          keyOf: RegionVid -> R, before: seq<MemberConstraint>, after: seq<MemberConstraint>, n: nat,
                          last: nat)
    requires Partition(entries, constraints, lists, keyOf) && n < |entries|
    requires LaterInPlace(entries, lists, before, n)
    requires last < |before| == |after| && last in lists[n]
    requires forall i :: 0 <= i < |before| && i != last ==> after[i] == before[i]
    ensures LaterInPlace(entries, lists, after, n + 1)
  {
    forall d | n + 1 <= d < |entries|
      ensures Chain(after, Some(entries[d].1), lists[d])
    {
      ListsDisjoint(entries, constraints, lists, keyOf, n, d);
      ChainFrame(before, after, Some(entries[d].1), lists[d]);
    }
  }

  lemma SeenKeys<R, S>(entries: Entries<R>, f: R -> S, entries2: Entries<S>, entries2': Entries<S>, n: nat)
    requires n < |entries| && |entries2'| >= |entries2|
    requires forall e :: 0 <= e < |entries2| ==> entries2'[e].0 == entries2[e].0
    requires DistinctKeys(entries2') && HasKey(entries2', f(entries[n].0))
    requires KeysMatch(entries, f, entries2, n)
    ensures KeysMatch(entries, f, entries2', n + 1)
  {
    forall e | 0 <= e < n + 1
      ensures HasKey(entries2', f(entries[e].0))
    {
      if e < n {
        assert HasKey(entries2, f(entries[e].0));
        var d :| 0 <= d < |entries2| && entries2[d].0 == f(entries[e].0);
        assert entries2'[d].0 == entries2[d].0;
      }
    }
  }

  /** Mapping entry `n` to a new key: its list becomes the list of that key. */
  lemma MapToNew<R, S>(entries: Entries<R>, constraints: seq<MemberConstraint>, lists: seq<seq<nat>>,
                       keyOf: RegionVid -> R, f: R -> S, after: seq<MemberConstraint>, entries2: Entries<S>, n: nat)
    requires Partition(entries, constraints, lists, keyOf) && n < |entries|
    requires Mapping(entries, constraints, lists, f, after, entries2, n)
    requires forall e :: 0 <= e < |entries2| ==> entries2[e].0 != f(entries[n].0)
    ensures Mapping(entries, constraints, lists, f, after, entries2 + [(f(entries[n].0), entries[n].1)], n + 1)
  {
    var key := f(entries[n].0);
    var entries2' := entries2 + [(key, entries[n].1)];
    forall d | 0 <= d < |entries2'|
      ensures MergedAt(entries, lists, f, after, entries2'[d], n + 1)
    {
      if d < |entries2| {
        MergedSkip(entries, lists, f, after, entries2[d], n);
      } else {
        MergedStart(entries, lists, f, after, entries2, key, n);
      }
    }
    assert entries2'[|entries2|].0 == key;
    SeenKeys(entries, f, entries2, entries2', n);
  }

  lemma MergedSkip<R, S>(entries: Entries<R>, lists: seq<seq<nat>>, f: R -> S, after: seq<MemberConstraint>,
                         entry: (S, nat), n: nat)
    requires n < |entries| == |lists|
    requires MergedAt(entries, lists, f, after, entry, n) && entry.0 != f(entries[n].0)
    ensures MergedAt(entries, lists, f, after, entry, n + 1)
  {
    var list := Merged(entries, lists, f, entry.0, n);
    assert Merged(entries, lists, f, entry.0, n + 1) == list;
  }

  lemma MergedStart<R, S>(entries: Entries<R>, lists: seq<seq<nat>>, f: R -> S, after: seq<MemberConstraint>,
                          entries2: Entries<S>, key: S, n: nat)
    requires n < |entries| == |lists| && key == f(entries[n].0)
    requires KeysMatch(entries, f, entries2, n) && LaterInPlace(entries, lists, after, n)
    requires forall e :: 0 <= e < |entries2| ==> entries2[e].0 != key
    ensures MergedAt(entries, lists, f, after, (key, entries[n].1), n + 1)
  {
    NothingMerged(entries, lists, f, entries2, key, n);
    assert Merged(entries, lists, f, key, n + 1) == lists[n] + [] == lists[n];
  }

  /** The end of `list` has been linked to `target`, if there is one. */
  ghost predicate Linked(before: seq<MemberConstraint>, after: seq<MemberConstraint>, list: seq<nat>,
                         target: Option<nat>) {
    match target
    case Some(start2) =>
      && list != [] && list[|list| - 1] < |before|
      && var last := list[|list| - 1];
         after == before[last := before[last].(next := Some(start2))]
    case None => after == before
  }

  lemma EntryInPlace<R, S>(entries: Entries<R>, constraints: seq<MemberConstraint>, lists: seq<seq<nat>>, f: R -> S,
                           after: seq<MemberConstraint>, entries2: Entries<S>, n: nat)
    requires n < |entries| == |lists| && Mapping(entries, constraints, lists, f, after, entries2, n)
    ensures Chain(after, Some(entries[n].1), lists[n])
  {
  }

  /** One entry is mapped: either its list is appended to, or it starts a new one. */
  lemma MapStep<R, S>(entries: Entries<R>, constraints: seq<MemberConstraint>, lists: seq<seq<nat>>,
                      keyOf: RegionVid -> R, f: R -> S, before: seq<MemberConstraint>, after: seq<MemberConstraint>,
                      entries2: Entries<S>, n: nat)
    requires Partition(entries, constraints, lists, keyOf) && n < |entries|
    requires Mapping(entries, constraints, lists, f, before, entries2, n)
    requires Linked(before, after, lists[n], Lookup(entries2, f(entries[n].0)))
    ensures Mapping(entries, constraints, lists, f, after, Insert(entries2, f(entries[n].0), entries[n].1), n + 1)
  {
    var key := f(entries[n].0);
    match Lookup(entries2, key)
    case Some(start2) =>
      var e :| 0 <= e < |entries2| && entries2[e] == (key, start2);
      MapOntoSeen(entries, constraints, lists, keyOf, f, before, after, entries2, n, e);
      InsertAt(entries2, key, entries[n].1, e);
    case None =>
      MapToNew(entries, constraints, lists, keyOf, f, after, entries2, n);
      InsertNew(entries2, key, entries[n].1);
  }

  lemma {:induction false} NothingMerged<R, S>(entries: Entries<R>, lists: seq<seq<nat>>, f: R -> S,
                                               entries2: Entries<S>, key: S, n: nat)
    requires n <= |entries| == |lists|
    requires forall e :: 0 <= e < n ==> HasKey(entries2, f(entries[e].0))
    requires forall e :: 0 <= e < |entries2| ==> entries2[e].0 != key
    ensures Merged(entries, lists, f, key, n) == []
  {
    if n > 0 {
      NothingMerged(entries, lists, f, entries2, key, n - 1);
      assert HasKey(entries2, f(entries[n - 1].0));
    }
  }

  /** When all entries have been mapped, the merged lists partition the constraints by their mapped keys. */
  lemma MappedPartition<R, S>(entries: Entries<R>, constraints: seq<MemberConstraint>, lists: seq<seq<nat>>,
                              keyOf: RegionVid -> R, f: R -> S, keyOf2: RegionVid -> S, after: seq<MemberConstraint>,
                              entries2: Entries<S>)
    returns (lists2: seq<seq<nat>>)
    requires Partition(entries, constraints, lists, keyOf)
    requires Mapping(entries, constraints, lists, f, after, entries2, |entries|)
    requires forall r :: keyOf2(r) == f(keyOf(r))
    ensures Partition(entries2, after, lists2, keyOf2)
  {
    lists2 := seq(|entries2|, e requires 0 <= e < |entries2| => Merged(entries, lists, f, entries2[e].0, |entries|));
    forall e | 0 <= e < |entries2|
      ensures EntryValid(after, keyOf2, entries2[e], lists2[e])
    {
      assert MergedAt(entries, lists, f, after, entries2[e], |entries|);
      MergedHolds(entries, constraints, lists, keyOf, f, keyOf2, after, entries2[e].0);
    }
    forall i | 0 <= i < |after|
      ensures HasKey(entries2, keyOf2(after[i].memberRegion))
    {
      MappedHasKey(entries, constraints, lists, keyOf, f, entries2, constraints[i].memberRegion, i);
    }
  }

  lemma MappedHasKey<R, S>(entries: Entries<R>, constraints: seq<MemberConstraint>, lists: seq<seq<nat>>,
                           keyOf: RegionVid -> R, f: R -> S, entries2: Entries<S>, r: RegionVid, i: nat)
    requires Partition(entries, constraints, lists, keyOf) && i < |constraints| && constraints[i].memberRegion == r
    requires KeysMatch(entries, f, entries2, |entries|)
    ensures HasKey(entries2, f(keyOf(r)))
  {
    assert HasKey(entries, keyOf(constraints[i].memberRegion));
    var e :| 0 <= e < |entries| && entries[e].0 == keyOf(r);
    assert HasKey(entries2, f(entries[e].0));
  }

  lemma MergedHolds<R, S>(entries: Entries<R>, constraints: seq<MemberConstraint>, lists: seq<seq<nat>>,
                          keyOf: RegionVid -> R, f: R -> S, keyOf2: RegionVid -> S, after: seq<MemberConstraint>,
                          key: S)
    requires Partition(entries, constraints, lists, keyOf) && SameButLinks(constraints, after)
    requires forall r :: keyOf2(r) == f(keyOf(r))
    ensures Holds(after, keyOf2, key, Merged(entries, lists, f, key, |entries|))
  {
    var list := Merged(entries, lists, f, key, |entries|);
    MergedMembers(entries, lists, f, key, |entries|);
    MergedNoRepeats(entries, constraints, lists, keyOf, f, key, |entries|);
    forall i: nat
      ensures i in list <==> i < |after| && keyOf2(after[i].memberRegion) == key
    {
      if i in list {
        var e :| 0 <= e < |entries| && f(entries[e].0) == key && i in lists[e];
        assert EntryValid(constraints, keyOf, entries[e], lists[e]);
        assert after[i].memberRegion == constraints[i].memberRegion;
      }
      if i < |after| && keyOf2(after[i].memberRegion) == key {
        assert after[i].memberRegion == constraints[i].memberRegion;
        assert HasKey(entries, keyOf(constraints[i].memberRegion));
        var e :| 0 <= e < |entries| && entries[e].0 == keyOf(constraints[i].memberRegion);
        assert EntryValid(constraints, keyOf, entries[e], lists[e]);
        assert i in lists[e];
      }
    }
  }

  /** Remaps the keys. Where several keys are mapped to one, their lists are appended by rewriting links; afterwards the
      set holds, for each new key, exactly the constraints whose old key maps to it, and every constraint still has its
      choice regions. */
  method IntoMapped<R(==), S(==)>(s: MemberConstraintSet<R>, f: R -> S) returns (mapped: MemberConstraintSet<S>)
    requires s.Valid()
    ensures fresh(mapped) && mapped.Valid()
    ensures forall r :: mapped.keyOf(r) == f(s.keyOf(r))
    ensures SameButLinks(s.constraints, mapped.constraints)
    ensures forall i :: 0 <= i < |s.constraints| ==> mapped.ChoiceRegions(i) == s.ChoiceRegions(i)
  {
    ghost var keyOf2 := (r: RegionVid) => f(s.keyOf(r));
    var constraints := new MemberConstraint[|s.constraints|](
      i requires 0 <= i < |s.constraints| reads s => s.constraints[i]);
    assert constraints[..] == s.constraints;
    var first2 := MapLists(s.firstConstraints, constraints, f, s.lists, s.keyOf);
    ghost var lists2 := MappedPartition(s.firstConstraints, s.constraints, s.lists, s.keyOf, f, keyOf2, constraints[..],
                                        first2);
    mapped := new MemberConstraintSet<S>.FromParts(first2, constraints[..], s.choiceRegions, lists2, keyOf2);
  }

  /** The loop of the mapping, over the links in place. */
  method MapLists<R(==), S(==)>(entries: Entries<R>, constraints: array<MemberConstraint>, f: R -> S,
                                ghost lists: seq<seq<nat>>, ghost keyOf: RegionVid -> R) returns (first2: Entries<S>)
    requires Partition(entries, constraints[..], lists, keyOf)
    modifies constraints
    ensures Mapping(entries, old(constraints[..]), lists, f, constraints[..], first2, |entries|)
  {
    first2 := [];
    ghost var cs := constraints[..];
    StartMapping(entries, cs, lists, keyOf, f);
    var k := 0;
    while k < |entries|
      invariant k <= |entries|
      invariant Mapping(entries, cs, lists, f, constraints[..], first2, k)
    {
      first2 := MapEntry(entries, constraints, f, first2, k, cs, lists, keyOf);
      k := k + 1;
    }
  }

  /** One round of the loop: a list whose new key has one already is linked to it. */
  method MapEntry<R(==), S(==)>(entries: Entries<R>, constraints: array<MemberConstraint>, f: R -> S,
                                first2: Entries<S>, k: nat, ghost cs: seq<MemberConstraint>,
                                ghost lists: seq<seq<nat>>, ghost keyOf: RegionVid -> R)
    returns (first2': Entries<S>)
    requires Partition(entries, cs, lists, keyOf) && k < |entries|
    requires Mapping(entries, cs, lists, f, constraints[..], first2, k)
    modifies constraints
    ensures Mapping(entries, cs, lists, f, constraints[..], first2', k + 1)
  {
    var r2, start1 := f(entries[k].0), entries[k].1;
    var start2 := Lookup(first2, r2);
    ghost var before := constraints[..];
    EntryInPlace(entries, cs, lists, f, before, first2, k);
    if start2.Some? {
      AppendList(constraints, start1, start2.value, lists[k]);
    }
    MapStep(entries, cs, lists, keyOf, f, before, constraints[..], first2, k);
    first2' := Insert(first2, r2, start1);
  }

  lemma StartMapping<R, S>(entries: Entries<R>, constraints: seq<MemberConstraint>, lists: seq<seq<nat>>,
                           keyOf: RegionVid -> R, f: R -> S)
    requires Partition(entries, constraints, lists, keyOf)
    ensures Mapping(entries, constraints, lists, f, constraints, [], 0)
  {
    forall e | 0 <= e < |entries|
      ensures Chain(constraints, Some(entries[e].1), lists[e])
    {
      assert EntryValid(constraints, keyOf, entries[e], lists[e]);
    }
  }
}
