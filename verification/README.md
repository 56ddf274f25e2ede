# A model of the loan analysis and of the mutation engine

The repository tests Rust's borrow checker by mutation. It contains a fork of the compiler's borrow checker
(`borrowck/`) and a tool that rewrites MIR bodies into mutants (`src/mutator/`). This project models both in Dafny and
proves what they compute. `dafny verify dfyconfig.toml` checks all of it.

The control-flow graph of a body is a graph of points `(block, index)`, where the index one past the last statement is
the terminator. Everything that the code decides about loans is related to paths, runs and storage of that graph:

- **Overlap** (`PlacesConflict`, `Footprint`, `OverlapSoundness`, `OverlapExactness`). The comparison of two places is
  the code's walk over two projections. Its meaning is given separately: a place selects nodes of a memory tree, under
  any values of index locals and any slice lengths. A negative answer means disjoint footprints; a positive one is
  exact, possible or certain on the fragments named below.
- **Loans** (`BorrowSets`, `VisitEvents`, `Activations`, `GatherBorrows`, `UsedLocals`). The visitor that gathers loans, as
  a class whose fields it fills, and the invariant that ties the loan table, the index by local and the activation table
  together. The loans are those of the borrows that something done to their place could invalidate. A recorded
  activation is the one use of the temporary after the reservation, and the visit stops exactly on bodies that misuse a
  temporary.
- **Scopes** (`LoanScopes`, `PoloniusScopes`, `LoanFlow`, `LoanEnds`). The two worklist computations of where loans go out
  of scope, with their `visited` set and stack as fields, and the gen/kill dataflow over a mutable bit set. In the least
  solution a loan is in scope at a point exactly if it lives there: some path from the borrow stays in its region and
  writes nothing whose writing ends it.
- **Checks** (`TwoPhaseBorrows`, `TwoPhaseUses`, `Accesses`, `AccessedLocals`, `BorrowChecks`). The dominator test for
  two-phase borrows in terms of runs and of the temporary, and the access checks with their suppression sets.
- **Meaning of the checks** (`Occurrences`, `Effects`, `AccessEffects`, `Permissions`, `AcceptedBodies`, `Acceptance`).
  What statements and terminators do to the nodes of the memory tree is written down apart from the lists of accesses
  that the checks go through, and both tell the same. The end-to-end theorem is about storage: in an accepted body
  nothing is done to storage that a living loan protects unless it is permitted, and no such storage goes away where
  control leaves the function. What is mutably borrowed may be read only while the borrow is reserved and its temporary
  not used. Conversely, where the places of a body can be compared exactly, a body of which this is true is accepted.
- **Constraint stores** (`MemberConstraints`, `OutlivesConstraints`). Lists threaded through index vectors and spliced
  in place, the graph with virtual edges out of `'static`, and what forcing regions to outlive `'static` does.
- **Searches and rewriting** (`UseFinder`, `DefUses`, `BlockingPlaces`, `BlockSplit`, `MutatorStream`, `LocationTables`). The search
  for the nearest use, the search for blocking places without a visited set, the block split that must not change
  executions, the resumable generator of mutants, and the dense numbering of points.

Loops and objects of the code are methods and classes here; the matches and walks without state are functions.

## What the proofs assume

- The region of a loan contains its reserve location (`RegionsHoldAtIssue`): the code generates a loan after killing at
  that point.
- A `Subslice` is the last element of its projection (`SubsliceLast`). `OverlapExactness.NestedSubslices` shows that
  the comparison is wrong without this.
- Two slice patterns that are compared both matched, so the slice is at least as long as both `min_length`s say (`Fits`).
- The uses of the temporary of a two-phase borrow that runs can come to are dominated by the reservation, and nothing
  re-enters the stretch between them (`TwoPhaseShape`). The second is necessary as well as sufficient
  (`ExactEverywhereIffNoReentry`).
- The traversals of the blocks contain exactly the blocks that can be reached, and the preorder one comes to a block
  after the blocks that dominate it (`PreorderOf`).
- Dominators, strongly connected components and the least fixpoint are inputs with their defining properties.
- Where the second computation of scopes is used: region values respect the flow of loans between regions
  (`RegionsClosed`), and a loan that does not flow out of the function is live exactly where its region holds, away from
  its issue point (`LivenessMatchesRegions`). `AgreeExactly` is the condition without these assumptions.
- Acceptance says everything about storage where no index local, union, empty array subslice or thread-local reference
  is involved (`ExactBody`); acceptance of other bodies is exact access by access (`AllGoesOn`), and safe.
- A local that refers to a thread-local static is a local that refers to a static (`PlainLoan`).
- The graph of blocked places has no cycle that the search can reach (`Acyclic`). The search ends exactly then
  (`EndsExactlyWhenAcyclic`).

## Where the code does not do what its comments say

- `borrowck/src/dataflow.rs:554-557` says that a positive answer under the bias against overlap means the same location
  for certain. This fails for indices from different ends of a slice (`MixedEndsAreNotCertain`);
  `CertainExactly` says for which places it holds.
- `borrowck/src/path_utils.rs:100-105` infers from dominance and post-dominance that nothing leaves the activation and
  comes back without passing the reservation. `PostDominanceAllowsReentry` is a loop, with a loan that is gathered from
  it, in which it does.
- `borrowck/src/borrow_set.rs:229-236` says that a pending activation is removed when it is used. It never is: a second
  use of the temporary stops the compiler. `SecondUseStops` is such a body, and `StopsExactly` says for which bodies
  the visit stops. A borrow through a shared reference that the temporary leads to is passed over
  (`borrowck/src/borrow_set.rs:249-253`) and does not count as a use (`IgnoredReborrowIsNoUse`).
- `borrowck/src/region_infer/values.rs:325` answers "nothing lies outside" for a region without a row, so that such a
  loan would never be killed (`FrontierNeedsRow`). The region of a tracked loan contains its reserve location and so has
  a row; such an input does not reach the analysis.
- `src/mutator/mutator_impl.rs:67-69` promises a traversal of the entire body. The last block is never traversed;
  `MutatorStream.Enumerate` gives the sequence that is yielded, `CompleteExactly` says when nothing is lost, and
  `LastBlockIsMissed` is a body for which something is.
- `src/mutator/expiry_order.rs:181-184` gives the end of the mutated range an index of the original block, which need not
  exist in the mutant block (`BlockSplit.Iter.RangeEndExactly`, and `BlockSplit.RangeEndBeyondBlock` for a block in which
  it does not).

## Model

| member | source | states |
|---|---|---|
| PlacesConflict.NoMismatch | borrowck/src/places_conflict.rs:507-522 | comparing well-typed places never reaches the "mismatched projections" error |
| PlacesConflict.IgnoredExactly | borrowck/src/place_ext.rs:15-71 | a borrow goes untracked if and only if some element dereferences a raw pointer, or a shared reference other than a thread-local one at the root, or only some locals are invalidated and its local never changes, dies or is moved |
| PlacesConflict.TrackedDerefs | borrowck/src/place_ext.rs:15-71 | a place whose borrow is tracked dereferences nothing raw or shared, except a reference to a thread-local static at its root |
| PlacesConflict.BehindSharedReferenceExactly | borrowck/src/places_conflict.rs:225-229 | for a tracked borrow, the "behind shared reference" error is reached if and only if the borrow goes through a thread-local reference that is itself accessed deeply or dropped |
| PlacesConflict.AlwaysAnswers | borrowck/src/places_conflict.rs:104-128 | well-typed places and a tracked borrow not rooted at a thread-local reference always get a yes or a no |
| OverlapSoundness.DisjointSteps | borrowck/src/places_conflict.rs:290-523 | a pair of elements judged disjoint selects no common step, whatever the index locals and the length |
| OverlapSoundness.RemainderSound | borrowck/src/places_conflict.rs:193-258 | a negative answer on what is left of the borrow means the access does not reach the borrowed storage: shallow accesses stop at pointers, drops at mutable references |
| OverlapSoundness.OverlapSound | borrowck/src/places_conflict.rs:104-285 | under the bias towards overlap, a negative answer means that borrow and access have no storage in common, for all index values, slice lengths, depths and borrow kinds |
| OverlapExactness.ExactWhenDefinite | borrowck/src/places_conflict.rs:131-285 | on union-free places whose elements are definite, the answer says whether the footprints intersect, in every valuation |
| OverlapExactness.StaticExact | borrowck/src/places_conflict.rs:131-285 | the same for places without index locals, from-end indices and empty subslices: conflict if and only if the footprints intersect |
| OverlapExactness.CertainExactly | borrowck/src/dataflow.rs:554-568 | a positive answer under the bias against overlap is certain in every valuation if and only if the elements are definite: in pairs up to where the places part at different fields of a union, if they do, and each on its own below that |
| OverlapExactness.MustOverlap | borrowck/src/dataflow.rs:554-568 | the kill of overwritten loans is certain for places that count from the beginning, index locals and fields of unions included |
| OverlapExactness.MixedEndsAreNotCertain | borrowck/src/dataflow.rs:554-557 | a concrete pair, element 1 and the last element, that refutes the comment |
| OverlapExactness.PossibleExactly | borrowck/src/places_conflict.rs:370-502 | without index locals, a conflict is reported if and only if the footprints intersect for some slice lengths |
| OverlapExactness.NestedSubslices | borrowck/src/places_conflict.rs:186-203 | below overlapping subslices the walk calls two places disjoint that are one element |
| BorrowSets.VisitLocalExactly | borrowck/src/borrow_set.rs:276-321 | a mention activates exactly the loan whose temporary it uses, the reserving store aside, and stops the visit only if that loan is activated already |
| BorrowSets.InsertLoanAppends | borrowck/src/borrow_set.rs:243-274 | a new loan is appended, indexed under its local, and becomes pending exactly if it is two-phase |
| BorrowSets.AppendedKeeps | borrowck/src/borrow_set.rs:341-394 | appending a loan keeps the agreement of all tables |
| BorrowSets.LoansOfLocalAre | borrowck/src/borrow_set.rs:17-36 | the index of a local holds exactly the loans that borrow from it, ascending |
| VisitEvents.BlocksAreRun | borrowck/src/borrow_set.rs:242-274 | visiting the blocks is going through one sequence of events: each tracked borrow, then the mentions of its statement, point by point |
| VisitEvents.RunTold | borrowck/src/borrow_set.rs:242-394 | after any sequence of events, each loan is one that was issued, and is activated at the only mention since that uses its temporary, or not activated if there is none |
| Activations.ActivationsExactly | borrowck/src/borrow_set.rs:276-321 | a gathered two-phase loan is activated at a point if and only if the point is visited after the reservation and uses its temporary, and not activated if and only if there is no such point |
| Activations.StopsExactly | borrowck/src/borrow_set.rs:276-394 | the visit stops if and only if a tracked two-phase borrow is stored to a place with projections, or two are stored to one temporary, or a temporary has two uses after its reservation |
| Activations.SecondUseStops | borrowck/src/borrow_set.rs:229-236 | a body that copies twice what the temporary points to, on which the visit stops |
| Activations.IgnoredReborrowIsNoUse | borrowck/src/borrow_set.rs:249-253 | a body whose only later mention of the temporary is in a borrow that is not tracked, and whose loan is never activated |
| UsedLocals.UsesTemporaryExactly | borrowck/src/borrow_set.rs:276-321 | a point other than the reservation uses the temporary if and only if it touches a place with it and takes no borrow that is passed over; storage markers and ascriptions are no uses |
| UsedLocals.ReservationUsesExactly | borrowck/src/borrow_set.rs:276-321 | the reservation itself is a use if and only if what it borrows is reached through the temporary |
| GatherBorrows.Gatherer.VisitUse | borrowck/src/borrow_set.rs:276-321 | the visitor of a local activates exactly the loan whose temporary is used, or stops if it has been used already |
| GatherBorrows.Gatherer.InsertAsPendingIfTwoPhase | borrowck/src/borrow_set.rs:341-394 | records a two-phase borrow into a temporary as pending, with the error for other assigned places and for a temporary that is pending already |
| GatherBorrows.Gatherer.VisitAssignment | borrowck/src/borrow_set.rs:243-274 | a tracked borrow is added before the uses of its statement are visited; an ignored one changes nothing |
| GatherBorrows.Gatherer.VisitBody | borrowck/src/borrow_set.rs:169-199 | visiting all blocks gathers exactly the tracked loans of the visited points, activated exactly where their temporaries are used; it stops if and only if a temporary is misused |
| GatherBorrows.BuildLocalsStateAtExit | borrowck/src/borrow_set.rs:139-165 | the locals that are dead or moved somewhere, unless all are invalidated anyway |
| GatherBorrows.SetHoldsBorrows | borrowck/src/borrow_set.rs:243-274 | the loans record exactly the borrows of the visited points that something done to their place could invalidate, one for each, with the kind, the region and both places of the statement |
| GatherBorrows.BuildBorrowSet | borrowck/src/borrow_set.rs:169-199 | the built set is valid, holds one loan for each borrow of the body that could be invalidated and no other, and records the uses of temporaries as activations; there is none if and only if the body misuses a temporary |
| LoanScopes.ScanComplete | borrowck/src/dataflow.rs:213-284 | when the stack is empty, the recorded points are all points outside the region that a path reaches with all earlier points inside |
| LoanScopes.OutOfScopePrecomputer.PrecomputeBorrowsOutOfScope | borrowck/src/dataflow.rs:213-284 | records the loan once at each point where paths leave its region, and leaves `visited` and `visit_stack` empty; the loop ends even if the first block is visited again |
| LoanScopes.CalculateBorrowsOutOfScopeAtLocation | borrowck/src/dataflow.rs:288-299 | the map holds at each point exactly the loans that go out of scope there, in ascending order |
| LoanScopes.LoansKilledAre | borrowck/src/dataflow.rs:288-299 | membership in the specified list is being a kill point of the loan, each loan once |
| LoanScopes.FrontierNeedsRow | borrowck/src/region_infer/values.rs:318-332 | with the true value of the region, the computation finds the frontier if and only if the region has a row |
| PoloniusScopes.PoloniusOutOfScopePrecomputer.FindEscape | borrowck/src/dataflow.rs:329-380 | whether the issuing region reaches a region live everywhere or an applied member-constraint choice that is universal |
| PoloniusScopes.PoloniusOutOfScopePrecomputer.LoanKillLocation | borrowck/src/dataflow.rs:428-464 | the lowest point of a stretch where the loan is not live, the issue point aside |
| PoloniusScopes.PoloniusOutOfScopePrecomputer.PrecomputeLoansOutOfScope | borrowck/src/dataflow.rs:329-423 | records the loan where paths leave its live points, and nowhere if it escapes |
| PoloniusScopes.AgreeExactly | borrowck/src/dataflow.rs:477-500 | two maps computed this way are equal if and only if each loan goes out of scope at the same points |
| PoloniusScopes.EscapesExactly | borrowck/src/dataflow.rs:346-380 | the search reports an escape if and only if the loan flows into a region that is live at all points or for which a universal region was chosen |
| PoloniusScopes.OutHoldsEverywhere | borrowck/src/dataflow.rs:346-380 | the region of a loan that flows out holds everywhere, so that the early return loses no kill |
| PoloniusScopes.PoloniusAgrees | borrowck/src/dataflow.rs:477-500 | both computations give the same map if region values respect the flow of loans and every loan that does not flow out is live exactly where its region holds, its issue point aside; where other loans are live does not matter |
| PoloniusScopes.NewBorrows | borrowck/src/dataflow.rs:468-503 | the constructor's assertion that both maps agree cannot fail under that condition on liveness and regions, and the map is the one of regions |
| LoanFlow.KillLoansOutOfScopeAtLocation | borrowck/src/dataflow.rs:507-526 | removes from the bit set exactly the loans out of scope at the point |
| LoanFlow.KillBorrowsOnPlace | borrowck/src/dataflow.rs:529-569 | removes exactly the loans that overwriting the place ends: all on a whole local unless it refers to a static, otherwise those that certainly conflict |
| LoanFlow.ApplyPrimaryStatementEffect | borrowck/src/dataflow.rs:605-652 | generates the issued loan, then removes what the assigned or dead place ends; an untracked borrow has no effect |
| LoanFlow.ApplyPrimaryTerminatorEffect | borrowck/src/dataflow.rs:663-679 | removes what the outputs of inline assembly overwrite, and nothing for other terminators |
| LoanFlow.PathEntriesLeast | borrowck/src/dataflow.rs:581-679 | the states described by paths are a solution of the dataflow and the least one |
| LoanFlow.InScopeByPath | borrowck/src/dataflow.rs:581-679 | in the least solution a loan is in the state if and only if a path carries it there from where it is generated |
| LoanFlow.InScopeExactly | borrowck/src/dataflow.rs:505-679 | with the computed kill map: a loan is in scope at a point if and only if some path from its reserve location stays in its region and overwrites nothing that ends it, the issuing statement included |
| LoanEnds.AfterPointExactly | borrowck/src/dataflow.rs:605-679 | after a point a loan is in the state if and only if it was in scope or is issued there, and the point writes nothing whose writing ends it: assignments, the end of storage and outputs of inline assembly, read off the body |
| LoanEnds.KillsExactly | borrowck/src/dataflow.rs:529-569 | the points that kill a loan are exactly those that write the whole of its local, which refers to no static, or a part that conflicts with what is borrowed under the bias against overlap |
| LoanEnds.OverlapEndsLoan | borrowck/src/dataflow.rs:554-568 | without index locals, writing a part that shares storage with what is borrowed in some valuation ends the loan |
| LoanEnds.InScopeIsLiving | borrowck/src/dataflow.rs:505-679 | the dataflow has a loan in scope exactly where a path from the borrow stays in its region and writes nothing that ends it |
| TwoPhaseBorrows.DominatesPointwise | borrowck/src/path_utils.rs:72-132 | dominance of locations decided on blocks and indices is dominance on all runs |
| TwoPhaseBorrows.InactiveExactly | borrowck/src/path_utils.rs:72-132 | without re-entry, the test says inactive if and only if on every run to the point the reservation was left after the activation was last entered |
| TwoPhaseBorrows.ExactEverywhereIffNoReentry | borrowck/src/path_utils.rs:100-105 | the test is right at all reachable points if and only if nothing re-enters the diamond but through the reservation |
| TwoPhaseUses.InactiveExactlyUnused | borrowck/src/path_utils.rs:72-132 | if runs can use the temporary, the borrow is inactive at a point if and only if every run to it has reserved the borrow and not used the temporary since; otherwise it is never active |
| TwoPhaseUses.DominatorVisitedFirst | borrowck/src/borrow_set.rs:169-199 | the traversal that gathers loans comes to a point after the points that dominate it, so uses are met after the reservation |
| TwoPhaseUses.PostDominanceAllowsReentry | borrowck/src/path_utils.rs:100-105 | a body, and the loan gathered from it, with dominance and post-dominance, in which the diamond is re-entered and the test is wrong |
| Accesses.ScanByLocalRefinesScan | borrowck/src/path_utils.rs:25-70 | scanning the loans on the local of the accessed place ends exactly as scanning all loans, at the same loan |
| Accesses.ScanExactly | borrowck/src/path_utils.rs:25-70 | the scan finds nothing if and only if every scanned loan in scope is apart from or compatible with the access |
| Accesses.AccessPlaceExactly | borrowck/src/lib.rs:1005-1051 | from a state without errors, the check stays silent if and only if nothing stands against the access, so neither early return skips anything |
| Accesses.AccessAllExactly | borrowck/src/lib.rs:1005-1193 | the same for a sequence of accesses |
| Accesses.CheckExitsExactly | borrowck/src/lib.rs:815-860 | the checks at exits stay silent if and only if no loan in scope conflicts with what goes away |
| BorrowChecks.MirBorrowckCtxt.EachBorrowInvolvingPath | borrowck/src/path_utils.rs:25-70 | the loop with its break control computes the specified scan |
| BorrowChecks.MirBorrowckCtxt.CheckConflict | borrowck/src/lib.rs:1080-1190 | the match on access and borrow kind goes on exactly for compatible pairs, always for a reader at a reader, for a writer only when it moves out of what is borrowed for its shape; its assertion that an inactive borrow is two-phase cannot fail |
| BorrowChecks.MirBorrowckCtxt.CheckAccessForConflict | borrowck/src/lib.rs:1054-1193 | reports the first incompatible loan, adds the place of a failed reservation to its set, and leaves everything alone when there is none |
| BorrowChecks.MirBorrowckCtxt.CheckAccess | borrowck/src/lib.rs:1005-1051 | the whole check of one access, with both suppression sets |
| AccessedLocals.StatementSame | borrowck/src/lib.rs:628-700 | the locals that a checked statement mentions are exactly those it accesses, and what it assigns is exactly what it mutates |
| AccessedLocals.TerminatorSame | borrowck/src/lib.rs:702-813 | the same for terminators; what is dropped is exactly what is accessed by a drop |
| AccessedLocals.RvalueSame | borrowck/src/lib.rs:1214-1373 | every local in an rvalue is in a place that is accessed, and no other |
| AccessedLocals.MentionsAreAccessed | borrowck/src/lib.rs:628-813 | whatever a checked point mentions, assigns or drops is accessed, mutated or dropped by the accesses that are checked there |
| BorrowChecks.MirBorrowckCtxt.CheckActivations | borrowck/src/lib.rs:1596-1620 | every loan activated at the point is checked as an activation of its borrowed place |
| BorrowChecks.MirBorrowckCtxt.VisitStatement | borrowck/src/lib.rs:628-700 | activations first, then the accesses of the statement, which are those that `AccessEffects.StatementExactly` speaks of |
| BorrowChecks.MirBorrowckCtxt.VisitTerminator | borrowck/src/lib.rs:702-813 | activations first, then the accesses of the terminator, which are those that `AccessEffects.TerminatorExactly` speaks of |
| BorrowChecks.MirBorrowckCtxt.CheckForInvalidationAtExit | borrowck/src/lib.rs:1526-1579 | checks one loan against its root place going away |
| BorrowChecks.MirBorrowckCtxt.VisitResults | borrowck/src/lib.rs:337-342 | visiting the blocks with the loans carried from point to point makes exactly the specified checks |
| BorrowChecks.SilenceExactly | borrowck/src/lib.rs:337-342 | the visit reports nothing if and only if every access and every exit of the visited blocks is clean |
| AcceptedBodies.AcceptedIsSafe | borrowck/src/lib.rs:1005-1193 | in an accepted body, on every path on which a loan stays in scope, each access is permitted together with the loan or shares no storage with it in any valuation |
| AcceptedBodies.KillIsCertainExactly | borrowck/src/dataflow.rs:529-569 | a kill by an overwritten place, through another field of a union too, is certain in every valuation if and only if the elements of the two places are definite up to the union and each on its own below it |
| AcceptedBodies.KilledIsOverwritten | borrowck/src/dataflow.rs:529-569 | a loan is killed only where a place is overwritten that overlaps the borrowed one for certain, if the places that kill it can be compared with it: from-end patterns and unions included as long as the elements are definite |
| AcceptedBodies.AcceptedIsSafeUntilOverwritten | borrowck/src/dataflow.rs:529-569 | safety in terms of storage alone: as long as the region holds and nothing certain to overlap is overwritten |
| AcceptedBodies.OverwritingIsChecked | borrowck/src/lib.rs:628-813 | whatever a point overwrites, as far as the dataflow kills loans for it, is also checked there as a write |
| AccessEffects.EffectsExactly | borrowck/src/lib.rs:628-813 | at every point the checked accesses stand for exactly what the point does to storage: each copy, move, borrow, inspection, store, drop, lending and activation with each node it touches, and nothing else |
| AccessEffects.StatementExactly | borrowck/src/lib.rs:628-700 | a statement is checked for exactly what it does: copies read and moves take everything within their place, assignments and the end of storage change what is reached without a pointer, borrows give access of their kind |
| AccessEffects.TerminatorExactly | borrowck/src/lib.rs:702-813 | the same for terminators: a drop changes what dropping touches, calls and resumptions change everything within the place of their result, inline assembly stores to its outputs |
| AccessEffects.RvalueExactly | borrowck/src/lib.rs:1214-1373 | the same for rvalues, operands in whatever position included |
| AccessEffects.AccessedPlaces | borrowck/src/lib.rs:628-813 | nothing is accessed but the places that the point acts on |
| Permissions.CompatibleExactly | borrowck/src/lib.rs:1080-1190 | an access goes on in spite of a conflicting loan if and only if what it does is permitted: readers with readers, reads of what is only reserved, the activation of the loan itself, looks at shapes, and moves out of what is borrowed for its shape |
| Permissions.ReadersGoOn | borrowck/src/lib.rs:1103-1120 | a read or a reservation never stops at a loan that only reads |
| Permissions.WritersStop | borrowck/src/lib.rs:1122-1190 | a write stops at every loan, but for a move out of what is borrowed for its shape only |
| Permissions.ReservedIsUnused | borrowck/src/path_utils.rs:72-132 | what may be read of a mutable borrow: no run to the point has used the temporary since the borrow was last reserved |
| Acceptance.FrameEndsExactly | borrowck/src/lib.rs:815-860 | exits are checked exactly at the terminators from which control goes nowhere and that are neither unreachable, nor an abort, nor something that diverges |
| Acceptance.AcceptedExactly | borrowck/src/lib.rs:334-342 | a body is accepted if and only if mutability permits every access, every access goes on in spite of every loan that lives at its point, and every loan that lives where the frame ends may outlive it |
| Acceptance.AcceptedEndsAreSafe | borrowck/src/lib.rs:1526-1579 | where the frame of an accepted body ends, no living loan protects storage that goes away: the storage of its local, if locals are invalidated, or what lies behind a reference to a thread-local static |
| Acceptance.AcceptedBodyIsSafe | borrowck/src/lib.rs:1005-1193 | in an accepted body, whatever a point does to storage that a living loan protects is permitted, in every valuation, and nothing that a living loan protects goes away with the frame |
| Acceptance.SafeBodyIsAccepted | borrowck/src/lib.rs:1005-1193 | conversely, a body of which this is true is accepted, if its places can be compared exactly and mutability permits its accesses |
| Acceptance.CheckLoans | borrowck/src/lib.rs:334-342 | runs the analysis on gathered loans; the verdict is safe, exact access by access, and exact in terms of storage where places can be compared exactly |
| Acceptance.DoMirBorrowck | borrowck/src/lib.rs:161-345 | gathering, inference and checks in one: the verdict is right for the loans of all borrows that could be invalidated, and there is none exactly if the body misuses the temporary of a two-phase borrow |
| MemberConstraints.PushConstraint | borrowck/src/member_constraints.rs:82-104 | puts a constraint in front of the list of its region, keeps the lists acyclic, disjoint and complete, and keeps all choice regions |
| MemberConstraints.MemberConstraintSet.Indices | borrowck/src/member_constraints.rs:163-176 | yields exactly the constraints whose member region has the key, each once |
| MemberConstraints.AppendList | borrowck/src/member_constraints.rs:217-233 | ends on a list without cycles and changes one link only, that of the last element |
| MemberConstraints.MapLists | borrowck/src/member_constraints.rs:116-147 | after the loop each mapped key starts the joined lists of its keys, later keys first |
| MemberConstraints.MappedPartition | borrowck/src/member_constraints.rs:116-147 | the joined lists are disjoint, acyclic and complete for the mapped keys |
| MemberConstraints.IntoMapped | borrowck/src/member_constraints.rs:116-147 | the mapped set is valid for the mapped keys and every constraint keeps its choice regions |
| OutlivesConstraints.OutlivesConstraintSet.Push | borrowck/src/constraints/mod.rs:26-33 | appends the constraint unless it relates a region to itself |
| OutlivesConstraints.SelfConstraintsDoNotMatter | borrowck/src/constraints/mod.rs:26-33 | dropping such constraints leaves reachability unchanged |
| OutlivesConstraints.NewConstraintGraph | borrowck/src/constraints/graph.rs:78-95 | the reverse loop builds, for each region, the list of its constraints by ascending index |
| OutlivesConstraints.EdgeIndicesAre | borrowck/src/constraints/graph.rs:78-95 | that list holds each constraint of the region once and no other |
| OutlivesConstraints.Edges.Next | borrowck/src/constraints/graph.rs:144-168 | yields the first remaining edge, then the virtual edges of `'static`, then nothing |
| OutlivesConstraints.OutgoingRegions | borrowck/src/constraints/graph.rs:195-199 | the regions yielded are exactly the successors |
| OutlivesConstraints.StaticOutgoing | borrowck/src/constraints/graph.rs:109-130 | `'static` leads to every region once, in order |
| OutlivesConstraints.OutgoingAre | borrowck/src/constraints/graph.rs:109-168 | the edges of a region lead exactly where a constraint or a virtual edge does |
| OutlivesConstraints.Transposed | borrowck/src/constraints/graph.rs:36-71 | the two directions are transposes apart from the virtual edges |
| OutlivesConstraints.AddOutlivesStatic | borrowck/src/constraints/mod.rs:107-159 | adds one constraint for each incompatible component but that of `'static`, and recomputes components |
| OutlivesConstraints.StaticClosureExactly | borrowck/src/constraints/mod.rs:107-159 | afterwards a region reaches what it reached before, and everything if and only if it reached an incompatible component or did so already |
| OutlivesConstraints.MutuallyReachableWithStatic | borrowck/src/constraints/mod.rs:107-159 | a region and `'static` reach each other afterwards if and only if the region reached `'static` or an incompatible component |
| UseFinder.Finder.DefUseAt | borrowck/src/diagnostics/find_use.rs:81-127 | the last relevant mention of a local at a point decides between definition, use and drop |
| DefUses.AssignDefUse | borrowck/src/diagnostics/find_use.rs:101-127 | an assignment is a use if its right side mentions a local of interest, otherwise a definition of the whole local that it assigns, or a use of the locals on the way to a part |
| DefUses.ResultDefUse | borrowck/src/diagnostics/find_use.rs:101-127 | a call or a resumption defines the local that takes its result, and otherwise uses what it mentions |
| DefUses.DropDefUse | borrowck/src/diagnostics/find_use.rs:101-127 | dropping a whole local is a drop of it, dropping a part uses the locals on the way |
| DefUses.OtherDefUse | borrowck/src/diagnostics/find_use.rs:101-127 | any other terminator but inline assembly only uses what it mentions |
| DefUses.MarkerDefUse | borrowck/src/diagnostics/find_use.rs:101-127 | the beginning and the end of the storage of a local define it |
| UseFinder.FrontierVisit | borrowck/src/diagnostics/find_use.rs:32-79 | one round of the search keeps the queue ordered by distance and everything nearer visited |
| UseFinder.FrontierExhausted | borrowck/src/diagnostics/find_use.rs:32-79 | with an empty queue every reachable point of the region has been visited |
| UseFinder.Finder.Explore | borrowck/src/diagnostics/find_use.rs:32-79 | the queue loop ends; it finds a use at minimal distance, or there is none |
| UseFinder.Finder.Find | borrowck/src/diagnostics/find_use.rs:32-79 | finds a use or drop if and only if some path of the body leads to one through the region, with no mention of a local of interest before it and no unwind edge; no path to another is shorter |
| BlockingPlaces.BoundedExactlyWhenAcyclic | src/mutator/expiry_order.rs:69-85 | the edge paths that the loop goes along are bounded if and only if no cycle can be reached |
| BlockingPlaces.EndsExactlyWhenAcyclic | src/mutator/expiry_order.rs:69-85 | nothing is left to visit after some number of rounds of the loop if and only if no cycle can be reached |
| BlockingPlaces.StepShrinks | src/mutator/expiry_order.rs:69-85 | on an acyclic graph each round leaves fewer edge paths to go |
| BlockingPlaces.PlacesBlocking | src/mutator/expiry_order.rs:51-87 | returns exactly the current places at the end of a path of valid edges whose kinds together satisfy the blocking condition |
| BlockingPlaces.MutantSequences | src/mutator/expiry_order.rs:225-277 | collects exactly the pairs of a mutably borrowed place and a place that blocks it, both of user variables, each once |
| BlockingPlaces.ExpiryPairs | src/mutator/expiry_order.rs:323-352 | every pair of the abstract mutation is one of the borrow mutation, whose pairs are those with a path through any borrow edge |
| BlockingPlaces.BorrowExpiryExactly | src/mutator/expiry_order.rs:225-277 | a pair is collected if and only if both are of user variables, the first is lent out by a local mutable borrow, and a trail of edges that pass on exclusive access leads to the second through a borrow |
| BlockingPlaces.AbstractExpiryExactly | src/mutator/expiry_order.rs:286-352 | the same for the second mutation, through a borrow and an abstraction |
| BlockSplit.EmbedIsExact | src/mutator/expiry_order.rs:142-160 | the original points are exactly the points of the mutant body outside the mutant block but for the false edge, with the same instructions |
| BlockSplit.SplitKeepsExecutions | src/mutator/expiry_order.rs:191-200 | the executions of the mutant body are exactly those of the original with the false edge put in at the split, through the same instructions |
| BlockSplit.MutantNeverExecutes | src/mutator/expiry_order.rs:191-200 | no execution enters the mutant block |
| BlockSplit.NewPathsExactly | src/mutator/expiry_order.rs:134-210 | in the control-flow graph the only new paths are an original path up to the split, the false edge and a part of the mutant block |
| BlockSplit.ReachabilityKept | src/mutator/expiry_order.rs:134-210 | original points keep their reachability; the mutant block is reachable if and only if the statement before the split was |
| BlockSplit.PlacesToStatements | src/mutator/expiry_order.rs:91-112 | one shared borrow for each place in order, each into its own fresh local |
| BlockSplit.Iter.MaybeNext | src/mutator/expiry_order.rs:134-210 | pops a pair and builds the split body for it, the blocked place used first; the body is well-formed |
| BlockSplit.Iter.Next | src/mutator/expiry_order.rs:122-131 | yields the mutant of the last pair, and nothing once there are no pairs |
| BlockSplit.Iter.RangeEndExactly | src/mutator/expiry_order.rs:181-184 | the reported end of the mutation is a point of the mutant body if and only if the index in the original block is at most two |
| BlockSplit.RangeEndBeyondBlock | src/mutator/expiry_order.rs:181-184 | after the fourth statement of a block the reported end is no point of the mutant body |
| MutatorStream.PairsAre | src/mutator/mutator_impl.rs:122-132 | the pairs of a block are its consecutive statements, each pair once and in order |
| MutatorStream.Mutator.Next | src/mutator/mutator_impl.rs:110-150 | yields the first remaining mutant and leaves the rest; the progress assertion holds in every round |
| MutatorStream.RemainingAfterBlock | src/mutator/mutator_impl.rs:133-143 | popping a block loses no mutant that would still come, and gains none |
| MutatorStream.Enumerate | src/mutator/mutator_impl.rs:110-150 | repeated calls yield the mutants of all blocks but the last, in order |
| MutatorStream.CompleteExactly | src/mutator/mutator_impl.rs:67-69 | that is the entire body if and only if the last block has no mutants |
| MutatorStream.LastBlockIsMissed | src/mutator/mutator_impl.rs:67-69 | a body of one block with one pair of statements, whose mutant never comes |
| LocationTables.LocationTable.ToLocation | borrowck/src/location.rs:68-99 | the search from the back finds the rich location whose index it was given |
| LocationTables.LocationTable.DenseExactly | borrowck/src/location.rs:34-66 | start and mid points are numbered one to one onto all indices below the number of points |
| LocationTables.LocationTable.StartsAreEven | borrowck/src/location.rs:56-66 | a start point has an even index and its mid point the next one |
| LocationTables.LocationTable.OrderExactly | borrowck/src/location.rs:34-66 | the mid index of one point is below the start index of another if and only if it comes before it in its block or in an earlier block |

## Left out

- Messages, spans, suggestions, lints and everything else under `diagnostics/` that builds text: reporting is an error flag and the sets that suppress further reports.
- Region inference, type checking, component and dominator computation, and the fixpoint iteration: inputs with their defining properties.
- Initialisation and move checks and the mutability of places: one abstract predicate, `permissionError`, that the theorems cover for all its values.
- The check of local borrows held across a coroutine's yield, and upvars.
- The branch of the conflict check that reads the output of the external Polonius engine.
- AccessEffects.TerminatorExactly: that a return moves out of the return place, and that a failing assertion other than a bounds check shows its operands, counts as nothing done, because the code checks neither.
- Spans and hidden types of member constraints and of outlives constraints: they are carried along unread.
- The mutators that insert a single statement: each is an easy case beside the block split.
- Local declarations and types of the mutant's fresh locals: only their number is modelled.
- Sets and hash maps are mathematical: where the code iterates over one, any order is allowed.
- The width of index types: indices are unbounded numbers, so running out of 32-bit indices is not modelled.
