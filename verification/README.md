# Verified model of the Flow runtime

This project models the parts of the engine that decide *when* things happen and *where* values live,
and proves what they promise:

- **Conflict order and job plan.** A recorded stream of resource accesses becomes a dependency graph;
  the planner reduces it, fuses chains of nodes into jobs, and reduces the graph of jobs. Every order
  that respects the node dependencies is a schedule of the plan and the other way round, and every
  schedule computes the store of the recorded order.
- **Slot table, activations and feedback submission.** Generation-tagged storage slots that share
  physical slots, the pool of activations, the round-robin slots of retained resources over the
  completion history ring, the tenancies of physical slots, and what the finish of an iteration waits
  for. The planning of physical slots (a union-find over overlapping storage) is included, so that two
  slots held at the same time are proved not to overlap.
- **Incremental execution and structured control.** Cutoffs and memoised nodes against evaluating the
  whole graph again; the flat control tables against a while language.
- **The platform executor.** A ring of 256 cells, two counting semaphores, an admission count and the
  shutdown drain, for any number of submitting threads and every interleaving; a closed executor is
  proved to return, and an open one to admit and complete every call.
- **Reference counts at two levels**, **channels over semaphore tokens**, and **argument groups**.

Code that updates state in place is modelled by classes and loops whose contracts tie them to
specification functions; the theorems are lemmas about those functions, or about all runs of a step
relation when several threads take part. `dafny verify dfyconfig.toml` checks everything.

## Hypotheses

- *Scheduler.* A job runs once all jobs it depends on have run; nothing else is known of its order.
- *Compiled tables.* The planner takes any program and decides whether it is plannable. The other
  parts assume of the compiled tables what the compiler establishes: successor tables invert
  predecessor tables, slot ranges are disjoint, feedback regions are disjoint and (where stated)
  convex, controls are nested.
- *Temporal predecessors* belong to phis, which serialize nothing (`DependenciesFit`).
- *Retained resources* have at least 2 and at most `max_in_flight + 1` slots; `HistoryEntryIsExact`
  proves that the history ring returns the right completion exactly for these numbers. They are
  destroyed at shutdown, as all persistent storage is, so an acquisition puts up the generation it
  replaces for release. A producer runs whenever its construction has, because its input is then
  marked changed.
- *Releases.* The parallel path refuses a release whose frontier jobs are not all submitted
  (program.cpp:1140-1145). `SubmitIteration` succeeds exactly when no release of the iteration is
  refused, and `Tenancies` takes it as the enabling condition of a release. `ReleasesAcceptedExactly`
  says of the compiled lifetimes when that is; it is not claimed that they always meet it.
- *Generations.* A released ticket stays invalid as long as its 64-bit counter has not wrapped around.

## Where the code needs a condition

- The end of an iteration releases what the feedback phi selected. If the memoised construction of a
  retained resource is skipped, its generation is released a second time an iteration later
  (`SkippedConstructionFails`). If the producer of the value fed back does not wait for the phi, it can
  overtake it, and the iteration releases its own generation and never the one before
  (`UnorderedProducerFails`). If the first construction is skipped and the producer runs all the same,
  there is no generation to feed back (`SkippedFirstConstructionFails`). `NeverFailsExactly`: no
  acquisition finds its slot taken, no producer lacks a generation and every release is of a generation
  that is held, in all interleavings, exactly when the producer does not run without a construction,
  and a construction that has executed is never skipped and has a producer that depends on the phi, as
  it does when it reads the phi's value.
- In a feedback region a memoised node fed only by initialization values is never executed, because
  the initialization has an activation of its own whose marks the region does not see
  (`MemoisedInitializationConsumer`). `MemoisationInRegionsAgreesExactly` shows that memoisation
  agrees with recomputation exactly when there is no such node. An ordinary submission runs the
  initialization inside its first activation and agrees without a condition (`MemoisationAgrees`).
- Tokens are checked requirement by requirement before any is consumed. The check covers what is then
  consumed exactly when no semaphore has two requirements that ask for tokens
  (`CheckCoversTotalExactly`).
- `transitive_reduction` drops every copy of a duplicated edge (`DuplicateEdgesAreLost`). On acyclic
  graphs reachability is kept exactly when every duplicated edge has a longer path beside it
  (`ReachabilityIsKeptExactly`); the planner builds duplicate-free graphs, on which it is exact.
- A job that takes a physical slot whose frontier it is in already depends on itself
  (`FusedAcquisitionsNeverRun`). Some order of all submitted jobs respects their dependencies exactly
  when this never happens (`AllCanRunExactly`).

## Model

| member | source | states |
|---|---|---|
| `OpStream.Stream.Append` | libs/flow/src/strobe/flow/op_stream.cpp:470-488 | appending keeps the invariant that every operation lists exactly the earlier operations it conflicts with, ascending, and leaves the earlier ones as they were |
| `OpStream.ValidateUniqueAccesses` | libs/flow/src/strobe/flow/op_stream.cpp:451-460 | accepts exactly the access lists without a repeated resource |
| `OpStream.ValidatePredecessors` | libs/flow/src/strobe/flow/op_stream.cpp:391-399 | accepts exactly the strictly ascending lists of earlier operations |
| `OpStream.RecordedPassesValidation` | libs/flow/src/strobe/flow/op_stream.cpp:391-399 | the predecessors that recording computes always pass that check |
| `Determinacy.ConflictOrderDeterminesStore` | libs/flow/src/strobe/flow/op_stream.cpp:470-488 | operations that honour their declared accesses compute the recorded store in every order that keeps conflicting operations in place |
| `Determinacy.TaskObservesRecordedValues` | libs/flow/src/strobe/flow/op_stream.cpp:470-488 | in every such order each operation finds the values it found in the recorded order |
| `Determinacy.RecordedOperationsCoverConflicts` | libs/flow/src/strobe/flow/op_stream.cpp:470-488 | recorded predecessors make every conflicting pair a dependency |
| `Determinacy.ScheduleComputesRecordedStore` | libs/flow/src/strobe/flow/job_plan.cpp:188-339 | every schedule of the planned jobs ends in the store of the recorded order |
| `Determinacy.ScheduleObservesRecordedValues` | libs/flow/src/strobe/flow/job_plan.cpp:188-339 | in every schedule of the planned jobs each operation finds its recorded values |
| `Determinacy.ConflictIsOrderDependence` | libs/flow/src/strobe/flow/op_stream.cpp:472-479 | two access lists conflict exactly when some tasks that honour them, on some store, end in different stores or find different values in the two orders |
| `Determinacy.RecordedPredecessorsAreNeeded` | libs/flow/src/strobe/flow/op_stream.cpp:470-488 | a recorded operation has exactly the earlier operations as predecessors whose order with it can matter: no fewer and no more |
| `Determinacy.SharedReadsAreUnordered` | libs/flow/src/strobe/flow/op_stream.cpp:474-478 | operations that only read the resources they share are never predecessors of one another |
| `TransitiveReduction.SearchOthers` | libs/flow/src/strobe/flow/job_plan.cpp:125-155 | the worklist search from the other successors decides whether an edge is redundant; it terminates |
| `TransitiveReduction.Reduce` | libs/flow/src/strobe/flow/job_plan.cpp:120-161 | computes the reduced graph, row by row |
| `TransitiveReduction.InvertAdjacency` | libs/flow/src/strobe/flow/job_plan.cpp:163-175 | inverts the graph, and refuses exactly destinations out of range |
| `TransitiveReduction.ReducedEdges` | libs/flow/src/strobe/flow/job_plan.cpp:120-161 | on duplicate-free acyclic graphs an edge is kept exactly when no longer path joins its ends |
| `TransitiveReduction.ReducedReaches` | libs/flow/src/strobe/flow/job_plan.cpp:120-161 | the reduction keeps reachability in both directions |
| `TransitiveReduction.ReducedIsLeast` | libs/flow/src/strobe/flow/job_plan.cpp:120-161 | every graph with the same reachability contains the kept edges |
| `TransitiveReduction.DuplicateEdgesAreLost` | libs/flow/src/strobe/flow/job_plan.cpp:120-161 | in every graph each copy of an edge that is stored more than once is dropped |
| `TransitiveReduction.KeptEdges` | libs/flow/src/strobe/flow/job_plan.cpp:120-161 | on acyclic graphs an edge is kept exactly when it is stored once and no longer path joins its ends |
| `TransitiveReduction.ReachabilityIsKeptExactly` | libs/flow/src/strobe/flow/job_plan.cpp:120-161 | on acyclic graphs reachability is kept exactly when every duplicated edge has a longer path beside it |
| `JobPlan.IsAncestorDecidesReachability` | libs/flow/src/strobe/flow/job_plan.cpp:65-79 | the recursive ancestor search decides reachability |
| `JobPlanner.CheckDependencyOrder` | libs/flow/src/strobe/flow/job_plan.cpp:192-204 | accepts exactly programs whose nodes depend on lower numbers only |
| `JobPlanner.TagRegions` | libs/flow/src/strobe/flow/job_plan.cpp:218-240 | tags every node with its region, and refuses exactly overlapping or malformed regions |
| `JobPlanner.MarkReleaseBoundaries` | libs/flow/src/strobe/flow/job_plan.cpp:242-265 | marks exactly the nodes after which some resource is released |
| `JobPlanner.CanAppend` | libs/flow/src/strobe/flow/job_plan.cpp:81-115 | decides whether a node may follow another in a job: nothing forbids joining them and every dependency is a member or precedes the job |
| `JobPlanBuilder.AssignJobs` | libs/flow/src/strobe/flow/job_plan.cpp:267-304 | partitions the nodes into maximal chains of fusable nodes, numbered by first nodes |
| `JobPlanBuilder.AppendTestIsExact` | libs/flow/src/strobe/flow/job_plan.cpp:278-291 | while a chain is being built, the append test of the only successor of its end succeeds exactly when the two are fusable |
| `JobPlanBuilder.CollectResources` | libs/flow/src/strobe/flow/job_plan.cpp:341-371 | lists for every job the resources with a frontier node in it and those released after it |
| `JobPlanBuilder.BuildJobPlan` | libs/flow/src/strobe/flow/job_plan.cpp:188-394 | succeeds exactly on plannable programs; the plan partitions the nodes into maximal chains, its edges are the reduced quotient graph, and its resource lists are right |
| `Schedules.JobDependenciesAscend` | libs/flow/src/strobe/flow/job_plan.cpp:306-318 | every dependency between jobs goes from a lower to a higher job, so the quotient is acyclic |
| `Schedules.PlannedEdgesAscend` | libs/flow/src/strobe/flow/job_plan.cpp:323-339 | so does every planned edge, and predecessor and successor tables agree |
| `Schedules.JobDependencyJoinsEnds` | libs/flow/src/strobe/flow/job_plan.cpp:306-318 | any dependency between two jobs is one of the later job's first node on the earlier job's last node |
| `Schedules.JobOrderIsNodeOrder` | libs/flow/src/strobe/flow/job_plan.cpp:320-339 | the planned graph orders two jobs exactly when the first node of the later depends on the last node of the earlier |
| `Schedules.SchedulesAreLinearExtensions` | libs/flow/src/strobe/flow/job_plan.cpp:188-339 | the schedules of the plan, nodes of a job in stored order, are exactly the linear extensions of the node dependencies |
| `Schedules.NeighboursAreFusable` | libs/flow/src/strobe/flow/job_plan.cpp:267-304 | two nodes are neighbours in a job exactly when they are fusable |
| `Schedules.ReleasePlacement` | libs/flow/src/strobe/flow/job_plan.cpp:341-371 | a released resource follows exactly one job, whose last node is its highest-numbered frontier |
| `Schedules.StandsAloneInJob` | libs/flow/src/strobe/flow/job_plan.cpp:60-63 | a node of kind acquire, yield or phi, one with temporal edges, or one inside a control is the only node of its job |
| `Schedules.JoinedExactly` | libs/flow/src/strobe/flow/job_plan.cpp:81-115 | two nodes are neighbours in a job exactly when neither has to stand alone, they are in the same regions, no lifetime that ends in the run ends with the first, and the link between them is the only one of both; read off the compiled tables |
| `Schedules.ReleasedExactly` | libs/flow/src/strobe/flow/job_plan.cpp:242-265 | a resource is released after a job exactly when its lifetime ends in the run, with the last node of the job; read off the lifetimes |
| `SequentialExecution.ExecuteInitialization` | libs/flow/src/strobe/flow/program.cpp:1220-1241 | runs the nodes outside regions in order with the releases of each, and refuses exactly structured control outside the regions |
| `SequentialExecution.ReleaseAfterNode` | libs/flow/src/strobe/flow/program.cpp:1432-1449 | releases the resources of a job after its last node and nothing after the others |
| `SequentialExecution.ReleasedAfterItsLastFrontier` | libs/flow/src/strobe/flow/program.cpp:1432-1449 | a node is followed by the release of a resource exactly when it is the resource's last frontier |
| `SequentialExecution.ReleasedOnceAfterFrontiers` | libs/flow/src/strobe/flow/program.cpp:1220-1241 | every event happens once; a resource is released exactly when its last frontier lies outside the regions, after every frontier outside them has run |
| `SequentialExecution.HappensExactly` | libs/flow/src/strobe/flow/program.cpp:1220-1241 | a node runs exactly when no region lists it, and a resource is released exactly when its lifetime ends in the run with such a node; read off the compiled tables |
| `FeedbackPlan.RegionOfNodes` | libs/flow/src/strobe/flow/program_artifact.cpp:45-71 | the table maps every node to the region that lists it |
| `FeedbackPlan.RegionJobs` | libs/flow/src/strobe/flow/program_artifact.cpp:73-111 | lists each job of the region once, ascending if the region is |
| `FeedbackPlan.TerminalJobs` | libs/flow/src/strobe/flow/program_artifact.cpp:113-135 | lists once each job of a node that nothing in the region depends on, and no other |
| `FeedbackPlan.BuildSubmissionPlan` | libs/flow/src/strobe/flow/program_artifact.cpp:45-154 | builds these lists for every region, and the least dependency capacity that covers the region and each of its jobs |
| `FeedbackPlan.JobsStayInRegions` | libs/flow/src/strobe/flow/program_artifact.cpp:97-103 | a planned job never crosses a region boundary |
| `FeedbackPlan.IterationRespectsDependencies` | libs/flow/src/strobe/flow/program.cpp:967-991 | in every iteration of a convex region a job runs after the jobs its nodes depend on in the region |
| `FeedbackPlan.FinishFollowsRegion` | libs/flow/src/strobe/flow/program.cpp:1159-1191 | the finish waits only for terminal jobs and releases and still comes after every node of the region |
| `FeedbackPlan.PredecessorsAreSubmittedFirst` | libs/flow/src/strobe/flow/program.cpp:967-991 | an ascending region submits every job after its predecessors in the region |
| `FeedbackSubmission.CollectDependencies` | libs/flow/src/strobe/flow/program.cpp:967-1024 | a job is submitted with its planned predecessors in the region (which have all been submitted), the initialization for others and in the first iteration, its temporal and memoized predecessors in the iteration before, and whoever accessed its serialized resources last |
| `FeedbackSubmission.CollectFrontiers` | libs/flow/src/strobe/flow/program.cpp:1130-1148 | a release gets the jobs of all its frontier nodes, or is refused exactly when one is outside the region or not submitted |
| `FeedbackSubmission.SubmitIteration` | libs/flow/src/strobe/flow/program.cpp:927-1191 | the recorded dependencies of all jobs, releases and the finish of an iteration; it fails exactly when a release comes before one of its frontier jobs or crosses the region, or a serialized resource is out of range |
| `FeedbackSubmission.RecordGivesIteration` | libs/flow/src/strobe/flow/program.cpp:927-1191 | every order that respects the record is an iteration in the sense of the two theorems above |
| `FeedbackSubmission.SubmittedIterationIsOrdered` | libs/flow/src/strobe/flow/program.cpp:927-1191 | however a submitted iteration of a convex region is ordered, dependencies are respected and the finish comes after every node |
| `FeedbackSubmission.IterationFollowsEarlier` | libs/flow/src/strobe/flow/program.cpp:988-1008 | the first iteration follows the initialization; later ones follow their temporal predecessors and, for memoized nodes, themselves in the iteration before |
| `FeedbackSubmission.OutsideFollowsInitialization` | libs/flow/src/strobe/flow/program.cpp:983-990 | in every iteration a node that depends, directly or not, on a node outside the region runs after the initialization |
| `FeedbackSubmission.JobsWaitForOwnRegion` | libs/flow/src/strobe/flow/program.cpp:967-1024 | a job waits for nothing else outside its region, not even for another region its nodes depend on, but for whoever accessed a serialized resource last |
| `FeedbackSubmission.SerializedJobsAreOrdered` | libs/flow/src/strobe/flow/program.cpp:1009-1024 | jobs of an iteration that access the same serialized resource run in the order of submission |
| `FeedbackSubmission.SerializedFollowsEarlier` | libs/flow/src/strobe/flow/program.cpp:1009-1024 | and after whoever accessed it before the iteration |
| `SubmissionRecord.SerializationAccessesAreOrdered` | libs/flow/src/strobe/flow/program.cpp:1009-1024 | jobs with nodes that list accesses of one resource with the purpose of serialization run in the order of submission, after whoever accessed the resource before the iteration |
| `SubmissionRecord.SerializedAwaitedExactly` | libs/flow/src/strobe/flow/program.cpp:1009-1024 | a job is recorded to wait for whoever accessed a resource before the iteration exactly when a node of it lists a serialization access of that resource and no earlier job of the iteration does |
| `SubmissionRecord.JobsAwaitedExactly` | libs/flow/src/strobe/flow/program.cpp:967-1024 | it waits for another job of the iteration exactly when that is a planned predecessor or the latest before it with serialization accesses of a resource for which it has some |
| `SubmissionRecord.InitializationAwaitedExactly` | libs/flow/src/strobe/flow/program.cpp:967-991 | it waits for the initialization exactly in the first iteration or if a planned predecessor lies outside the region |
| `SubmissionRecord.PreviousAwaitedExactly` | libs/flow/src/strobe/flow/program.cpp:992-1008 | it waits for a job of the iteration before exactly for the temporal predecessors of its nodes in the region and, with a memoized node, for itself |
| `SubmissionRecord.ReleasesRecordedExactly` | libs/flow/src/strobe/flow/program.cpp:1130-1157 | an iteration releases a resource exactly when its lifetime ends in the run with a node of the region, and the release waits for the jobs of all its frontier nodes and nothing else |
| `SubmissionRecord.ReleasesAcceptedExactly` | libs/flow/src/strobe/flow/program.cpp:1140-1145 | no release of a region is refused exactly when every lifetime that ends in the run with a node of the region has all its frontier nodes in the region, in jobs no later than that node |
| `SubmissionRecord.FinishAwaitsExactly` | libs/flow/src/strobe/flow/program.cpp:1159-1190 | the finish waits for exactly the releases and the jobs of nodes on which no node of the region depends |
| `FeedbackSubmission.DependenciesFit` | libs/flow/src/strobe/flow/program.cpp:953-966 | the recorded dependencies of every job fit the planned capacity, unless it has both temporal predecessors and serialized resources |
| `FeedbackSubmission.ReleaseFits` | libs/flow/src/strobe/flow/program.cpp:1130-1148 | so do those of every release |
| `FeedbackSubmission.FinishFits` | libs/flow/src/strobe/flow/program.cpp:1159-1190 | and those of the finish |
| `CompletionHistory.CompletionHistory.Dependency` | libs/flow/src/strobe/flow/program.cpp:1044-1058 | what the history row answers, and that it is the completion of acquisition a-(s-1) for 2 to max_in_flight+1 slots |
| `CompletionHistory.CompletionHistory.Record` | libs/flow/src/strobe/flow/program.cpp:1198-1215 | records a completion in the row of its resource and in no other |
| `CompletionHistory.HistoryEntryIsExact` | libs/flow/src/strobe/flow/program.cpp:1044-1058 | the row entry is that completion exactly for 2 to max_in_flight+1 slots |
| `CompletionHistory.RowsAreDisjoint` | libs/flow/src/strobe/flow/program.cpp:1049-1050 | the rows of different resources do not alias |
| `RetainedFeedback.SubmissionRecordsDependencies` | libs/flow/src/strobe/flow/program.cpp:1025-1062 | acquisition a is submitted with exactly the acquisition and the last writer of the iteration before and the completion of iteration a-(s-1) as dependencies |
| `RetainedFeedback.EarlierIterationsFinished` | libs/flow/src/strobe/flow/program.cpp:1025-1062 | before acquisition a runs, all iterations up to a-(s-1) but the first have finished |
| `RetainedFeedback.SomeJobIsReady` | libs/flow/src/strobe/flow/program.cpp:967-1062 | the recorded dependencies have no cycle: while a submitted job has not run, some job may run |
| `RetainedFeedback.StepKeepsInvariant` | libs/flow/src/strobe/flow/detail/program_runtime.hpp:415-450 | under the condition every submission, phi, acquisition, production and finish keeps the invariant of slots, generations to feed back and to release, and dependencies |
| `RetainedFeedback.ReleasesHeldGeneration` | libs/flow/src/strobe/flow/detail/program_runtime.hpp:874-899 | an iteration releases the generation of the one before, if there is one, and it is held in its own slot |
| `RetainedFeedback.RetainedSlotsNeverCollide` | libs/flow/src/strobe/flow/detail/program_runtime.hpp:415-450 | if construction always executes and the producer depends on the phi: in every interleaving, when acquisition a may run all generations up to a-s are released and slot a mod s is free |
| `RetainedFeedback.NeverFailsExactly` | libs/flow/src/strobe/flow/detail/program_runtime.hpp:539-575 | no interleaving finds a slot taken, lacks a generation to feed back or releases what is not held, exactly when the producer does not run without a construction, and a construction that has executed is never skipped and has a producer that depends on the phi |
| `RetainedFeedback.SkippedConstructionFails` | libs/flow/src/strobe/flow/program.cpp:1301-1308 | execute, skip, execute: a run releases a generation twice |
| `RetainedFeedback.UnorderedProducerFails` | libs/flow/src/strobe/flow/detail/compiler/build_graph.hpp:68-84 | a producer that the phi does not precede makes a run fail although construction always executes |
| `RetainedFeedback.SkippedFirstConstructionFails` | libs/flow/src/strobe/flow/detail/program_runtime.hpp:564-572 | a producer that runs before any construction has executed finds no generation |
| `SlotTable.StepKeepsInvariant` | libs/flow/src/strobe/flow/detail/program_runtime.hpp:928-1003 | every acquire, mark and release phase keeps occupancy counts, generation order and object accounting |
| `SlotTable.PhysicalSlotsAreExclusive` | libs/flow/src/strobe/flow/detail/program_runtime.hpp:1133-1204 | in every run a physical slot is held by at most one logical slot |
| `SlotTable.ReleasedTicketNeverValidates` | libs/flow/src/strobe/flow/detail/program_runtime.hpp:1208-1218 | in every run a released ticket never passes validation again while the counter has not wrapped |
| `SlotTable.ObjectsAreDestroyedOnce` | libs/flow/src/strobe/flow/detail/program_runtime.hpp:976-1003 | in every run no object is destroyed twice, and with the teardown each is destroyed once |
| `SlotTable.HolderOccupiesPhysicalSlot` | libs/flow/src/strobe/flow/detail/program_runtime.hpp:998-1000 | the occupancy assertion of a release always holds |
| `SlotTable.GateStaysOpen` | libs/flow/src/strobe/flow/detail/program_runtime.hpp:1137-1143 | once all slots of a preconstructed resource are constructed the gate of acquisition stays open |
| `SlotTable.AcquirableExactly` | libs/flow/src/strobe/flow/detail/program_runtime.hpp:1170-1204 | in every run a slot can be acquired exactly when no slot on its physical slot is held and, if its resource is preconstructed, it is constructed |
| `SlotTable.SomeSlotAcquirableExactly` | libs/flow/src/strobe/flow/detail/program_runtime.hpp:1133-1166 | an acquisition finds a slot exactly when some slot can be acquired and, for a preconstructed resource, all slots are constructed; it finds the lowest |
| `SlotTable.ReleasedSlotIsAcquirable` | libs/flow/src/strobe/flow/detail/program_runtime.hpp:993-1002 | in every run a released slot of a resource that is not preconstructed can be acquired at once, with a ticket that validates |
| `SlotTable.NewHolderGoesOn` | libs/flow/src/strobe/flow/detail/program_runtime.hpp:967-989 | whoever has acquired a slot can construct an object in it, unless the resource is preconstructed, and release it |
| `SlotTable.WhatReleaseLeaves` | libs/flow/src/strobe/flow/detail/program_runtime.hpp:976-1003 | a whole release frees the slot, destroys the object in it once if there is one, has a destructor and is not preconstructed, and changes no other slot |
| `SlotTable.NextGenerationExactly` | libs/flow/src/strobe/flow/detail/program_runtime.hpp:1155-1158 | in every run the generation issued after n others is 1 + n mod (2^64 - 1): never zero, and repeated only after all others |
| `ProgramRuntime.ProgramRuntime.TryAcquire` | libs/flow/src/strobe/flow/detail/program_runtime.hpp:1133-1166 | takes the lowest available slot with a fresh generation, or changes nothing exactly when the gate is closed or no slot is available |
| `ProgramRuntime.ProgramRuntime.TryAcquirePreferred` | libs/flow/src/strobe/flow/detail/program_runtime.hpp:1170-1194 | takes the preferred slot exactly when it is available |
| `ProgramRuntime.ProgramRuntime.AcquireUnconstructed` | libs/flow/src/strobe/flow/detail/program_runtime.hpp:928-955 | takes the lowest unconstructed slot, or would wait exactly when there is none |
| `ProgramRuntime.ProgramRuntime.MarkConstructed` | libs/flow/src/strobe/flow/detail/program_runtime.hpp:967-972 | marks the ticket's slot only |
| `ProgramRuntime.ProgramRuntime.BeginRelease` | libs/flow/src/strobe/flow/detail/program_runtime.hpp:976-989 | decides whether a destructor runs; the slot stays occupied |
| `ProgramRuntime.ProgramRuntime.EndRelease` | libs/flow/src/strobe/flow/detail/program_runtime.hpp:993-1002 | frees the slot and its physical slot |
| `ProgramRuntime.ProgramRuntime.Release` | libs/flow/src/strobe/flow/detail/program_runtime.hpp:976-1003 | both phases with the destructor between them |
| `ProgramRuntime.ProgramRuntime.Preconstruct` | libs/flow/src/strobe/flow/program.cpp:1331-1361 | starting free and unconstructed, the loop leaves every slot constructed and available without ever waiting |
| `PhysicalPlan.Find` | libs/flow/src/strobe/flow/detail/compiler/plan_physical_storage.hpp:30-41 | returns the root of a slot; path compression keeps all roots |
| `PhysicalPlan.JoinOverlapping` | libs/flow/src/strobe/flow/detail/compiler/plan_physical_storage.hpp:43-81 | overlapping slots get the same root, and a slot is joined to its root by overlaps |
| `PhysicalPlan.NumberClasses` | libs/flow/src/strobe/flow/detail/compiler/plan_physical_storage.hpp:83-92 | numbers the classes densely, one number for each |
| `PhysicalPlan.PlanPhysicalStorage` | libs/flow/src/strobe/flow/detail/compiler/plan_physical_storage.hpp:14-116 | slots share a physical slot exactly when a chain of overlaps joins them; each frontier has room for the last users of every resource of its slot |
| `PhysicalPlan.LiveSlotsNeverOverlap` | libs/flow/src/strobe/flow/detail/program_runtime.hpp:1198-1204 | in every run of the slot table, slots held at the same time do not overlap in the storage |
| `PhysicalPlan.OverlapMeansCommonByte` | libs/flow/src/strobe/flow/detail/compiler/plan_physical_storage.hpp:66-70 | two extents have a byte in common exactly when the test finds them overlapping and neither is empty |
| `PhysicalPlan.LiveSlotsShareNoByte` | libs/flow/src/strobe/flow/detail/compiler/plan_physical_storage.hpp:43-81 | in every run no byte of the storage belongs to two slots that are held at the same time |
| `PhysicalStorage.PhysicalStorageState.Acquire` | libs/flow/src/strobe/flow/detail/physical_storage_state.hpp:41-50 | the slots of a resource in turn, none for a resource without slots |
| `PhysicalStorage.PhysicalStorageState.PhysicalSlot` | libs/flow/src/strobe/flow/detail/physical_storage_state.hpp:52-65 | looks up the physical slot, refusing exactly slots out of range |
| `PhysicalStorage.PhysicalStorageState.Frontier` | libs/flow/src/strobe/flow/detail/physical_storage_state.hpp:67-71 | the jobs that the next tenant of the slot waits for |
| `PhysicalStorage.PhysicalStorageState.ClearFrontier` | libs/flow/src/strobe/flow/detail/physical_storage_state.hpp:73-76 | empties one frontier and no other |
| `PhysicalStorage.PhysicalStorageState.ReplaceFrontier` | libs/flow/src/strobe/flow/detail/physical_storage_state.hpp:78-86 | makes one job the whole frontier of its slot and touches no other |
| `PhysicalStorage.PhysicalStorageState.AppendFrontier` | libs/flow/src/strobe/flow/detail/physical_storage_state.hpp:88-101 | adds a job as to a set, and fails exactly when a new job finds no room |
| `PhysicalStorage.PhysicalStorageState.Advance` | libs/flow/src/strobe/flow/detail/physical_storage_state.hpp:103-106 | moves one resource on to its next slot |
| `Tenancies.AcquireKeepsInvariant` | libs/flow/src/strobe/flow/program.cpp:1063-1084 | a new tenant waits for the whole frontier and becomes the frontier |
| `Tenancies.UseKeepsInvariant` | libs/flow/src/strobe/flow/program.cpp:1118-1128 | frontier jobs replace the acquisition in the frontier, as a set |
| `Tenancies.ReleaseKeepsInvariant` | libs/flow/src/strobe/flow/program.cpp:1130-1152 | the release waits for the frontier jobs and replaces them |
| `Tenancies.TenanciesAreOrdered` | libs/flow/src/strobe/flow/program.cpp:1063-1157 | a new tenant depends, directly or not, on the acquisition, every last user and the release of every earlier tenant |
| `Tenancies.TenanciesNeverOverlap` | libs/flow/src/strobe/flow/program.cpp:1063-1157 | in every order the scheduler may choose, all of these run before the new tenant |
| `Tenancies.TenancyRunsInOrder` | libs/flow/src/strobe/flow/program.cpp:1118-1152 | in every such order a last user runs after the acquisition of its tenancy and before the release |
| `Tenancies.ReleasedExactlyOnce` | libs/flow/src/strobe/flow/program.cpp:1130-1152 | the latest tenancy of a slot can be released exactly when it has a frontier job and was not released; the release is then the whole frontier |
| `Tenancies.AllCanRunExactly` | libs/flow/src/strobe/flow/program.cpp:1063-1084 | some order of all submitted jobs respects their dependencies exactly when no job takes a slot whose frontier it is in already |
| `Tenancies.FusedAcquisitionsNeverRun` | libs/flow/src/strobe/flow/program.cpp:1085-1096 | a job that takes the only slot for two resources is such a case |
| `Tenancies.FrontierHasRoom` | libs/flow/src/strobe/flow/detail/physical_storage_state.hpp:88-101 | a frontier with room for the frontier jobs of its tenant has room for the next of them |
| `Tenancies.PlannedFrontierHasRoom` | libs/flow/src/strobe/flow/detail/compiler/plan_physical_storage.hpp:86-113 | the capacities that `PlanPhysicalStorage` plans are enough |
| `Tenancies.UseFrontier` | libs/flow/src/strobe/flow/program.cpp:1118-1128 | on planned tables the first frontier job of a tenancy empties the frontier, and appending never fails |
| `ActivationPool.ActivationTables.BeginExecution` | libs/flow/src/strobe/flow/detail/program_runtime.hpp:344-360 | hands out the top of the free stack, growing the pool if it is empty, and waits exactly when it is exhausted |
| `ActivationPool.ActivationTables.AllocateActivation` | libs/flow/src/strobe/flow/detail/program_runtime.hpp:1017-1049 | adds one free activation, and fails exactly at capacity |
| `ActivationPool.ActivationTables.ResumeExecution` | libs/flow/src/strobe/flow/detail/program_runtime.hpp:403-411 | resumes exactly occupied activations that are not running |
| `ActivationPool.ActivationTables.FinishExecution` | libs/flow/src/strobe/flow/detail/program_runtime.hpp:874-899 | a complete execution gives its activation back, a suspended one keeps it |
| `ActivationPool.ActivationsArePartitioned` | libs/flow/src/strobe/flow/detail/program_runtime.hpp:344-360 | activations in use and free ones add up to the allocated ones; exhausted means all are in use |
| `ActivationPool.ActivationsAreNeverShared` | libs/flow/src/strobe/flow/detail/program_runtime.hpp:344-411 | in every run a new execution gets an activation that no execution in progress holds |
| `ActivationPool.WhatMayHappen` | libs/flow/src/strobe/flow/detail/program_runtime.hpp:344-411 | in every run an execution can be resumed exactly while it is in progress and suspended, suspended or completed exactly while in progress and not suspended, and begun exactly while some activation is not in use |
| `Incremental.IncrementalRuntime.ShouldRun` | libs/flow/src/strobe/flow/detail/program_runtime.hpp:506-521 | a memoised node with inputs runs exactly when one of them changed |
| `Incremental.IncrementalRuntime.EvaluateCutoff` | libs/flow/src/strobe/flow/detail/program_runtime.hpp:472-502 | copies an input that differs from the stored copy, outputs the copy, and says whether it changed |
| `Incremental.IncrementalRuntime.Initialize` | libs/flow/src/strobe/flow/program.cpp:1220-1241 | before feedback regions, an activation of its own runs the initialization nodes |
| `Incremental.IncrementalRuntime.RunActivation` | libs/flow/src/strobe/flow/program.cpp:1297-1320 | runs all nodes of an activation, the initialization nodes only if they have not run, and skips unchanged memoised ones |
| `Incremental.MemoisationAgrees` | libs/flow/src/strobe/flow/program.cpp:599-613 | ordinary submissions: after any number of activations the values equal evaluating everything on the latest externals |
| `Incremental.MemoisationInRegionsAgreesExactly` | libs/flow/src/strobe/flow/program.cpp:870-878 | feedback regions: they do exactly when no memoised node is fed by initialization values alone |
| `Incremental.UnmarkedIsUnchanged` | libs/flow/src/strobe/flow/detail/program_runtime.hpp:506-535 | in every activation a value not marked changed is the one the activation found |
| `Incremental.UnmarkedIsCurrent` | libs/flow/src/strobe/flow/detail/program_runtime.hpp:472-521 | with cutoffs that compare by equality, it is what evaluating everything gives on the new externals, which is what it gives on the old |
| `Incremental.MarkedExactly` | libs/flow/src/strobe/flow/detail/program_runtime.hpp:472-535 | with cutoffs that compare by equality exactly, in every activation after the first a cutoff is marked exactly when its input is not what it was in the activation before, and a memoised node with inputs runs exactly when one of them is external or marked |
| `Incremental.CutoffsShieldMemoised` | libs/flow/src/strobe/flow/detail/program_runtime.hpp:487-521 | so a memoised node fed by cutoffs alone is skipped, its value kept, exactly when none of their inputs changed |
| `Incremental.MemoisedInitializationConsumer` | libs/flow/src/strobe/flow/program.cpp:870-878 | in a feedback region a memoised node with only an initialization input breaks that condition |
| `StructuredControl.ControlInterpreter.ExecuteControlIteration` | libs/flow/src/strobe/flow/program.cpp:1451-1542 | one invocation: the initial condition only at invocation 0 of a loop, one branch, phis by invocation, then the repeat condition |
| `StructuredControl.ControlInterpreter.ExecuteControl` | libs/flow/src/strobe/flow/program.cpp:1544-1550 | invocations until one does not repeat |
| `StructuredControl.ControlInterpreter.SelectPhi` | libs/flow/src/strobe/flow/detail/program_runtime.hpp:621-654 | copies the feedback value or the initial value to the output |
| `StructuredControl.ControlWithMoreFuel` | libs/flow/src/strobe/flow/program.cpp:1544-1550 | the bound on repetitions never changes a result |
| `StructuredControl.InterpreterIsBigStep` | libs/flow/src/strobe/flow/program.cpp:1451-1550 | the interpreter ends with a result exactly when the while program that the tables mean does, with the same result |
| `StructuredControl.PhiSelects` | libs/flow/src/strobe/flow/detail/program_runtime.hpp:621-654 | a phi leaves in its output the initial value in the first invocation and the feedback value in later ones; every other value stays |
| `StructuredControl.BranchIsTaken` | libs/flow/src/strobe/flow/program.cpp:1488-1495 | a branch runs its primary steps if its condition reads as true in the values it finds, its secondary steps if not, once |
| `StructuredControl.LoopIsSkipped` | libs/flow/src/strobe/flow/program.cpp:1475-1478 | a loop whose initial condition does not read as true leaves the values as they are |
| `StructuredControl.LoopRepeats` | libs/flow/src/strobe/flow/program.cpp:1535-1549 | a loop that is entered repeats its steps while the repeat condition reads as true in what they left, and ends with what the last invocation left |
| `PlatformExecutor.StepKeepsInvariant` | libs/platform/src/strobe/platform/platform.cpp:103-216 | every atomic step of every thread keeps ring, semaphore, mutex, history, shutdown and wake-up invariants |
| `PlatformExecutor.WriterFindsEmptyCell` | libs/platform/src/strobe/platform/platform.cpp:206-208 | no ring cell is overwritten |
| `PlatformExecutor.PopperFindsRequest` | libs/platform/src/strobe/platform/platform.cpp:104-110 | a ready token always leads to the oldest request |
| `PlatformExecutor.RequestsExecuteOnceInOrder` | libs/platform/src/strobe/platform/platform.cpp:103-119 | in every run requests execute at most once, in insertion order |
| `PlatformExecutor.ReturnedMeansAllCompleted` | libs/platform/src/strobe/platform/platform.cpp:121-140 | when the event loop has returned every admitted request is executed and completed |
| `PlatformExecutor.RunReturnsAfterExecution` | libs/platform/src/strobe/platform/platform.cpp:184-216 | a call of run returns only after its request was executed |
| `PlatformExecutor.NoLostWakeUp` | libs/platform/src/strobe/platform/platform.cpp:121-140 | while the consumer waits although there is work, an event is pending or about to be posted |
| `PlatformExecutor.NoDeadlock` | libs/platform/src/strobe/platform/platform.cpp:103-216 | while a request is unfinished or the shutdown is under way, some thread can go on |
| `ExecutorProgress.RejectedOnlyWhenClosed` | libs/platform/src/strobe/platform/platform.cpp:194-200 | in every run a call is rejected only once the executor has been closed |
| `ExecutorProgress.CallIsAdmittedExactly` | libs/platform/src/strobe/platform/platform.cpp:194-200 | a call waits while the mutex is held; then it is admitted with a fresh request, or rejected exactly if the executor is closed |
| `ExecutorProgress.OpenCallCompletes` | libs/platform/src/strobe/platform/platform.cpp:184-216 | from every reachable state of an open executor some run admits a thread that calls, executes and completes its request and returns |
| `ExecutorProgress.ClosesExactly` | libs/platform/src/strobe/platform/platform.cpp:142-151 | the executor is closed once, and never while a thread is in the mutex |
| `ExecutorProgress.OpenExecutorShutsDown` | libs/platform/src/strobe/platform/platform.cpp:121-151 | from every reachable state of an open executor some run closes it and lets the event loop return |
| `ExecutorProgress.ClosedLoopLeavesForGood` | libs/platform/src/strobe/platform/platform.cpp:121-140 | the event loop of a closed executor leaves its first drain at the next test and never comes back to it |
| `ExecutorShutdown.ClosedStepAdvances` | libs/platform/src/strobe/platform/platform.cpp:121-153 | once the executor is closed every step of every thread, unless an unrelated window event wakes the platform thread, lowers a rank |
| `ExecutorShutdown.ClosedExecutorReturns` | libs/platform/src/strobe/platform/platform.cpp:121-153 | so the event loop returns, in whatever order the threads go on |
| `ExecutorShutdown.ClosedExecutorCanAdvance` | libs/platform/src/strobe/platform/platform.cpp:121-153 | and until it has returned some thread can take such a step |
| `ExecutorState.Executor.WriteRequest` | libs/platform/src/strobe/platform/platform.cpp:204-210 | writes the request into the empty cell at the write index and moves the index on |
| `ExecutorState.Executor.PublishRequest` | libs/platform/src/strobe/platform/platform.cpp:210-212 | releases the ready token, the admission and the mutex |
| `ExecutorState.Executor.PopRequest` | libs/platform/src/strobe/platform/platform.cpp:105-110 | takes the oldest request, empties its cell and moves the read index on |
| `ExecutorState.Executor.DrainRequests` | libs/platform/src/strobe/platform/platform.cpp:103-119 | with no publication meanwhile the drain handles exactly the ready requests, in insertion order |
| `Semaphores.TokenTable.Release` | libs/flow/src/strobe/flow/detail/program_runtime.hpp:287-305 | adds to the first semaphore of that name; an unknown name or an overflow changes nothing |
| `Semaphores.TokenTable.TryConsumeToken` | libs/flow/src/strobe/flow/detail/program_runtime.hpp:308-318 | takes one token exactly when there is one |
| `Semaphores.TokenTable.TryConsumeTokens` | libs/flow/src/strobe/flow/detail/program_runtime.hpp:321-341 | consumes everything required or nothing; with distinct semaphores each loses exactly its total |
| `Semaphores.CheckCoversTotalExactly` | libs/flow/src/strobe/flow/detail/program_runtime.hpp:329-340 | the check covers the totals for all token counts exactly when no semaphore has two positive requirements |
| `Semaphores.ConsumedWraps` | libs/flow/src/strobe/flow/detail/program_runtime.hpp:335-340 | whatever is required, a counter loses the total modulo 2^64, and exactly the total if that is covered |
| `Channels.Channel.Push` | libs/flow/util/include/strobe/flow/channel.hpp:29-36 | adds the value behind all values sent before |
| `Channels.Channel.Receive` | libs/flow/util/include/strobe/flow/channel.hpp:51-56 | the k-th value received is the k-th value sent |
| `Channels.ReceiveFindsAValue` | libs/flow/util/include/strobe/flow/channel.hpp:45-58 | in every run every pop of a submitted iteration finds a value |
| `Channels.ReceivedInSendingOrder` | libs/flow/util/include/strobe/flow/channel.hpp:29-58 | in every run the values received are the first values sent, in order |
| `Channels.TokensAreConserved` | libs/flow/src/strobe/flow/program.cpp:884-886 | in every run tokens released equal tokens left plus iterations times requirement |
| `Channels.WhatCanHappen` | libs/flow/util/include/strobe/flow/channel.hpp:29-58 | in every run a channel can be popped exactly while the submitted iterations have required more of it than was received, and one token can be released for every value sent |
| `Handles.Heap.UnpinHandle` | libs/rhi/vulkan/strobe/rhi/handle.hpp:161-192 | the last pin destroys the block, which gives up its pin on the storage, whose last pin destroys the storage |
| `Handles.Heap.Make` | libs/rhi/vulkan/strobe/rhi/handle.hpp:128-155 | a new block has one pin and pins its storage |
| `Handles.Heap.Default` | libs/rhi/include/strobe/rhi/objects/object.hpp:30-30 | a default object holds nothing |
| `Handles.Heap.Copy` | libs/rhi/include/strobe/rhi/objects/object.hpp:31-35 | a copy pins the block it shares |
| `Handles.Heap.Move` | libs/rhi/include/strobe/rhi/objects/object.hpp:36-36 | a move transfers the reference without counting |
| `Handles.Heap.Assign` | libs/rhi/include/strobe/rhi/objects/object.hpp:38-49 | assignment shares the source's block and drops its own, also when they are the same |
| `Handles.Heap.MoveAssign` | libs/rhi/include/strobe/rhi/objects/object.hpp:51-61 | move assignment drops its own block and takes over the source's |
| `Handles.Heap.Drop` | libs/rhi/include/strobe/rhi/objects/object.hpp:63-66 | destroying an object drops its block |
| `Handles.Heap.DropHandle` | libs/rhi/vulkan/strobe/rhi/handle.hpp:85-96 | destroying an allocator handle destroys the storage if it was the last pin |
| `Handles.CountsAreExact` | libs/rhi/vulkan/strobe/rhi/handle.hpp:41-192 | in every run a block counts the objects that hold it, a storage its handles and existing blocks |
| `Handles.HeldIsLive` | libs/rhi/vulkan/strobe/rhi/handle.hpp:144-192 | in every run what an object holds is live and the storage of an existing block is live |
| `Handles.PhasesMoveOn` | libs/rhi/vulkan/strobe/rhi/handle.hpp:161-192 | in every run blocks and storages are destroyed at most once, after their count reached zero |
| `Handles.NothingLeaks` | libs/rhi/vulkan/strobe/rhi/handle.hpp:161-192 | with nothing held and no destruction pending, everything is destroyed |
| `Handles.WhatObjectsHold` | libs/rhi/include/strobe/rhi/objects/object.hpp:28-66 | what every object holds after each step: copies and assigned objects share the source's block, moved-from objects hold nothing, a made object holds a block of the allocator's storage that no object held |
| `Handles.WhatAllocatorsHold` | libs/rhi/vulkan/strobe/rhi/handle.hpp:41-96 | the same of allocator handles and their storage |
| `ArgumentGroups.Recorder.Describe` | libs/flow/include/strobe/flow/detail/op_stream.hpp:771-785 | accepts exactly known resources, and undefined values for writes only |
| `ArgumentGroups.Recorder.AppendSingle` | libs/flow/include/strobe/flow/detail/op_stream.hpp:719-734 | records a single access as a group of one, absent if null |
| `ArgumentGroups.Recorder.AppendRange` | libs/flow/include/strobe/flow/detail/op_stream.hpp:737-760 | records a group with the absent elements in place |
| `ArgumentGroups.Recorder.AppendSerialization` | libs/flow/include/strobe/flow/detail/op_stream.hpp:762-801 | records a serialization access of a known, defined resource and no argument; a null one leaves no trace |
| `ArgumentGroups.Recorder.UpdateDefinedResources` | libs/flow/include/strobe/flow/detail/op_stream.hpp:708-716 | afterwards written resources hold a value, consumed ones do not, others are as before |
| `ArgumentGroups.ValidateGroups` | libs/flow/src/strobe/flow/op_stream.cpp:337-367 | accepts exactly the partitions of arguments and elements into consecutive groups |
| `ArgumentGroups.PartitionsFollowOneAnother` | libs/flow/src/strobe/flow/op_stream.cpp:337-367 | these partitions are exactly the groups that follow one another from the first argument and element to the last, each naming its own arguments in order |
| `ArgumentGroups.RecordedOperationPassesCheck` | libs/flow/include/strobe/flow/detail/op_stream.hpp:718-768 | whatever is recorded is such a partition, each group standing for its item's resources in the item's mode, and the accesses after the arguments are one for each resource to serialize that is not null, in order |
| `ArgumentGroups.SpansReadWhatWasRecorded` | libs/flow/include/strobe/flow/argument_span.hpp:153-158 | element i of a span is the storage of the i-th recorded resource, and null exactly when that was null |

## Left out

- Schedules: an order interleaves whole nodes; two callbacks that run at the same time are covered as any of their interleavings of whole nodes.
- RetainedFeedback.NeverFailsExactly: submitting one iteration is one step of the submitting thread; one resource with one feedback phi is modelled at a time, the last writer is the producer of the value fed back, and the finish waits for the phi and the producer as `FinishFollowsRegion` shows.
- FeedbackSubmission.SubmitIteration: dependencies for storage slots are not part of the record; they are the subject of `RetainedFeedback` and `Tenancies`.
- FeedbackSubmission.CollectDependencies: the same.
- FeedbackSubmission.DependenciesFit: the dependencies for storage slots, which share the scratch and are guarded by a throw, are not counted.
- Tenancies.TenanciesAreOrdered: frontier jobs are submitted before the slot's next tenant and run after the acquisition, which the compiler's lifetimes provide; other dependencies of a job are arbitrary.
- Incremental.MemoisationAgrees: one output per node and no phis, memoised nodes are constructions, activations one after another.
- StructuredControl.InterpreterIsBigStep: values only.
- StructuredControl.ControlInterpreter.ExecuteControlIteration: the changed flags, which it resets and merges, and the release of replaced generations are not modelled; nodes inside a control execute whatever the flags say.
- StructuredControl.ControlInterpreter.SelectPhi: the value only; the generation that a feedback phi of a region puts up for release is the subject of `RetainedFeedback`.
- ActivationPool.ActivationTables.FinishExecution: the generations that the end of an activation releases are the subject of `RetainedFeedback`.
- PlatformExecutor.NoDeadlock: progress is stated as the existence of a step, and of a run that completes a given request (`OpenCallCompletes`); no fairness of the scheduler is assumed, so other threads may overtake a request. The shutdown is proved to end (`ClosedExecutorReturns`) if unrelated window events stop. Callbacks terminate.
- PlatformExecutor.StepKeepsInvariant: storing the completion flag and notifying the waiting thread are one step.
- Handles.Heap.MoveAssign: values hold no objects, so destroying one does not run object code.
- Index ranges into flat storage, their overflow checks, and 32-bit sentinel values are sequences and options here.
- Calls of `platform::run` on the platform thread itself, which execute directly, and calls after the executor closed, which end the program.
- The parallel single-activation path of `submit` with yields, the sequential resume, and the scheduler's own code.
- The other compiler passes: edges, lifetimes, slot counts and storage offsets enter as inputs.
- Exceptions thrown by callbacks, and the recorded-error path.
- C++ memory orders, raw bytes and alignment, move-only callbacks and templates.
- Vulkan, GLFW, user interface, shaders, printers, formatters and type-name hashing.
