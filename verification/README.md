# Verified model of the workbuddy coordinator

workbuddy drives coding agents from the issues of a repository. This project models the parts of it
whose correctness is not visible from any single function, and proves what they guarantee together:

- **Dependency resolver and dispatch gate** (`Graph`, `CycleDetection`, `Flagging`, `Declaration`, `Verdict`,
  `Resolver`, `Dispatch`): parsing and de-duplicating `depends_on` blocks, the three-colour cycle search, the verdict fold with
  its shared read cache, the stored rows, and the gate that reads them.
- **Task lifecycle** (`Tasks`): claim, heartbeat, release, a result submission in four sections (read, transition,
  publication, signal), reaper, restart, recovery and deregistration as a step system at statement granularity, with
  the store's actual `WHERE` clauses.
- **Poll cycle** (`PollCycle`, `Freshness`): dependency maintenance once per cycle, for all repositories on one event
  channel, and what the gate then holds when an event is forwarded.
- **Configuration** (`NormalForm`, `Registration`, `Reload`): normal forms of agents and states, the registration
  record and its decoding, reload with rollback.
- **Failpoints**, **control loop**, **updater**, **database migration**, **systemd quoting** (`Failpoints`, `Control`,
  `Updater`, `Migration`, `SystemdCommand`).

`Text` and `Sorting` hold the Go string and sort operations these rely on.

Code that mutates state is a class or a method proved equal to a specification function; the theorems are lemmas about
that function, over every input, every run or every interleaving. The outside world (reads, statements that may be
refused, agents, observers, files) is a parameter, so each result holds for every behaviour of it.

`dafny verify dfyconfig.toml` checks everything.

## Where the code is not what it is said to be

Each of these is proved of the model, with the condition under which the code does keep the promise:

- The search does not flag every issue on a cycle (`CycleDetection.UnflaggedOnCycle`). It flags an issue exactly if that
  can get back to itself, or to an issue the search entered it through, by way of issues not entered before it
  (`Flagging.FlaggedIff`): a successor that is finished already is ignored. Hence it flags both ends of some edge of every
  cycle, every cycle of one or two issues, every cycle whose issues have no second edge on a cycle, and every issue on a
  cycle that no smaller one reaches.
- Closing an issue can raise another issue's verdict (`Dispatch.ClosingCanWorsen`), exactly if the search on the present
  graph without the closed issue flags the other (`Dispatch.ClosingWorsensIff`), hence only on a cycle that avoids it.
- An evaluation that fails half-way loses the unblockings it already stored (`Dispatch.StoppingAfterReleaseLosesIt`,
  `Dispatch.FailedEvaluationLosesOpening`).
- A queue in which every unfinished issue is merely blocked needs a dependency that was closed by hand
  (`Dispatch.StalledQueueHasClosedByHand`).
- Recovery updates rows unconditionally: the status of a settled task changes exactly if it was not failed and a recovery
  update found it still listed (`Tasks.SettledStatusIff`, `Tasks.ConcurrentRecoveryOverwrites`).
- The reaper re-checks the status and not the staleness, so it can fail a task that has just been renewed: exactly if a
  heartbeat or claim landed within the grace after its query (`Tasks.ReapedStaleIff`, `Tasks.FreshRunnerStillReaped`).
  An error in the middle of a pass leaves the rows it has failed unreported (`Tasks.Coordinator.RunOnce`).
- A settled submission is published exactly if its publishing section runs before the process next dies, and signalled
  exactly if the signalling section then does too: a crash after the transition loses both announcements, a crash after
  the publication loses the signal, for good (`Tasks.PublishedIff`, `Tasks.SettledFollowedIff`, `Tasks.CutNeverSignalled`).
- A released task is said to go back to the pool; it keeps its lease and is claimable only once that has run out
  (`Tasks.ReleasedClaimableIff`).
- A reload is said to restore the previous configuration on any error. The stored row is restored exactly when the row
  looked up under the configured repo is the row that was overwritten; a repo configured with a stray space is
  deregistered instead (`Reload.RolledBackIff`, `Reload.UntrimmedRepoIsDeregistered`).
- The poll interval does not survive registration (`Registration.BuiltDecodes`), and an agent whose schema file is
  relative loads but cannot be registered (`Registration.LoadedRegistersIff`).
- The updater can record a version twice, exactly if releases replace one another in a circle, as 2, 10 and 1a do
  (`Updater.RepeatIffCircle`, `Updater.TwoTenOneARepeat`).
- The updater's help says that a failure leaves the binary untouched; it does exactly if the failure comes before or at
  the install or the bytes are the same (`Updater.FailureKeepsBinaryIff`). After an attempt that got past the install,
  failed or not, the next upgrade backs up that binary, and a rollback no longer restores the one before
  (`Updater.RollbackRestoresIff`).
- The ExecStart value stays on one line exactly if no argument holds a newline (`SystemdCommand.OneLineIff`).

## Model

| member | source | states |
|---|---|---|
| `CycleDetection.CyclesSound` | internal/dependency/dependency.go:535-587 | the path recorded for an issue is a closed walk of the graph through that issue that repeats no node but its endpoint |
| `CycleDetection.CyclesComplete` | internal/dependency/dependency.go:535-574 | every directed cycle of every finite graph has an edge with both ends recorded |
| `CycleDetection.EmptyIffAcyclic` | internal/dependency/dependency.go:535-574 | the result is empty if and only if the graph is acyclic |
| `CycleDetection.TrappedSetIsFlagged` | internal/dependency/dependency.go:535-574 | a set of issues each of which depends on a member of the set has a recorded member |
| `Flagging.FlaggedIff` | internal/dependency/dependency.go:535-574 | an issue is recorded iff, from the state in which the search enters it, a walk through nodes not entered before leads back to it or to a node on the stack |
| `Flagging.FlaggedAtEntryIff` | internal/dependency/dependency.go:545-562 | the same of one visit, in any state the search can be in |
| `Flagging.VisitAllLeaves` | internal/dependency/dependency.go:563-573 | a finished issue is not recorded any more |
| `Flagging.LastPathRecorded` | internal/dependency/dependency.go:545-562 | what is recorded for an issue is the path of the last back edge whose path goes through it |
| `CycleDetection.UnreachedFromBelowFlaggedIff` | internal/dependency/dependency.go:563-573 | an issue that no smaller key reaches is recorded if and only if it lies on a cycle |
| `CycleDetection.SoleCycleIsFlagged` | internal/dependency/dependency.go:535-574 | a cycle none of whose nodes has a second edge on a cycle is recorded entirely |
| `CycleDetection.DisjointCyclesFlaggedIff` | internal/dependency/dependency.go:535-574 | where no node has two edges on cycles, exactly the nodes on cycles are recorded |
| `CycleDetection.ShortCycleIsFlagged` | internal/dependency/dependency.go:535-574 | cycles of one or two nodes are recorded entirely |
| `CycleDetection.ScanKeepsInv` | internal/dependency/dependency.go:545-562 | following a node's edges keeps: gray nodes are the stack, the stack is a simple walk, every edge out of a black node is settled, every all-black cycle has a recorded edge |
| `CycleDetection.CloseKeepsInv` | internal/dependency/dependency.go:545-562 | blackening a node keeps that invariant: a cycle completed by it contains a recorded back edge |
| `CycleDetection.UnflaggedOnCycle` | internal/dependency/dependency.go:535-574 | two triangles sharing an edge: the node reached second lies on a cycle and is not recorded |
| `CycleDetection.FlaggedAfterCut` | internal/dependency/dependency.go:535-574 | removing the other node's dependencies makes that node recorded |
| `CycleDetection.ExtractCyclePath` | internal/dependency/dependency.go:576-587 | the stack from the target's first position on, closed by the target |
| `CycleDetection.Detector.VisitNode` | internal/dependency/dependency.go:545-562 | the recursive closure terminates and has the effect of the functional search on colours, stack and records |
| `CycleDetection.Detector.FollowEdge` | internal/dependency/dependency.go:549-558 | the switch on a successor's colour |
| `CycleDetection.Detector.DetectCycles` | internal/dependency/dependency.go:535-574 | from any enumeration of the keys, the output map of the functional search the theorems are about |
| `CycleDetection.SortedKeysUnique` | internal/dependency/dependency.go:563-573 | sorting the keys makes the result independent of map iteration order |
| `Declaration.NormalizeDependency` | internal/dependency/dependency.go:351-410 | every entry becomes an active same-repo, a cross-repo or an invalid dependency of the stated shape |
| `Declaration.LocalReferenceParses` | internal/dependency/dependency.go:351-410 | #n, in any space and in plain or escaped quotes, is the active dependency on issue n; a number out of range is invalid |
| `Declaration.SlugReferenceParsesDressed` | internal/dependency/dependency.go:351-410 | owner/name#n, dressed the same ways, is the dependency on that issue, active iff the repository is the own one |
| `Declaration.OnlyReferencesParse` | internal/dependency/dependency.go:351-389 | an entry means something only if its canonical text is one of these two forms, with that repository and number |
| `Declaration.RejectionsMean` | internal/dependency/dependency.go:351-389 | which texts are rejected, and under which reason |
| `Declaration.ReferenceInjective` | internal/dependency/dependency.go:351-389 | a normal form determines repository and number |
| `Declaration.SlugReferenceParses` | internal/dependency/dependency.go:351-389 | a printed reference parses back to its repository and number |
| `Declaration.NormalizedReparses` | internal/dependency/dependency.go:351-389 | the normal form of an entry is a fixed point of parsing |
| `Declaration.ParseDeclaration` | internal/dependency/dependency.go:82-128 | the loops compute the de-duplicated, ordered declaration |
| `Declaration.DeclaredComesFromEntry` | internal/dependency/dependency.go:100-123 | every declared dependency is the parse of some entry |
| `Declaration.EntryIsDeclared` | internal/dependency/dependency.go:100-123 | every entry's meaning survives de-duplication |
| `Declaration.DeclaredIsOrdered` | internal/dependency/dependency.go:100-123 | the declaration is sorted and has no normal form twice |
| `Declaration.FirstEntryIsDeclared` | internal/dependency/dependency.go:100-123 | of several entries with one normal form the first is kept |
| `Declaration.EdgesStable` | internal/dependency/dependency.go:100-123 | reordering or repeating entries leaves the adjacency list identical |
| `Verdict.BuildResolveResult` | internal/dependency/dependency.go:255-335 | the fold with the shared cache is the maximum of cycle membership and per-dependency severities, override last; the cache changes no verdict |
| `Verdict.Weigh` | internal/dependency/dependency.go:276-330 | one dependency's severity, whether from the open cache, the read cache or a read |
| `Dispatch.NeedsHumanIff` | internal/dependency/dependency.go:255-335 | needs_human iff no override, and a recorded cycle, an entry that is no same-repo reference, or one to an issue neither open nor read as closed |
| `Dispatch.BlockedIff` | internal/dependency/dependency.go:255-335 | blocked iff no override, none of that, and an entry naming an open issue not done or one closed without a linked PR |
| `Dispatch.OverrideAndReadyIff` | internal/dependency/dependency.go:255-335 | override iff the label; ready iff none of all this |
| `Resolver.BuildGraph` | internal/dependency/dependency.go:155-182 | in any iteration order, the graph of active same-repo dependencies |
| `Dispatch.GraphEdgeIff` | internal/dependency/dependency.go:155-182 | there is an edge from a to b iff open issue a has an entry that is an active reference to b |
| `Dispatch.EdgesDetermineGraph` | internal/dependency/dependency.go:100-123 | the adjacency lists are sorted, so the graph the search receives depends on the edges alone |
| `Resolver.Evaluator.EvaluateOpenIssues` | internal/dependency/dependency.go:136-238 | the stored rows and the returned unblocked issues after a call, complete or stopped at any iteration |
| `Resolver.MergeStep` | internal/dependency/dependency.go:188-237 | each iteration sees its own issue's row from before the call |
| `Dispatch.StoredRows` | internal/dependency/dependency.go:188-212 | after a completed call an open issue has a row iff it has a block or had one, with its new verdict, its override flag and the version; other rows stay |
| `Dispatch.GateOpenIff` | internal/dependency/gate.go:30-47 | after a completed evaluation the gate is open iff the issue has the override label, or is on no recorded cycle and every entry is a same-repo reference that is open and done or closed by a linked PR |
| `Dispatch.GateFollowsVerdict` | internal/dependency/gate.go:30-47 | the gate agrees with the new verdict also for issues that get no row |
| `Dispatch.GateAnswers` | internal/dependency/gate.go:30-47 | the stored verdict is passed on; open without store or row; a failing query is reported |
| `Dispatch.NoSilentDeadlock` | internal/dependency/dependency.go:175-195 | of any set of open issues that wait on each other one is needs_human or overridden |
| `Dispatch.StalledQueueHasClosedByHand` | internal/dependency/dependency.go:255-335 | if all unfinished issues are merely blocked, one waits for an issue closed without a linked PR |
| `Dispatch.EntryOrderIrrelevant` | internal/dependency/dependency.go:100-123 | reordering or repeating entries anywhere changes no verdict |
| `Dispatch.IterationOrderIrrelevant` | internal/dependency/dependency.go:188-237 | every iteration order reports the same issues, each once |
| `Dispatch.DoneNeverWorsens` | internal/dependency/dependency.go:597-606 | labelling an issue done raises no other verdict, in any graph |
| `Dispatch.ClosingWorsensIff` | internal/dependency/dependency.go:255-335 | closing x by a linked PR raises y's verdict iff y is not needs_human or overridden and the search on the present graph without x flags y |
| `Dispatch.ClosingWorsensOnlyOnCycle` | internal/dependency/dependency.go:255-335 | it raises only the verdict of an unflagged issue on a cycle that avoids x |
| `Dispatch.ClosingWorsensUnreachedIff` | internal/dependency/dependency.go:255-335 | for an issue that no smaller one reaches without x, being on such a cycle is also enough |
| `Dispatch.AcyclicProgressIsMonotone` | internal/dependency/dependency.go:255-335 | in an acyclic graph neither kind of progress raises another verdict |
| `Dispatch.ClosingCanWorsen` | internal/dependency/dependency.go:535-574 | a concrete cyclic cache where closing one issue turns another from blocked to needs_human |
| `Dispatch.ReportIffOpening` | internal/dependency/dependency.go:188-237 | with an event recorder, an issue is returned iff the call ran to its end and its stored verdict left blocked/needs_human |
| `Dispatch.ReportsAlternate` | internal/dependency/dependency.go:188-237 | over any run, between two reports of an issue some evaluation stored a blocking verdict for it |
| `Dispatch.FailedEvaluationLosesOpening` | internal/dependency/dependency.go:188-237 | an opening stored by a failed call is reported by no later call until the issue is gated again |
| `Dispatch.StoppingAfterReleaseLosesIt` | internal/dependency/dependency.go:188-237 | any call that stops after a released issue stores the opening and reports nothing |
| `Tasks.TerminalStays` | internal/store/store.go:1004-1060 | no step takes a row out of the terminal statuses; only recovery's update can change which one |
| `Tasks.TerminalForever` | internal/app/coordinator.go:745-884 | in every interleaving a settled task stays settled |
| `Tasks.RecoveryOverwritesIff` | internal/store/store.go:1004-1017 | recovery replaces a terminal status iff the row was still listed and not failed |
| `Tasks.SettledStatusIff` | internal/store/store.go:1004-1060 | in every interleaving the status of a settled task is what it was, or failed iff a recovery update found it listed since |
| `Tasks.StatusFinal` | cmd/coordinator.go:443-448 | when recovery finishes before anything else starts, the exact terminal status is final |
| `Tasks.ConcurrentRecoveryOverwrites` | internal/app/recover.go:33-68 | recovery beside a running coordinator can fail a task whose completion is then published |
| `Tasks.StepKeepsInv` | internal/app/coordinator.go:745-884 | every step keeps: settled iff terminal, a winning request is the settler, each log entry is backed by an announced request, no entry twice |
| `Tasks.ReachableInv` | internal/app/coordinator.go:745-884 | that invariant holds after every sequence of steps |
| `Tasks.PublishedOnce` | internal/app/coordinator.go:770-820 | at most one completion per task is published |
| `Tasks.SignalledOnce` | internal/app/coordinator.go:770-820 | the state machine is signalled at most once per task |
| `Tasks.AnnouncedBySettler` | internal/app/coordinator.go:770-820 | announcements come only from the submission that settled the task, never after reaper, recovery or deregistration |
| `Tasks.InfraNeverSignalled` | internal/app/coordinator.go:770-820 | an infrastructure failure is never signalled |
| `Tasks.PublishedIff` | internal/app/coordinator.go:770-795 | in every interleaving a settled submission is published iff its publishing section runs before the next crash |
| `Tasks.FollowedIff` | internal/app/coordinator.go:786-820 | a published one is signalled, or logged as infra failure, iff its signalling section runs before the next crash |
| `Tasks.SettledFollowedIff` | internal/app/coordinator.go:770-820 | a settled one is, iff both sections run in turn before the next crash |
| `Tasks.CutNeverSignalled` | internal/app/coordinator.go:784-820 | a request cut off after publication is never signalled |
| `Tasks.SubmitterOwnedAtRead` | internal/app/coordinator.go:745-769 | in every interleaving each request was read at a step at which its worker owned its task |
| `Tasks.AnnouncedByOwner` | internal/app/coordinator.go:745-820 | whatever is announced was settled by a worker that owned the task at some earlier step |
| `Tasks.FormerOwnerMaySettle` | internal/store/store.go:1030-1060 | the submitter need not be the owner at the transition |
| `Tasks.LiveLeaseIsExclusive` | internal/store/store.go:1157-1273 | while a lease is live no step makes another worker the runner |
| `Tasks.ClaimIsExclusive` | internal/store/store.go:1157-1273 | in every interleaving nobody else runs a task between its claim and the end of the claim's lease, not even after a release |
| `Tasks.HeartbeatIsExclusive` | internal/store/store.go:1369-1400 | in every interleaving a heartbeat of the runner keeps everyone else away for its lease from then on |
| `Tasks.ClaimOutcome` | internal/store/store.go:1157-1273 | which rows a claim takes, and what it makes of them |
| `Tasks.InsertedIsClaimable` | internal/store/store.go:855-879 | a new task is pending, unowned and open to every worker at once |
| `Tasks.DeregisterFails` | internal/store/store.go:1652-1663 | deregistration fails the repository's pending and running tasks and nothing else |
| `Tasks.TransitionWrites` | internal/store/store.go:1030-1060 | the transition writes the submitted status, and only into a pending or running row |
| `Tasks.CrashEndsReading` | internal/app/coordinator.go:745-769 | a submission that was read when the process died never settles its task |
| `Tasks.ReleasedClaimableIff` | internal/store/store.go:1123-1138 | a released task is claimable iff its old lease is absent or over |
| `Tasks.RecoveryFailsRunning` | internal/app/recover.go:33-68 | run alone, recovery fails exactly the running rows whose update goes through and announces nothing |
| `Tasks.ReaperFailsStale` | internal/store/queries.go:1148-1241 | run alone, a reaper pass fails exactly the stale rows, freeing them, and announces nothing |
| `Tasks.StaleMeans` | internal/store/queries.go:1166-1183 | stale is running without a sign of life, heartbeat or else creation, for longer than the grace |
| `Tasks.FreshRunnerStillReaped` | internal/store/queries.go:1200-1240 | a heartbeat or a new claim after the reaper's query does not save the row |
| `Tasks.ReapedStaleIff` | internal/store/queries.go:1148-1241 | in every interleaving a listed row still running at its update is failed, and is stale then iff no heartbeat or claim landed within the grace since the query |
| `Tasks.Coordinator.HandleTaskResultRead` | internal/app/coordinator.go:745-769 | the read section as a step, with its replies |
| `Tasks.Coordinator.HandleTaskResultSettle` | internal/app/coordinator.go:770-783 | the compare-and-set as a step; accepted iff the row was pending or running |
| `Tasks.Coordinator.HandleTaskResultPublish` | internal/app/coordinator.go:786-795 | the publication as a step |
| `Tasks.Coordinator.HandleTaskResultSignal` | internal/app/coordinator.go:796-812 | the signal, or the infra record, as a step |
| `Tasks.Coordinator.HandleTaskHeartbeat` | internal/app/coordinator.go:823-859 | heartbeat as a step, unless its update fails, with the replies for every answer of the worker registry |
| `Tasks.Coordinator.HandleTaskRelease` | internal/app/coordinator.go:863-884 | release as a step; accepted iff running and owned |
| `Tasks.Coordinator.ClaimNextTask` | internal/app/coordinator.go:890-933 | claims the first claimable candidate, none before it being claimable, or none at all is |
| `Tasks.Coordinator.RunOnce` | internal/app/task_reaper.go:106-131 | a pass is its query followed by its updates and reports exactly the candidates; an error ends it at any update, landed or not, and nothing is reported |
| `Tasks.Coordinator.RecoverTasks` | internal/app/recover.go:33-68 | a recovery is its query followed by its updates, those that fail passed over |
| `PollCycle.OneMaintenancePerCycle` | internal/app/repo_runtime.go:664-701 | for every interleaving of all repositories' events each repository's acts are, per cycle, one maintenance, then the forwarded events, then the reset; the version is finished cycles plus one if the current one has forwarded |
| `PollCycle.VersionCountsMaintenance` | internal/app/repo_runtime.go:664-736 | the graph version equals the number of maintenance runs |
| `PollCycle.OtherRepoUntouched` | internal/app/repo_runtime.go:664-697 | an event touches no other repository's fields or acts |
| `PollCycle.PollerManager.HandleEvent` | internal/app/repo_runtime.go:664-697 | one event has the effect of the functional step |
| `Freshness.ForwardedEventsAreGatedFresh` | internal/app/repo_runtime.go:664-736 | for every interleaving, when an event has been forwarded the latest maintenance is that of its own cycle, and if it completed the gate answers for every issue it saw as it decided, from rows of that cycle's graph version |
| `Freshness.RunUpToDate` | internal/app/repo_runtime.go:664-736 | between maintenance runs the gate shows the latest completed one |
| `NormalForm.NormalizeAgentConfig` | internal/config/loader.go:265-359 | the assignments and checks give the agent the two lemmas below describe, or refuse it; how many warnings are raised |
| `NormalForm.NormalIffFixed` | internal/config/loader.go:265-359 | an agent is a fixed point iff it is in normal form |
| `NormalForm.AgentIdempotent` | internal/config/loader.go:265-359 | normalising twice equals normalising once |
| `NormalForm.AcceptedIff` | internal/config/loader.go:265-397 | which raw agents are accepted |
| `NormalForm.AgentBecomes` | internal/config/loader.go:265-397 | what an accepted agent becomes, field by field |
| `NormalForm.SchemaMeans` | internal/config/loader.go:275-287 | what the schema file must be in the file system |
| `NormalForm.StripKeepsNormal` | internal/config/loader.go:361-375 | a normal agent survives the loss of its source path iff its schema path is absolute |
| `NormalForm.TrimAgents` | internal/config/loader.go:519-532 | the agents loop accepts iff the trimmed names are non-blank and distinct |
| `NormalForm.NormalizeJoin` | internal/config/loader.go:485-517 | the join rules |
| `NormalForm.StateAcceptedIff` | internal/config/loader.go:460-535 | which raw states are accepted |
| `NormalForm.StateBecomes` | internal/config/loader.go:460-535 | what an accepted state becomes, field by field |
| `NormalForm.NormalStateIffFixed` | internal/config/loader.go:460-535 | a state is a fixed point iff it is in normal form |
| `NormalForm.StateIdempotent` | internal/config/loader.go:460-535 | normalising a state twice equals normalising once |
| `NormalForm.NormalizeWorkflowStates` | internal/config/loader.go:460-535 | in any map order, succeeds iff every state does, with every state's normal form |
| `Registration.TriggerConflicts` | internal/config/loader.go:551-564 | reports iff two workflows share a non-empty trigger label |
| `Registration.DecodeRepoRegistrationConfig` | internal/app/repo_runtime.go:173-209 | the decoding loops: nil entries skipped, later names override, one bad agent or a conflict refuses |
| `Registration.DecodesIff` | internal/app/repo_runtime.go:173-209 | a record decodes iff it is JSON, every agent in it is accepted and no two workflows conflict; which fields come from where |
| `Registration.LastAgentWins` | internal/app/repo_runtime.go:188-197 | the agent of a name is the normal form of the last entry of that name |
| `Registration.LastWorkflowWins` | internal/app/repo_runtime.go:198-204 | the workflow of a name is the last entry of that name |
| `Registration.BuildRepoRegistrationPayload` | internal/app/repo_runtime.go:110-128 | a payload listing every agent without source path and every workflow once, in some order |
| `Registration.BuildRepoRegistrationRecord` | internal/app/repo_runtime.go:133-168 | accepted iff the trimmed payload decodes; the record is rebuilt from the decoded configuration |
| `Registration.PayloadDecodes` | internal/app/repo_runtime.go:110-209 | a settled configuration decodes from its payload, in whatever order its maps were walked |
| `Registration.RebuildAccepted` | internal/app/repo_runtime.go:133-209 | rebuilding any decodable record from its decoded configuration is accepted |
| `Registration.RebuildRoundTrip` | internal/app/repo_runtime.go:133-209 | the rebuilt record decodes to the same agent and workflow maps |
| `Registration.BuiltDecodes` | internal/app/repo_runtime.go:133-168 | a built record decodes to what its payload decodes to, with poll interval zero |
| `Registration.LoadedRegistersIff` | internal/app/repo_runtime.go:133-209 | a loaded configuration can be registered iff no agent needs its source path |
| `Registration.LoadedRecordAgrees` | internal/app/repo_runtime.go:110-209 | its record decodes to its workflows and its agents up to source path |
| `Reload.NormalizeReloadCandidate` | internal/app/config_reload.go:238-271 | which candidates are admitted and what is taken over from them; repo and port of a running coordinator are kept |
| `Reload.RolledBackIff` | internal/app/config_reload.go:225-236 | rolling back restores the rows iff the remembered row is the overwritten one, or nothing was changed or overwritten |
| `Reload.TrimmedRepoRollsBack` | internal/app/config_reload.go:161-167 | a repo configured without surrounding space is always restored |
| `Reload.UntrimmedRepoIsDeregistered` | internal/app/config_reload.go:161-183 | with a leading space the row of the repo itself is deleted |
| `Reload.ConfigRuntime.StartOrUpdate` | internal/app/repo_runtime.go:244-339 | starts the decoded configuration iff it decodes and every check and the stop succeed, else leaves the runtimes as they were or without the repo |
| `Reload.ConfigRuntime.Deregister` | internal/app/repo_runtime.go:574-582 | stops, fails pending tasks, deletes the row, in that order |
| `Reload.ConfigRuntime.RollbackRegistration` | internal/app/config_reload.go:225-236 | restores and restarts the remembered row, or deregisters |
| `Reload.ConfigRuntime.Switch` | internal/app/config_reload.go:172-192 | the effect of starting runtime and notifier on rows, runtimes, tasks and interval, at every failure |
| `Reload.StoredMeans` | internal/store/store.go:1574-1595 | the defaults of a blank status and a blank configuration |
| `Reload.ConfigRuntime.Reload` | internal/app/config_reload.go:136-210 | applied iff the loaded configuration is admissible and registrable and every call outside succeeds, and then taken over; a failure at any step leaves the current configuration, and unless the rollback failed the rows are untouched or rolled back; success makes current, row and runtime agree; agreement is an invariant; repo and port are fixed |
| `Reload.ConfigRuntime.ReloadAll` | internal/app/config_reload.go:136-210 | over any sequence of reloads repo and port never change, and agreement survives while no rollback fails |
| `Failpoints.OnceReturnedOnce` | internal/failpoints/failpoints_inject.go:30-59 | in every interleaving an effect armed with Once is returned by at most one Trip |
| `Failpoints.OnlyItsOwnTripDisarms` | internal/failpoints/failpoints_inject.go:30-59 | in every interleaving without an Arm, Disarm or Reset of the name, an arming stays in place until it is returned and is gone then iff it is a one-shot; a stale Trip never takes away a newer arming |
| `Failpoints.ReturnedWasMatched` | internal/failpoints/failpoints_inject.go:30-59 | in every interleaving what a Trip returns was armed under its name at its read section and matched its caller |
| `Failpoints.ReadOutcome` | internal/failpoints/failpoints_inject.go:30-44 | what a read section does without a match, with a reusable and with a one-shot effect |
| `Failpoints.GoneNeverReturned` | internal/failpoints/failpoints_inject.go:30-59 | an arming no longer registered is returned by no later section |
| `Failpoints.ReplacedIsGone` | internal/failpoints/failpoints_inject.go:108-116 | arming again retires the earlier arming |
| `Failpoints.DisarmedIsGone` | internal/failpoints/failpoints_inject.go:119-130 | disarming and resetting retire an arming |
| `Failpoints.ReachableInv` | internal/failpoints/failpoints_inject.go:30-130 | the registry invariant after every interleaving |
| `Failpoints.Registry.BeginTrip` | internal/failpoints/failpoints_inject.go:30-44 | the section under the read lock as a step |
| `Failpoints.Registry.FinishTrip` | internal/failpoints/failpoints_inject.go:44-58 | the section under the write lock as a step |
| `Control.Run` | internal/control/loop.go:38-90 | at most the budget of calls; complete iff the last observation meets the objective and no earlier one does; blocked without error only at the budget or stuck; every resume uses the previous session and feedback |
| `Control.Decide` | internal/control/controller.go:32-64 | the action a history of deltas must lead to |
| `Control.OutcomeStops` | internal/control/controller.go:32-64 | the budget is 5 if unset; a run goes on past a round only if neither at its budget nor stuck there, and blocks only if so |
| `Control.SameUnmet` | internal/control/controller.go:68-86 | the sorted-copy scan decides equality of multisets |
| `Control.SortedCopiesDecide` | internal/control/controller.go:68-86 | sorted copies are equal iff the multisets are |
| `Control.Feedback` | internal/control/feedback.go:16-61 | all met iff the observation satisfies the objective |
| `Control.FeedbackLists` | internal/control/feedback.go:16-61 | which conditions are listed as met and as missing, in which order |
| `Control.MessageMentions` | internal/control/feedback.go:66-82 | the message names every condition as what it is |
| `Updater.CompareSemver` | cmd/deploy_watch.go:523-589 | the loop computes the order the theorems are about |
| `Updater.SplitVersion` | cmd/deploy_watch.go:573-589 | a version, with or without v and space around it, splits into the segments and the prerelease it was written with; build metadata is dropped |
| `Updater.PreByText` | cmd/deploy_watch.go:557-570 | a release is above its prereleases, prereleases compare as text |
| `Updater.SegmentsByText` | cmd/deploy_watch.go:539-555 | segments that are not both integers compare as text |
| `Updater.CompareAntisymmetric` | cmd/deploy_watch.go:523-571 | swapping negates the answer, on all inputs |
| `Updater.CompareIsAbove` | cmd/deploy_watch.go:523-571 | on numeric cores: first difference of the zero-padded values, then release over prerelease, then prerelease text |
| `Updater.CompareTransitive` | cmd/deploy_watch.go:523-571 | transitive on numeric cores, strictly so when a step is strict |
| `Updater.TextSegmentsCycle` | cmd/deploy_watch.go:539-555 | 2 < 10 < 1a < 2 |
| `Updater.RecordsIncrease` | cmd/deploy_watch.go:260-332 | over any run of watch checks, rollbacks and failures the recorded versions strictly increase |
| `Updater.NeverRecordedTwice` | cmd/deploy_watch.go:260-389 | so none is recorded twice |
| `Updater.RepeatIffCircle` | cmd/deploy_watch.go:260-389 | for every set of tags, some run over it records a version twice iff releases in it replace one another in a circle |
| `Updater.CleanReplaces` | cmd/deploy_watch.go:516-521 | for a recorded name without a second v or leading space, replacing it is being above it in the version order |
| `Updater.TwoTenOneARepeat` | cmd/deploy_watch.go:260-332 | the tags 2, 10 and 1a have such a run |
| `Updater.RecordedReadsBack` | cmd/deploy_watch.go:404-413 | the version file reads back as the installed version |
| `Updater.RollbackTogglesIff` | cmd/deploy_watch.go:334-389 | two rollbacks cancel iff there was a binary to put aside |
| `Updater.RollbackUndoesUpgrade` | cmd/deploy_watch.go:288-389 | a rollback restores the replaced binary and keeps the recorded version |
| `Updater.RollbackRestoresIff` | cmd/deploy_watch.go:288-389 | after any watch checks and one that gets past the install, a rollback restores the binary of before them all iff none of the earlier ones got past it, or the last that did had those bytes |
| `Updater.FailureKeepsBinaryIff` | cmd/deploy_watch.go:288-332 | a failed upgrade leaves the binary as it was iff it failed before or at the install, or the bytes are the same |
| `Updater.FailureLeaves` | cmd/deploy_watch.go:288-332 | the backup and the recorded version after a failure at each point |
| `Updater.RollbackFailureLeaves` | cmd/deploy_watch.go:334-389 | the files after a rollback that fails at each point |
| `Updater.NothingToDo` | cmd/deploy_watch.go:260-389 | dry runs, checks that see nothing newer and rollbacks without a backup change nothing |
| `Updater.SameReleaseNotReinstalled` | cmd/deploy_watch.go:260-286 | a watch check after upgrade and rollback does nothing |
| `Updater.Deployment.WatchOnce` | cmd/deploy_watch.go:260-332 | a check as a step on the files, with every failure point |
| `Updater.Deployment.RollbackOnce` | cmd/deploy_watch.go:334-389 | a rollback as a step on the files, with every failure point |
| `Migration.Destination.BulkInsert` | cmd/db_migrate.go:512-545 | one statement, or row by row exactly if it was too big; the table stays an in-order prefix at every moment |
| `Migration.Destination.CopyTable` | cmd/db_migrate.go:424-505 | for every batch size and rejection pattern, an in-order prefix of the rewritten rows at every moment and on every exit; success means all rows, counted, and no refusal; no statement carries more rows than the batch size |
| `Migration.Destination.WipeDestination` | cmd/db_migrate.go:407-415 | the tables are emptied from the last on; every moment is such a partial wipe |
| `Migration.Destination.RunDBMigrate` | cmd/db_migrate.go:305-380 | data is untouched without --force; success is the exact rewritten source; every moment is part of an orderly wipe or copy and satisfies the schema's foreign key; without faults it succeeds |
| `Migration.Destination.RunPlan` | cmd/db_migrate.go:305-380 | the same with the plan's own tables, without assuming their names distinct |
| `Migration.StageKeepsFk` | cmd/db_migrate.go:48-182 | every copy moment satisfies a foreign key whose parent comes first |
| `Migration.WipeKeepsFk` | cmd/db_migrate.go:398-415 | so does every wipe moment |
| `Migration.RewriteKeepsFk` | cmd/db_migrate.go:484-490 | rewriting timestamps breaks no key over other columns |
| `Migration.EveryMomentKeepsFk` | cmd/db_migrate.go:305-415 | every moment of a migration satisfies the key if source and old destination do |
| `Migration.PlanRespectsInstanceKey` | cmd/db_migrate.go:69-88 | the plan's order respects the schema's foreign key, which uses no timestamp column |
| `Migration.PlanKeepsInstanceKey` | cmd/db_migrate.go:48-182 | with the plan's tables, the schema's foreign key holds at every moment of a migration if it held on both sides before |
| `Migration.PlanNamesDistinct` | cmd/db_migrate.go:48-182 | no table is planned twice |
| `SystemdCommand.ReplacedIsEscape` | cmd/deploy.go:1585-1590 | the three successive replacements equal one escape per character |
| `SystemdCommand.CommandRoundTrip` | cmd/deploy.go:1577-1590 | undoing the quoting recovers every argument list |
| `SystemdCommand.CommandInjective` | cmd/deploy.go:1577-1590 | distinct argument lists give distinct ExecStart values |
| `SystemdCommand.OneLineIff` | cmd/deploy.go:1577-1590 | the value holds a newline iff an argument does |
| `SystemdCommand.JoinSystemdCommand` | cmd/deploy.go:1577-1583 | the loop and join compute that line |

## Left out

- Body extraction: the regular expression and YAML that find a `depends_on` block; the model starts from the block's entries.
- CycleDetection.Detector.DetectCycles: records node numbers; the `#n` rendering of a path is not modelled.
- Declaration.ParseDeclaration: entries carry no line numbers, so the last tie-break of the sort, which orders nothing but identical entries, is absent.
- Resolver side tables: `issue_dependencies` and hazard rows, the reason hash, the resume label, event payloads and alerts. Errors of the first loop, before any verdict is stored, end a call without effect on the modelled rows.
- Host reads: one evaluation sees a fixed answer per issue, as it would from a deterministic reader.
- Tasks.Coordinator.ClaimNextTask: role, repository and runtime filters are the choice of the candidate list; claim tokens, busy retries of a claim and worker registration are not modelled.
- Tasks.Coordinator.HandleTaskHeartbeat: a store error while reading the task is not modelled.
- Freshness.ForwardedEventsAreGatedFresh: the router reads the gate some time after the forwarding; if the next cycle's maintenance comes first, the gate shows that one.
- Tasks.Coordinator.HandleTaskResultRead: session references and store errors are not modelled.
- Operator finalisation and cache resets from the command line, which edit rows out of band.
- PollCycle.PollerManager.HandleEvent: the security allow-list is a boolean on the event; a restart of a repository's runtime between events begins a new run of that repository.
- NormalForm.NormalizeAgentConfig: runtime, sandbox and approval strings are constructors, any other text one more; warning texts are counted only; path joining and file existence are given functions.
- JSON and YAML codecs: encoding then decoding a configuration is the identity; text that does not parse is one value.
- Reload.ConfigRuntime.Reload: reloads do not overlap; timers, debouncing, the summary and the diff are not modelled. What the configuration loader guarantees of its result is a precondition.
- Reload.ConfigRuntime.StartOrUpdate: goroutines, claims held by a stopped state machine and the recovery of orphaned states are not modelled; a runtime is its record and configuration.
- Failpoints.Registry.BeginTrip: what an effect does once returned (delay, crash, error) and the environment variable grammar are not modelled.
- Control.Run: the agent and the observer answer by round number; cancellation is one of their errors; `%q` is a given function.
- Updater.RecordsIncrease: asks for release names with integer core segments that, after one leading v is removed, start with neither a second v nor white space; what holds for all names is Updater.RepeatIffCircle.
- Download, checksum and archive handling of the updater are the choice of where an upgrade fails.
- Migration.PlanRespectsInstanceKey: column lists are written out for the two tables a foreign key joins; other tables are arbitrary in the theorems.
- SystemdCommand.CommandRoundTrip: undoes the quoting itself; systemd's own expansion of `$` is not modelled.
- SQL text and dialects, HTTP encoding, logging, table rendering, the web interface, process supervision and the Python scripts.
