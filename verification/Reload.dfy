/** Reloading the coordinator's configuration, with rollback of the registration. */
module Reload {
  import opened Text
  import opened NormalForm
  import opened Registration

  datatype Running = Running(registration: Record, config: Config)

  /** Where a reload stopped. */
  datatype Step = Load | Check | Validate | Build | Lookup | Persist | Start | Notify

  datatype Outcome = Applied | Failed(step: Step, rollbackFailed: bool)

  /** In seconds. */
  const DEFAULT_POLL_INTERVAL := 30

  const EMPTY_PAYLOAD := Payload("", "", 0, [], [])

  // ----- the candidate ------------------------------------------------------------------

  /** A running coordinator takes a configuration that names its repo or none; a starting one takes
      any that names a repo. */
  ghost predicate Admissible(current: Option<Config>, candidate: Config) {
    if current.None? then TrimSpace(candidate.repo) != ""
    else
      && TrimSpace(current.value.repo) != ""
      && (TrimSpace(candidate.repo) == "" || candidate.repo == current.value.repo)
  }

  /** What next keeps of the candidate; a missing poll interval is the current one, or 30 seconds. */
  ghost predicate TakesOver(current: Option<Config>, candidate: Config, next: Config) {
    && next.environment == candidate.environment && next.notifications == candidate.notifications
    && next.agents == candidate.agents && next.workflows == candidate.workflows
    && (candidate.pollInterval > 0 ==> next.pollInterval == candidate.pollInterval)
    && (candidate.pollInterval <= 0 ==>
          next.pollInterval == (if current.Some? && current.value.pollInterval > 0 then current.value.pollInterval
                                else 30))
  }

  /** normalizeReloadCandidate: a running coordinator never changes repo or port. */
  method NormalizeReloadCandidate(current: Option<Config>, candidate: Config) returns (r: Result<Config>)
    ensures r.Ok? <==> Admissible(current, candidate)
    ensures r.Ok? ==> TakesOver(current, candidate, r.value)
    ensures r.Ok? && current.Some? ==> r.value.repo == current.value.repo && r.value.port == current.value.port
    ensures r.Ok? && current.None? ==> r.value.repo == candidate.repo && r.value.port == candidate.port
  {
    var next := candidate;
    if next.pollInterval <= 0 {
      if current.Some? && current.value.pollInterval > 0 {
        next := next.(pollInterval := current.value.pollInterval);
      } else {
        next := next.(pollInterval := DEFAULT_POLL_INTERVAL);
      }
    }
    if current.Some? {
      if TrimSpace(next.repo) == "" {
        next := next.(repo := current.value.repo);
      }
      if next.repo != current.value.repo {
        return Err;
      }
      next := next.(port := current.value.port);
    }
    if TrimSpace(next.repo) == "" {
      return Err;
    }
    return Ok(next);
  }

  // ----- rollback on the stored rows ----------------------------------------------------

  /** The row a reload remembers before it writes: looked up under the current repo as configured. */
  function Remembered(rows: map<string, Record>, current: Option<Config>): Option<Record> {
    if current.Some? && TrimSpace(current.value.repo) != "" && current.value.repo in rows
    then Some(rows[current.value.repo]) else None
  }

  /** The rows after the new record was stored and then rolled back. */
  function RolledBack(rows: map<string, Record>, current: Option<Config>, rec: Record): map<string, Record> {
    match Remembered(rows, current)
    case Some(prev) => rows[rec.repo := rec][current.value.repo := prev]
    case None => rows[rec.repo := rec] - {rec.repo}
  }

  /** Rolling back gives the old rows exactly when the remembered row is the one overwritten, or
      the overwriting changed nothing, or there was no row to overwrite. */
  lemma RolledBackIff(rows: map<string, Record>, current: Option<Config>, rec: Record)
    ensures RolledBack(rows, current, rec) == rows <==>
      if Remembered(rows, current).Some?
      then current.value.repo == rec.repo || (rec.repo in rows && rows[rec.repo] == rec)
      else rec.repo !in rows
  {
    var after := RolledBack(rows, current, rec);
    match Remembered(rows, current)
    case Some(prev) =>
      if current.value.repo != rec.repo {
        assert rec.repo in after && after[rec.repo] == rec;
      }
    case None =>
      assert rec.repo !in after;
  }

  /** A current repo written without surrounding space is always rolled back. */
  lemma TrimmedRepoRollsBack(rows: map<string, Record>, current: Option<Config>, rec: Record)
    requires current.Some? && TrimSpace(current.value.repo) == current.value.repo != ""
    requires rec.repo == current.value.repo
    ensures RolledBack(rows, current, rec) == rows
  {
    RolledBackIff(rows, current, rec);
  }

  /** With a stray space in front of the configured repo, the row of the repo itself is deleted. */
  lemma UntrimmedRepoIsDeregistered(repo: string, current: Config, row: Record, rec: Record)
    requires repo != "" && TrimSpace(repo) == repo && current.repo == [' '] + repo
    requires rec.repo == TrimSpace(current.repo)
    ensures rec.repo == repo && RolledBack(map[repo := row], Some(current), rec) == map[]
  {
    assert current.repo[0] == ' ' && current.repo[1..] == repo;
    assert TrimLeft(current.repo) == TrimLeft(repo);
    assert current.repo != repo;
  }

  // ----- the runtime --------------------------------------------------------------------

  /** What a row holds once written: a blank status or configuration gets its default. */
  function Stored(rec: Record): Record {
    rec.(status := if TrimSpace(rec.status) == "" then "active" else rec.status,
         config := if rec.config == Blank then Json(EMPTY_PAYLOAD) else rec.config)
  }

  predicate IsStored(rec: Record) {
    TrimSpace(rec.status) != "" && rec.config != Blank
  }

  /** Row and running configuration hold the agents, up to source path, and the workflows of cfg. */
  ghost predicate Agrees(disk: Disk, cfg: Config, rec: Record) {
    && Decoded(disk, rec).Ok?
    && Decoded(disk, rec).value.agents == StripAll(cfg.agents)
    && Decoded(disk, rec).value.workflows == cfg.workflows
  }

  /** The two maps differ at most at a and b. */
  ghost predicate SameBut(m: map<string, Running>, n: map<string, Running>, a: string, b: string) {
    forall k :: k != a && k != b ==> (k in m <==> k in n) && (k in m ==> m[k] == n[k])
  }

  /** Past the write, failed and rolled back. */
  predicate RolledBackFine(outcome: Outcome) {
    outcome.Failed? && outcome.step in {Start, Notify} && !outcome.rollbackFailed
  }

  predicate IsTrimmed(s: string) {
    TrimSpace(s) == s
  }

  predicate SameRepoAndPort(a: Config, b: Config) {
    a.repo == b.repo && a.port == b.port
  }

  /** The runtime that a decodable row gives rise to. */
  ghost function RunningRow(disk: Disk, rec: Record): Running
    requires Decoded(disk, rec).Ok?
  {
    Running(rec, Decoded(disk, rec).value)
  }

  class ConfigRuntime {
    var registrations: map<string, Record>
    var runtimes: map<string, Running>
    var failedTasks: set<string>
    var current: Option<Config>
    var registryInterval: int
    var notifications: string
    var calls: nat
    const hasRegistry: bool
    const hasNotifier: bool
    const disk: Disk
    /** Whether the n-th call outside succeeds. */
    const world: nat -> bool

    constructor (current: Option<Config>, registrations: map<string, Record>, runtimes: map<string, Running>,
                 registryInterval: int, notifications: string, hasRegistry: bool, hasNotifier: bool, disk: Disk,
                 world: nat -> bool)
      ensures this.current == current && this.registrations == registrations && this.runtimes == runtimes
      ensures this.registryInterval == registryInterval && this.notifications == notifications && failedTasks == {}
      ensures this.hasRegistry == hasRegistry && this.hasNotifier == hasNotifier && this.disk == disk
      ensures this.world == world
    {
      this.current, this.registrations, this.runtimes := current, registrations, runtimes;
      this.registryInterval, this.notifications, failedTasks, calls := registryInterval, notifications, {}, 0;
      this.hasRegistry, this.hasNotifier, this.disk, this.world := hasRegistry, hasNotifier, disk, world;
    }

    /** Every row was written by Upsert and sits under its own repo. */
    ghost predicate Valid()
      reads this
    {
      forall k :: k in registrations ==> registrations[k].repo == k && IsStored(registrations[k])
    }

    /** Current configuration, stored row, running repo, registry and notifier all agree. */
    ghost predicate InSync()
      reads this
    {
      && current.Some? && TrimSpace(current.value.repo) == current.value.repo != ""
      && current.value.repo in registrations && current.value.repo in runtimes
      && Agrees(disk, current.value, registrations[current.value.repo])
      && runtimes[current.value.repo] == RunningRow(disk, registrations[current.value.repo])
      && (hasRegistry ==> registryInterval == current.value.pollInterval)
      && (hasNotifier ==> notifications == current.value.notifications)
    }

    /** Every call outside in the given range succeeds. */
    ghost predicate AllFine(from: nat, to: nat) {
      forall c: nat :: from <= c < to ==> world(c)
    }

    method Ask() returns (fine: bool)
      modifies this`calls
      ensures fine == world(old(calls)) && calls == old(calls) + 1
    {
      fine := world(calls);
      calls := calls + 1;
    }

    /** UpsertRepoRegistration. */
    method Upsert(rec: Record) returns (ok: bool)
      requires Valid()
      modifies this`registrations, this`calls
      ensures Valid()
      ensures !ok ==> registrations == old(registrations)
      ensures ok ==> registrations == old(registrations)[rec.repo := Stored(rec)]
      ensures calls == old(calls) + 1 && (ok <==> AllFine(old(calls), calls))
    {
      ok := Ask();
      if ok {
        StoredIsStored(rec);
        registrations := registrations[rec.repo := Stored(rec)];
      }
    }

    /** stopRepo: the runtime is gone even when waiting for it times out. */
    method StopRepo(repo: string) returns (ok: bool)
      modifies this`runtimes, this`calls
      ensures runtimes == old(runtimes) - {repo}
      ensures calls == old(calls) + (if repo in old(runtimes) then 1 else 0) && (ok <==> AllFine(old(calls), calls))
    {
      if repo !in runtimes {
        return true;
      }
      runtimes := runtimes - {repo};
      ok := Ask();
    }

    /** StartOrUpdate. */
    method StartOrUpdate(rec: Record) returns (ok: bool)
      modifies this`runtimes, this`calls
      ensures ok ==> Decoded(disk, rec).Ok? && runtimes == old(runtimes)[rec.repo := RunningRow(disk, rec)]
      ensures !ok ==> runtimes == old(runtimes) || runtimes == old(runtimes) - {rec.repo}
      ensures old(calls) <= calls && (ok <==> Decoded(disk, rec).Ok? && AllFine(old(calls), calls))
      ensures ok ==> calls == old(calls) + (if rec.repo in old(runtimes) then 3 else 2)
    {
      var cfg := DecodeRepoRegistrationConfig(disk, rec);
      if cfg.Err? {
        return false;
      }
      var reader := Ask();
      if !reader {
        return false;
      }
      var checked := Ask();
      if !checked {
        return false;
      }
      ok := StopRepo(rec.repo);
      if ok {
        runtimes := runtimes[rec.repo := Running(rec, cfg.value)];
      }
    }

    /** Deregister: stop, fail the repo's pending tasks, delete the row. */
    method Deregister(repo: string) returns (ok: bool)
      requires Valid()
      modifies this`runtimes, this`registrations, this`failedTasks, this`calls
      ensures Valid()
      ensures runtimes == old(runtimes) - {repo}
      ensures registrations == if ok then old(registrations) - {repo} else old(registrations)
      ensures ok ==> failedTasks == old(failedTasks) + {repo}
      ensures failedTasks <= old(failedTasks) + {repo}
      ensures old(calls) <= calls && (ok <==> AllFine(old(calls), calls))
    {
      ok := StopRepo(repo);
      if !ok {
        return;
      }
      ok := Ask();
      if !ok {
        return;
      }
      failedTasks := failedTasks + {repo};
      ok := Ask();
      if ok {
        registrations := registrations - {repo};
      }
    }

    /** rollbackRegistration. */
    method RollbackRegistration(prev: Option<Record>, repo: string) returns (ok: bool)
      requires Valid() && (prev.Some? ==> IsStored(prev.value))
      modifies this`runtimes, this`registrations, this`failedTasks, this`calls
      ensures Valid()
      ensures ok && prev.Some? ==>
        && registrations == old(registrations)[prev.value.repo := prev.value] && failedTasks == old(failedTasks)
        && Decoded(disk, prev.value).Ok?
        && runtimes == old(runtimes)[prev.value.repo := Running(prev.value, Decoded(disk, prev.value).value)]
      ensures ok && prev.None? ==>
        && registrations == old(registrations) - {repo} && failedTasks == old(failedTasks) + {repo}
        && runtimes == old(runtimes) - {repo}
      ensures old(calls) <= calls
      ensures ok <==> AllFine(old(calls), calls) && (prev.Some? ==> Decoded(disk, prev.value).Ok?)
    {
      if prev.None? {
        ok := Deregister(repo);
        return;
      }
      ok := Upsert(prev.value);
      if ok {
        ok := StartOrUpdate(prev.value);
      }
    }

    /** A loaded configuration that may replace the current one and can be registered. */
    ghost predicate Acceptable(loaded: Option<Config>)
      reads this`current
    {
      loaded.Some? && Admissible(current, loaded.value) && AllStandAlone(loaded.value)
    }

    /** Everything up to the record: nothing is changed yet. */
    method Prepare(loaded: Option<Config>) returns (r: Result<(Config, Record)>, step: Step)
      requires loaded.Some? ==> Loaded(disk, loaded.value)
      modifies this`calls
      ensures step in {Load, Check, Validate, Build}
      ensures old(calls) <= calls && (r.Ok? <==> Acceptable(loaded) && AllFine(old(calls), calls))
      ensures r.Ok? ==> calls == old(calls) + 1
      ensures r.Ok? ==> TakesOver(current, loaded.value, r.value.0)
      ensures r.Ok? ==> Agrees(disk, r.value.0, r.value.1) && IsStored(r.value.1)
      ensures r.Ok? ==> TrimSpace(r.value.0.repo) == r.value.1.repo != ""
      ensures r.Ok? && current.Some? ==> r.value.0.repo == current.value.repo && r.value.0.port == current.value.port
    {
      if loaded.None? {
        return Err, Load;
      }
      var next := NormalizeReloadCandidate(current, loaded.value);
      if next.Err? {
        return Err, Check;
      }
      var valid := Ask();
      if !valid {
        return Err, Validate;
      }
      assert Loaded(disk, next.value);
      var rec := BuildFor(next.value);
      if rec.Err? {
        return Err, Build;
      }
      return Ok((next.value, rec.value)), Build;
    }

    /** The record of a loaded configuration. */
    method BuildFor(cfg: Config) returns (rec: Result<Record>)
      requires Loaded(disk, cfg)
      ensures rec.Ok? <==> AllStandAlone(cfg)
      ensures rec.Ok? ==> Agrees(disk, cfg, rec.value) && IsStored(rec.value) && rec.value.repo == TrimSpace(cfg.repo)
    {
      var payload := BuildRepoRegistrationPayload(cfg);
      rec := BuildRepoRegistrationRecord(disk, Some(payload));
      LoadedRegistersIff(disk, cfg, payload);
      if rec.Ok? {
        LoadedRecordAgrees(disk, cfg, payload, rec.value);
        TrimSpaceIdempotent(cfg.repo);
        ActiveIsStored(rec.value);
      }
    }

    /** The registry's interval, then the notifier. */
    method ApplySettings(cfg: Config) returns (fine: bool)
      modifies this`registryInterval, this`notifications, this`calls
      ensures registryInterval == if hasRegistry then cfg.pollInterval else old(registryInterval)
      ensures notifications == if fine && hasNotifier then cfg.notifications else old(notifications)
      ensures calls == old(calls) + (if hasNotifier then 1 else 0) && (fine <==> AllFine(old(calls), calls))
    {
      fine := true;
      if hasRegistry {
        registryInterval := cfg.pollInterval;
      }
      if hasNotifier {
        fine := Ask();
        if fine {
          notifications := cfg.notifications;
        }
      }
    }

    /** Start the new runtime and the new notifier, undoing the registration if either refuses. */
    method Switch(cfg: Config, rec: Record, prev: Option<Record>) returns (outcome: Outcome)
      requires Valid() && (prev.Some? ==> IsStored(prev.value))
      modifies this`runtimes, this`registrations, this`failedTasks
      modifies this`registryInterval, this`notifications, this`calls
      ensures Valid()
      ensures outcome.Failed? ==> outcome.step in {Start, Notify} && notifications == old(notifications)
      ensures old(calls) <= calls && (outcome == Applied <==> Decoded(disk, rec).Ok? && AllFine(old(calls), calls))
      ensures outcome == Applied ==>
        calls == old(calls) + (if rec.repo in old(runtimes) then 3 else 2) + (if hasNotifier then 1 else 0)
      ensures outcome == Applied ==>
        && registrations == old(registrations) && failedTasks == old(failedTasks)
        && Decoded(disk, rec).Ok? && runtimes == old(runtimes)[rec.repo := Running(rec, Decoded(disk, rec).value)]
        && (hasRegistry ==> registryInterval == cfg.pollInterval)
        && (hasNotifier ==> notifications == cfg.notifications)
      ensures outcome.Failed? && !outcome.rollbackFailed && prev.Some? ==>
        && registrations == old(registrations)[prev.value.repo := prev.value] && failedTasks == old(failedTasks)
        && Decoded(disk, prev.value).Ok?
        && SameBut(runtimes, old(runtimes), rec.repo, prev.value.repo)
        && prev.value.repo in runtimes
        && runtimes[prev.value.repo] == Running(prev.value, Decoded(disk, prev.value).value)
      ensures outcome.Failed? && !outcome.rollbackFailed && prev.None? ==>
        && registrations == old(registrations) - {rec.repo} && failedTasks == old(failedTasks) + {rec.repo}
        && runtimes == old(runtimes) - {rec.repo}
      ensures outcome.Failed? && !outcome.rollbackFailed ==>
        registryInterval == if outcome.step == Start || !hasRegistry then old(registryInterval)
                            else if current.Some? then current.value.pollInterval else cfg.pollInterval
    {
      var step := Start;
      var fine := StartOrUpdate(rec);
      if fine {
        step := Notify;
        fine := ApplySettings(cfg);
      }
      if fine {
        return Applied;
      }
      var undone := RollbackRegistration(prev, rec.repo);
      if undone && step == Notify && current.Some? && hasRegistry {
        registryInterval := current.value.pollInterval;
      }
      return Failed(step, !undone);
    }

    /** The row to go back to, read under the current repo exactly as configured. */
    method LookupCurrent() returns (ok: bool, prev: Option<Record>)
      modifies this`calls
      ensures ok ==> prev == Remembered(registrations, current)
      ensures calls == old(calls) + (if current.Some? && TrimSpace(current.value.repo) != "" then 1 else 0)
      ensures ok <==> AllFine(old(calls), calls)
    {
      ok, prev := true, None;
      if current.Some? && TrimSpace(current.value.repo) != "" {
        ok := Ask();
        if ok && current.value.repo in registrations {
          prev := Some(registrations[current.value.repo]);
        }
      }
    }

    /** Look the old row up and store the new one. */
    method Store(rec: Record) returns (failed: Option<Step>, prev: Option<Record>)
      requires Valid() && IsStored(rec)
      modifies this`registrations, this`calls
      ensures Valid()
      ensures failed.Some? ==> failed.value in {Lookup, Persist} && registrations == old(registrations)
      ensures old(calls) <= calls && (failed.None? <==> AllFine(old(calls), calls))
      ensures failed.None? ==>
        calls == old(calls) + (if current.Some? && TrimSpace(current.value.repo) != "" then 2 else 1)
      ensures failed.None? ==> registrations == old(registrations)[rec.repo := rec]
      ensures failed.None? ==> prev == Remembered(old(registrations), current)
      ensures failed.None? && prev.Some? ==> IsStored(prev.value) && prev.value.repo == current.value.repo
    {
      var found;
      found, prev := LookupCurrent();
      if !found {
        return Some(Lookup), prev;
      }
      StoredIsStored(rec);
      var persisted := Upsert(rec);
      failed := if persisted then None else Some(Persist);
    }

    /** Look the old row up, store the new one and switch over. */
    method Commit(cfg: Config, rec: Record) returns (outcome: Outcome)
      requires Valid() && Agrees(disk, cfg, rec) && IsStored(rec) && TrimSpace(cfg.repo) == rec.repo
      requires current.Some? ==> cfg.repo == current.value.repo && cfg.port == current.value.port
      modifies this
      ensures Valid()
      ensures old(calls) <= calls && (outcome == Applied <==> AllFine(old(calls), calls))
      ensures outcome.Failed? ==> current == old(current) && notifications == old(notifications)
      ensures outcome.Failed? && outcome.step !in {Start, Notify} ==>
        && !outcome.rollbackFailed && registrations == old(registrations) && runtimes == old(runtimes)
        && failedTasks == old(failedTasks) && registryInterval == old(registryInterval)
      ensures RolledBackFine(outcome) ==>
        && registrations == RolledBack(old(registrations), current, rec)
        && failedTasks == old(failedTasks) + (if Remembered(old(registrations), current).Some? then {} else {rec.repo})
      ensures outcome == Applied ==>
        && current.Some? && rec.repo == TrimSpace(current.value.repo)
        && registrations == old(registrations)[rec.repo := rec]
        && Agrees(disk, current.value, rec)
        && current == Some(cfg) && runtimes == old(runtimes)[rec.repo := RunningRow(disk, rec)]
      ensures old(current).Some? ==>
        current.Some? && SameRepoAndPort(current.value, old(current).value)
      ensures outcome == Applied ==>
        && (hasRegistry ==> registryInterval == current.value.pollInterval)
        && (hasNotifier ==> notifications == current.value.notifications)
      ensures RolledBackFine(outcome) && Remembered(old(registrations), current).Some? ==>
        var prev := Remembered(old(registrations), current).value;
        && Decoded(disk, prev).Ok? && SameBut(runtimes, old(runtimes), rec.repo, current.value.repo)
        && current.value.repo in runtimes && runtimes[current.value.repo] == Running(prev, Decoded(disk, prev).value)
        && registryInterval == (if outcome.step == Start || !hasRegistry then old(registryInterval)
                                else current.value.pollInterval)
    {
      var failed, prev := Store(rec);
      if failed.Some? {
        return Failed(failed.value, false);
      }
      outcome := Switch(cfg, rec, prev);
      if outcome == Applied {
        current := Some(cfg);
      }
    }

    /** Reload. A failure leaves the current configuration alone; unless it says that the rollback
        failed, the rows are the old ones or, past the write, the rolled-back ones. */
    method Reload(loaded: Option<Config>) returns (outcome: Outcome, ghost rec: Record)
      requires Valid() && (loaded.Some? ==> Loaded(disk, loaded.value))
      modifies this
      ensures Valid()
      ensures old(calls) <= calls
      ensures outcome == Applied <==> old(Acceptable(loaded)) && AllFine(old(calls), calls)
      ensures outcome == Applied ==> current.Some? && TakesOver(old(current), loaded.value, current.value)
      ensures outcome.Failed? ==> current == old(current) && notifications == old(notifications)
      ensures outcome.Failed? && outcome.step !in {Start, Notify} ==>
        && !outcome.rollbackFailed && registrations == old(registrations) && runtimes == old(runtimes)
        && failedTasks == old(failedTasks) && registryInterval == old(registryInterval)
      ensures RolledBackFine(outcome) ==>
        && registrations == RolledBack(old(registrations), current, rec)
        && failedTasks == old(failedTasks) + (if Remembered(old(registrations), current).Some? then {} else {rec.repo})
      ensures outcome == Applied ==>
        && current.Some? && rec.repo == TrimSpace(current.value.repo)
        && registrations == old(registrations)[rec.repo := rec]
        && Agrees(disk, current.value, rec)
        && runtimes == old(runtimes)[rec.repo := RunningRow(disk, rec)]
      ensures old(current).Some? ==>
        current.Some? && SameRepoAndPort(current.value, old(current).value)
      ensures old(current).Some? && outcome.Failed? && outcome.step in {Start, Notify} ==>
        rec.repo == TrimSpace(current.value.repo)
      ensures outcome.Failed? && !outcome.rollbackFailed && old(current).Some? && IsTrimmed(old(current).value.repo) ==>
        registrations == old(registrations)
      ensures old(InSync()) && (outcome.Failed? ==> !outcome.rollbackFailed) ==> InSync()
    {
      var prepared, step := Prepare(loaded);
      if prepared.Err? {
        return Failed(step, false), Record("", "", "", Garbled);
      }
      rec := prepared.value.1;
      outcome := Commit(prepared.value.0, prepared.value.1);
      if old(current).Some? && rec.repo == current.value.repo {
        TrimmedRepoRollsBack(old(registrations), current, rec);
      }
    }

    /** Any sequence of reloads: repo and port stay, and everything stays in agreement as long as
        no rollback fails. */
    method ReloadAll(loads: seq<Option<Config>>) returns (outcomes: seq<Outcome>)
      requires Valid() && forall i :: 0 <= i < |loads| && loads[i].Some? ==> Loaded(disk, loads[i].value)
      modifies this
      ensures Valid() && |outcomes| == |loads|
      ensures old(current).Some? ==>
        current.Some? && SameRepoAndPort(current.value, old(current).value)
      ensures old(InSync()) && (forall s :: Failed(s, true) !in outcomes) ==> InSync()
    {
      outcomes := [];
      ghost var clean := InSync();
      while |outcomes| < |loads|
        invariant |outcomes| <= |loads| && Valid()
        invariant old(current).Some? ==>
          current.Some? && SameRepoAndPort(current.value, old(current).value)
        invariant clean ==> InSync()
        invariant old(InSync()) && (forall s :: Failed(s, true) !in outcomes) ==> clean
      {
        var outcome, _ := Reload(loads[|outcomes|]);
        ghost var before := outcomes;
        outcomes := outcomes + [outcome];
        assert forall s :: Failed(s, true) in before ==> Failed(s, true) in outcomes;
        assert outcome in outcomes;
        clean := clean && (outcome.Failed? ==> !outcome.rollbackFailed);
      }
    }
  }

  lemma ActiveIsStored(rec: Record)
    requires rec.status == "active" && rec.config.Json?
    ensures IsStored(rec) && Stored(rec) == rec
  {
    TrimSpaceOfSolid("active");
  }

  /** A blank status is stored as active, a blank configuration as the empty object. */
  lemma StoredMeans(rec: Record)
    ensures Stored(rec).repo == rec.repo && Stored(rec).environment == rec.environment
    ensures Stored(rec).status == if TrimSpace(rec.status) == "" then "active" else rec.status
    ensures Stored(rec).config == if rec.config == Blank then Json(Payload("", "", 0, [], [])) else rec.config
  {}

  lemma StoredIsStored(rec: Record)
    ensures IsStored(Stored(rec))
    ensures IsStored(rec) ==> Stored(rec) == rec
  {
    TrimSpaceOfSolid("active");
  }
}
