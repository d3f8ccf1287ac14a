/** The task queue: every way a task_queue row changes, interleaved at statement granularity. */
module Tasks {
  import opened Text

  datatype Status = Pending | Running | Completed | Failed | TimedOut

  predicate Terminal(s: Status) {
    s == Completed || s == Failed || s == TimedOut
  }

  /** A task_queue row; an empty worker is the NULL worker_id. */
  datatype Row = Row(status: Status, worker: string, lease: Option<int>, heartbeat: Option<int>, created: int)

  type Rows = map<string, Row>

  // ----- the store's statements -----------------------------------------------------

  /** A pending or running row whose lease is absent or over, and that is not already being
      run by the same worker. */
  predicate Claimable(r: Row, now: int, worker: string) {
    && (r.status == Pending || r.status == Running)
    && (r.lease.None? || r.lease.value < now)
    && !(r.status == Running && r.worker == worker)
  }

  ghost predicate NoneClaimable(rows: Rows, now: int, worker: string, queue: seq<string>) {
    forall k :: 0 <= k < |queue| && queue[k] in rows ==> !Claimable(rows[queue[k]], now, worker)
  }

  function Claimed(r: Row, now: int, worker: string, lease: nat): Row {
    r.(status := Running, worker := worker, lease := Some(now + lease), heartbeat := Some(now))
  }

  /** Stale: no heartbeat within the grace, or none at all on a row older than the grace. */
  predicate Stale(r: Row, now: int, grace: nat) {
    r.status == Running && if r.heartbeat.Some? then r.heartbeat.value < now - grace else r.created < now - grace
  }

  function Reaped(r: Row): Row {
    r.(status := Failed, worker := "", lease := None)
  }

  // ----- requests and history -------------------------------------------------------

  /** A result submission whose worker check passed. */
  datatype Submission = Submission(task: string, worker: string, status: Status, infra: bool)

  /** Read: the handler holds its snapshot. Won: its transition settled the row, nothing has been
      announced. Told: the completion is published. Done: the state machine is signalled too, or the
      infrastructure failure logged. Cut: the process died in between. Lost: rejected, or died before. */
  datatype Phase = Read | Won | Told | Done | Cut | Lost

  datatype Request = Request(sub: Submission, phase: Phase)

  datatype Event =
    | Published(task: string, req: nat)
    | Signalled(task: string, req: nat)
    | InfraLogged(task: string, req: nat)

  /** What took a row out of pending/running. */
  datatype Settler = BySubmission(req: nat) | ByReaper | ByRecovery | ByDeregistration

  datatype System = System(
    now: int,
    rows: Rows,
    requests: map<nat, Request>,
    reapList: set<string>,
    recoverList: set<string>,
    log: seq<Event>,
    settledBy: map<string, Settler>)

  const INITIAL := System(0, map[], map[], {}, {}, [], map[])

  datatype Step =
    | Tick(d: nat)
    | Insert(task: string)
    | Claim(task: string, worker: string, lease: nat)
    | Heartbeat(task: string, worker: string, lease: nat)
    | Release(task: string, worker: string)
    | ResultRead(req: nat, sub: Submission)
    | ResultSettle(req: nat)
    | ResultPublish(req: nat)
    | ResultSignal(req: nat)
    | ReapSelect(grace: nat)
    | ReapUpdate(task: string)
    | ReapAbort
    | Restart
    | RecoverRead
    | RecoverUpdate(task: string)
    | RecoverSkip(task: string)
    | Deregister(tasks: set<string>)

  /** A row leaves pending/running: remember what did it. */
  function Settle(s: System, task: string, row: Row, who: Settler): System {
    s.(rows := s.rows[task := row], settledBy := if task in s.settledBy then s.settledBy else s.settledBy[task := who])
  }

  function Advance(s: System, req: nat, phase: Phase): System
    requires req in s.requests
  {
    s.(requests := s.requests[req := s.requests[req].(phase := phase)])
  }

  predicate Active(s: System, task: string) {
    task in s.rows && !Terminal(s.rows[task].status)
  }

  /** GetTask and the checks HandleTaskResult makes on what it read. */
  predicate Accepts(s: System, req: nat, sub: Submission) {
    && req !in s.requests && sub.worker != "" && Terminal(sub.status)
    && sub.task in s.rows && s.rows[sub.task].worker == sub.worker
  }

  /** TransitionTaskStatusIfRunning: only a pending or running row moves. */
  function SettleResult(s: System, req: nat): System
    requires req in s.requests
  {
    var sub := s.requests[req].sub;
    if Active(s, sub.task) then
      Advance(Settle(s, sub.task, s.rows[sub.task].(status := sub.status), BySubmission(req)), req, Won)
    else Advance(s, req, Lost)
  }

  /** PublishTaskCompletion. */
  function Publish(s: System, req: nat): System
    requires req in s.requests
  {
    Advance(s, req, Told).(log := s.log + [Published(s.requests[req].sub.task, req)])
  }

  /** What follows the publication: a launcher failure is logged, anything else signalled. */
  function Follow(sub: Submission, req: nat): Event {
    if sub.infra then InfraLogged(sub.task, req) else Signalled(sub.task, req)
  }

  function Signal(s: System, req: nat): System
    requires req in s.requests
  {
    Advance(s, req, Done).(log := s.log + [Follow(s.requests[req].sub, req)])
  }

  /** What a crash makes of a request. */
  function Crashed(p: Phase): Phase {
    match p case Done => Done case Told => Cut case Cut => Cut case _ => Lost
  }

  /** FailPendingTasksForRepo on the repository's rows. */
  function FailAll(s: System, tasks: set<string>): System {
    var hit := set t | t in tasks && Active(s, t);
    s.(rows := map t | t in s.rows :: if t in hit then s.rows[t].(status := Failed) else s.rows[t],
       settledBy := map t | t in s.settledBy.Keys + hit ::
                      if t in s.settledBy then s.settledBy[t] else ByDeregistration)
  }

  /** A statement or handler section whose guard fails changes nothing. */
  function Apply(s: System, step: Step): System {
    match step
    case Tick(d) => s.(now := s.now + d)
    case Insert(t) =>
      if t in s.rows then s else s.(rows := s.rows[t := Row(Pending, "", None, None, s.now)])
    case Claim(t, w, lease) =>
      if t in s.rows && Claimable(s.rows[t], s.now, w)
      then s.(rows := s.rows[t := Claimed(s.rows[t], s.now, w, lease)]) else s
    case Heartbeat(t, w, lease) =>
      if t in s.rows && s.rows[t].status == Running && s.rows[t].worker == w
      then s.(rows := s.rows[t := s.rows[t].(heartbeat := Some(s.now), lease := Some(s.now + lease))]) else s
    case Release(t, w) =>
      if t in s.rows && s.rows[t].status == Running && s.rows[t].worker == w
      then s.(rows := s.rows[t := s.rows[t].(status := Pending, worker := "")]) else s
    case ResultRead(req, sub) =>
      if Accepts(s, req, sub) then s.(requests := s.requests[req := Request(sub, Read)]) else s
    case ResultSettle(req) =>
      if req in s.requests && s.requests[req].phase == Read then SettleResult(s, req) else s
    case ResultPublish(req) =>
      if req in s.requests && s.requests[req].phase == Won then Publish(s, req) else s
    case ResultSignal(req) =>
      if req in s.requests && s.requests[req].phase == Told then Signal(s, req) else s
    case ReapSelect(grace) =>
      if grace == 0 then s else s.(reapList := set t | t in s.rows && Stale(s.rows[t], s.now, grace))
    case ReapUpdate(t) =>
      if t in s.reapList && t in s.rows && s.rows[t].status == Running
      then Settle(s, t, Reaped(s.rows[t]), ByReaper).(reapList := s.reapList - {t})
      else s.(reapList := s.reapList - {t})
    case ReapAbort => s.(reapList := {})
    case Restart =>
      s.(reapList := {}, recoverList := {},
         requests := map r | r in s.requests :: s.requests[r].(phase := Crashed(s.requests[r].phase)))
    case RecoverRead =>
      s.(recoverList := set t | t in s.rows && s.rows[t].status == Running)
    case RecoverUpdate(t) =>
      if t in s.recoverList && t in s.rows
      then Settle(s, t, s.rows[t].(status := Failed), ByRecovery).(recoverList := s.recoverList - {t})
      else s.(recoverList := s.recoverList - {t})
    case RecoverSkip(t) => s.(recoverList := s.recoverList - {t})
    case Deregister(tasks) => FailAll(s, tasks)
  }

  /** The state a sequence of steps leads to. */
  function Exec(steps: seq<Step>): System {
    if steps == [] then INITIAL else Apply(Exec(steps[..|steps| - 1]), steps[|steps| - 1])
  }

  // ----- terminal rows --------------------------------------------------------------

  /** No step of any party takes a row out of the terminal statuses; only recovery's
      unconditional update can replace one terminal status by another. */
  lemma TerminalStays(s: System, step: Step, t: string)
    requires t in s.rows && Terminal(s.rows[t].status)
    ensures t in Apply(s, step).rows && Terminal(Apply(s, step).rows[t].status)
    ensures step != RecoverUpdate(t) ==> Apply(s, step).rows[t].status == s.rows[t].status
  {}

  /** Recovery overwrites a terminal status exactly when the row was still listed and had not
      failed already. */
  lemma RecoveryOverwritesIff(s: System, t: string)
    requires t in s.rows && Terminal(s.rows[t].status)
    ensures Apply(s, RecoverUpdate(t)).rows[t].status != s.rows[t].status <==>
            t in s.recoverList && s.rows[t].status != Failed
  {}

  /** A recovery update of t finds t still listed. */
  ghost predicate RecoveryHits(steps: seq<Step>, more: seq<Step>, t: string, k: int) {
    0 <= k < |more| && more[k] == RecoverUpdate(t) && t in Exec(steps + more[..k]).recoverList
  }

  ghost predicate RecoveryHit(steps: seq<Step>, more: seq<Step>, t: string) {
    exists k :: RecoveryHits(steps, more, t, k)
  }

  lemma HitSnoc(steps: seq<Step>, init: seq<Step>, last: Step, t: string)
    ensures RecoveryHit(steps, init + [last], t) <==>
            RecoveryHit(steps, init, t) || (last == RecoverUpdate(t) && t in Exec(steps + init).recoverList)
  {
    var more := init + [last];
    assert more[..|init|] == init;
    if RecoveryHit(steps, init, t) {
      var k :| RecoveryHits(steps, init, t, k);
      assert more[..k] == init[..k];
      assert RecoveryHits(steps, more, t, k);
    }
    if last == RecoverUpdate(t) && t in Exec(steps + init).recoverList {
      assert RecoveryHits(steps, more, t, |init|);
    }
    if RecoveryHit(steps, more, t) {
      var k :| RecoveryHits(steps, more, t, k);
      if k < |init| {
        assert more[..k] == init[..k];
        assert RecoveryHits(steps, init, t, k);
      }
    }
  }

  lemma SettledStep(s: System, step: Step, t: string)
    requires t in s.rows && Terminal(s.rows[t].status)
    ensures t in Apply(s, step).rows
    ensures Apply(s, step).rows[t].status ==
            if step == RecoverUpdate(t) && t in s.recoverList then Failed else s.rows[t].status
  {}

  /** In every interleaving the status of a settled task is what it was, or failed if a recovery
      update has hit it since; so it changes exactly if it was not failed and one did. */
  lemma {:induction false} SettledStatusIff(steps: seq<Step>, more: seq<Step>, t: string)
    requires t in Exec(steps).rows && Terminal(Exec(steps).rows[t].status)
    ensures t in Exec(steps + more).rows
    ensures Exec(steps + more).rows[t].status ==
            if RecoveryHit(steps, more, t) then Failed else Exec(steps).rows[t].status
  {
    if more == [] {
      assert steps + more == steps;
      assert !RecoveryHit(steps, more, t);
    } else {
      var init, last := more[..|more| - 1], more[|more| - 1];
      assert more == init + [last];
      SettledStatusIff(steps, init, t);
      ExecSnoc(steps, more);
      SettledStep(Exec(steps + init), last, t);
      HitSnoc(steps, init, last, t);
    }
  }

  lemma ExecSnoc(steps: seq<Step>, more: seq<Step>)
    requires more != []
    ensures Exec(steps + more) == Apply(Exec(steps + more[..|more| - 1]), more[|more| - 1])
  {
    SnocParts(steps, more);
    ExecLast(steps + more);
  }

  lemma SnocParts(steps: seq<Step>, more: seq<Step>)
    requires more != []
    ensures var all := steps + more;
            all != [] && all[..|all| - 1] == steps + more[..|more| - 1] && all[|all| - 1] == more[|more| - 1]
  {}

  lemma ExecLast(all: seq<Step>)
    requires all != []
    ensures Exec(all) == Apply(Exec(all[..|all| - 1]), all[|all| - 1])
  {}

  /** In every interleaving a settled task stays settled. */
  lemma {:induction false} TerminalForever(steps: seq<Step>, more: seq<Step>, t: string)
    requires t in Exec(steps).rows && Terminal(Exec(steps).rows[t].status)
    ensures t in Exec(steps + more).rows && Terminal(Exec(steps + more).rows[t].status)
  {
    if more == [] {
      assert steps + more == steps;
    } else {
      TerminalForever(steps, more[..|more| - 1], t);
      ExecSnoc(steps, more);
      TerminalStays(Exec(steps + more[..|more| - 1]), more[|more| - 1], t);
    }
  }

  // ----- what every interleaving keeps ----------------------------------------------

  ghost predicate SettledIffTerminal(s: System) {
    forall t :: t in s.settledBy <==> t in s.rows && Terminal(s.rows[t].status)
  }

  predicate Winner(p: Phase) {
    p == Won || p == Told || p == Done || p == Cut
  }

  predicate HasPublished(p: Phase) {
    p == Told || p == Done || p == Cut
  }

  /** A request that got past its transition is what settled its task. */
  ghost predicate WinnersSettled(s: System) {
    forall r :: r in s.requests && Winner(s.requests[r].phase) ==>
      s.requests[r].sub.task in s.settledBy && s.settledBy[s.requests[r].sub.task] == BySubmission(r)
  }

  /** The request an event came from has got that far. */
  ghost predicate Backed(s: System, e: Event) {
    && e.req in s.requests && s.requests[e.req].sub.task == e.task
    && if e.Published? then HasPublished(s.requests[e.req].phase)
       else s.requests[e.req].phase == Done && e == Follow(s.requests[e.req].sub, e.req)
  }

  ghost predicate LogOk(s: System) {
    && (forall i :: 0 <= i < |s.log| ==> Backed(s, s.log[i]))
    && forall i, j :: 0 <= i < j < |s.log| ==> s.log[i] != s.log[j]
  }

  /** And what a request has announced is in the log. */
  ghost predicate Logged(s: System) {
    forall r :: r in s.requests ==>
      && (HasPublished(s.requests[r].phase) ==> Published(s.requests[r].sub.task, r) in s.log)
      && (s.requests[r].phase == Done ==> Follow(s.requests[r].sub, r) in s.log)
  }

  ghost predicate SubmissionsTerminal(s: System) {
    forall r :: r in s.requests ==> Terminal(s.requests[r].sub.status)
  }

  ghost predicate Inv(s: System) {
    SettledIffTerminal(s) && WinnersSettled(s) && LogOk(s) && Logged(s) && SubmissionsTerminal(s)
  }

  /** Steps that touch neither requests nor the log nor any row's terminality. */
  lemma QuietStepKeepsInv(s: System, s': System)
    requires Inv(s) && s'.requests == s.requests && s'.log == s.log && s'.settledBy == s.settledBy
    requires forall t :: (t in s'.rows && Terminal(s'.rows[t].status)) <==> (t in s.rows && Terminal(s.rows[t].status))
    ensures Inv(s')
  {
    forall i | 0 <= i < |s'.log| ensures Backed(s', s'.log[i]) { assert Backed(s, s.log[i]); }
  }

  lemma SettleKeepsInv(s: System, t: string, row: Row, who: Settler)
    requires Inv(s) && t in s.rows && Terminal(row.status)
    ensures Inv(Settle(s, t, row, who))
    ensures t !in s.settledBy ==> Settle(s, t, row, who).settledBy[t] == who
  {
    var s' := Settle(s, t, row, who);
    forall i | 0 <= i < |s'.log| ensures Backed(s', s'.log[i]) { assert Backed(s, s.log[i]); }
    assert WinnersSettled(s');
  }

  /** A request that has announced nothing moves on without an announcement. */
  lemma AdvanceKeepsInv(s: System, req: nat, phase: Phase)
    requires Inv(s) && req in s.requests && !HasPublished(s.requests[req].phase) && !HasPublished(phase)
    requires Winner(phase) ==>
               s.requests[req].sub.task in s.settledBy && s.settledBy[s.requests[req].sub.task] == BySubmission(req)
    ensures Inv(Advance(s, req, phase))
  {
    var s' := Advance(s, req, phase);
    forall i | 0 <= i < |s'.log| ensures Backed(s', s'.log[i]) { assert Backed(s, s.log[i]); }
  }

  /** A request announces e and moves to `phase`; e was not in the log. */
  lemma AnnounceKeepsInv(s: System, s': System, req: nat, phase: Phase, e: Event)
    requires Inv(s) && req in s.requests && s' == Advance(s, req, phase).(log := s.log + [e])
    requires if e.Published?
             then s.requests[req].phase == Won && phase == Told && e == Published(s.requests[req].sub.task, req)
             else s.requests[req].phase == Told && phase == Done && e == Follow(s.requests[req].sub, req)
    ensures Inv(s')
  {
    forall i | 0 <= i < |s.log| ensures s.log[i] != e && Backed(s', s.log[i]) {
      assert Backed(s, s.log[i]);
    }
    LogExtends(s, s', e);
    LoggedExtends(s, s', req, e);
  }

  lemma LogExtends(s: System, s': System, e: Event)
    requires LogOk(s) && s'.log == s.log + [e] && Backed(s', e)
    requires forall i :: 0 <= i < |s.log| ==> s.log[i] != e && Backed(s', s.log[i])
    ensures LogOk(s')
  {}

  lemma LoggedExtends(s: System, s': System, req: nat, e: Event)
    requires Logged(s) && s'.log == s.log + [e] && req in s.requests && s'.requests.Keys == s.requests.Keys
    requires forall r :: r in s.requests && r != req ==> s'.requests[r] == s.requests[r]
    requires s'.requests[req].sub == s.requests[req].sub
    requires HasPublished(s'.requests[req].phase) ==>
               HasPublished(s.requests[req].phase) || e == Published(s.requests[req].sub.task, req)
    requires s'.requests[req].phase == Done ==> s.requests[req].phase == Done || e == Follow(s.requests[req].sub, req)
    ensures Logged(s')
  {
    assert e in s'.log && forall x :: x in s.log ==> x in s'.log;
  }

  lemma RestartKeepsInv(s: System)
    requires Inv(s)
    ensures Inv(Apply(s, Restart))
  {
    CrashKeepsInv(s, Apply(s, Restart));
  }

  /** Every request dies where it is. */
  ghost predicate AllCrashed(s: System, s': System) {
    && s'.log == s.log && s'.requests.Keys == s.requests.Keys
    && forall r :: r in s.requests ==> s'.requests[r] == s.requests[r].(phase := Crashed(s.requests[r].phase))
  }

  lemma CrashKeepsInv(s: System, s': System)
    requires Inv(s) && AllCrashed(s, s') && s'.rows == s.rows && s'.settledBy == s.settledBy
    ensures Inv(s')
  {
    CrashKeepsLog(s, s');
    CrashKeepsLogged(s, s');
  }

  lemma CrashKeepsLog(s: System, s': System)
    requires LogOk(s) && AllCrashed(s, s')
    ensures LogOk(s')
  {
    forall i | 0 <= i < |s'.log| ensures Backed(s', s'.log[i]) { assert Backed(s, s.log[i]); }
  }

  lemma CrashKeepsLogged(s: System, s': System)
    requires Logged(s) && AllCrashed(s, s')
    ensures Logged(s')
  {}

  lemma FailAllKeepsInv(s: System, tasks: set<string>)
    requires Inv(s)
    ensures Inv(FailAll(s, tasks))
  {
    var s' := FailAll(s, tasks);
    forall i | 0 <= i < |s'.log| ensures Backed(s', s'.log[i]) { assert Backed(s, s.log[i]); }
  }

  lemma ReadKeepsInv(s: System, req: nat, sub: Submission)
    requires Inv(s) && Accepts(s, req, sub)
    ensures Inv(s.(requests := s.requests[req := Request(sub, Read)]))
  {
    var s' := s.(requests := s.requests[req := Request(sub, Read)]);
    forall i | 0 <= i < |s'.log| ensures Backed(s', s'.log[i]) { assert Backed(s, s.log[i]); }
  }

  lemma SettleResultKeepsInv(s: System, req: nat)
    requires Inv(s) && req in s.requests && s.requests[req].phase == Read
    ensures Inv(SettleResult(s, req))
  {
    var sub := s.requests[req].sub;
    if Active(s, sub.task) {
      var row := s.rows[sub.task].(status := sub.status);
      SettleKeepsInv(s, sub.task, row, BySubmission(req));
      AdvanceKeepsInv(Settle(s, sub.task, row, BySubmission(req)), req, Won);
    } else {
      AdvanceKeepsInv(s, req, Lost);
    }
  }

  lemma ListStepKeepsInv(s: System, step: Step)
    requires Inv(s) && (step.Tick? || step.ReapSelect? || step.ReapAbort? || step.RecoverRead? || step.RecoverSkip?)
    ensures Inv(Apply(s, step))
  {
    QuietStepKeepsInv(s, Apply(s, step));
  }

  lemma LeaseStepKeepsInv(s: System, step: Step)
    requires Inv(s) && (step.Insert? || step.Claim? || step.Heartbeat? || step.Release?)
    ensures Inv(Apply(s, step))
  {
    LeaseStepIsQuiet(s, step);
    QuietStepKeepsInv(s, Apply(s, step));
  }

  lemma LeaseStepIsQuiet(s: System, step: Step)
    requires step.Insert? || step.Claim? || step.Heartbeat? || step.Release?
    ensures var s' := Apply(s, step);
            && s'.requests == s.requests && s'.log == s.log && s'.settledBy == s.settledBy
            && forall t :: (t in s'.rows && Terminal(s'.rows[t].status)) <==>
              (t in s.rows && Terminal(s.rows[t].status))
  {}

  lemma ReapUpdateKeepsInv(s: System, t: string)
    requires Inv(s)
    ensures Inv(Apply(s, ReapUpdate(t)))
  {
    var hit := t in s.reapList && t in s.rows && s.rows[t].status == Running;
    var m := if hit then Settle(s, t, Reaped(s.rows[t]), ByReaper) else s;
    if m != s { SettleKeepsInv(s, t, Reaped(s.rows[t]), ByReaper); }
    QuietStepKeepsInv(m, Apply(s, ReapUpdate(t)));
  }

  lemma RecoverUpdateKeepsInv(s: System, t: string)
    requires Inv(s)
    ensures Inv(Apply(s, RecoverUpdate(t)))
  {
    var m := if t in s.recoverList && t in s.rows then Settle(s, t, s.rows[t].(status := Failed), ByRecovery) else s;
    if m != s { SettleKeepsInv(s, t, s.rows[t].(status := Failed), ByRecovery); }
    QuietStepKeepsInv(m, Apply(s, RecoverUpdate(t)));
  }

  lemma SubmitStepKeepsInv(s: System, step: Step)
    requires Inv(s) && (step.ResultRead? || step.ResultSettle?)
    ensures Inv(Apply(s, step))
  {
    match step
    case ResultRead(req, sub) => if Accepts(s, req, sub) { ReadKeepsInv(s, req, sub); }
    case ResultSettle(req) => if req in s.requests && s.requests[req].phase == Read { SettleResultKeepsInv(s, req); }
  }

  lemma PublishKeepsInv(s: System, req: nat)
    requires Inv(s)
    ensures Inv(Apply(s, ResultPublish(req)))
  {
    if req in s.requests && s.requests[req].phase == Won {
      AnnounceKeepsInv(s, Publish(s, req), req, Told, Published(s.requests[req].sub.task, req));
    }
  }

  lemma SignalKeepsInv(s: System, req: nat)
    requires Inv(s)
    ensures Inv(Apply(s, ResultSignal(req)))
  {
    if req in s.requests && s.requests[req].phase == Told {
      AnnounceKeepsInv(s, Signal(s, req), req, Done, Follow(s.requests[req].sub, req));
    }
  }

  lemma StepKeepsInv(s: System, step: Step)
    requires Inv(s)
    ensures Inv(Apply(s, step))
  {
    match step
    case ResultRead(_, _) => SubmitStepKeepsInv(s, step);
    case ResultSettle(_) => SubmitStepKeepsInv(s, step);
    case ResultPublish(req) => PublishKeepsInv(s, req);
    case ResultSignal(req) => SignalKeepsInv(s, req);
    case ReapUpdate(t) => ReapUpdateKeepsInv(s, t);
    case Restart => RestartKeepsInv(s);
    case RecoverUpdate(t) => RecoverUpdateKeepsInv(s, t);
    case Deregister(tasks) => FailAllKeepsInv(s, tasks);
    case Insert(_) => LeaseStepKeepsInv(s, step);
    case Claim(_, _, _) => LeaseStepKeepsInv(s, step);
    case Heartbeat(_, _, _) => LeaseStepKeepsInv(s, step);
    case Release(_, _) => LeaseStepKeepsInv(s, step);
    case _ => ListStepKeepsInv(s, step);
  }

  lemma {:induction false} ReachableInv(steps: seq<Step>)
    ensures Inv(Exec(steps))
  {
    if steps == [] {
    } else {
      ReachableInv(steps[..|steps| - 1]);
      StepKeepsInv(Exec(steps[..|steps| - 1]), steps[|steps| - 1]);
    }
  }

  // ----- main results over every interleaving ---------------------------------------

  /** A task's completion is published at most once. */
  lemma PublishedOnce(steps: seq<Step>, i: nat, j: nat)
    requires i < |Exec(steps).log| && j < |Exec(steps).log|
    requires Exec(steps).log[i].Published? && Exec(steps).log[j].Published?
    requires Exec(steps).log[i].task == Exec(steps).log[j].task
    ensures i == j
  {
    SameTaskSameRequest(steps, i, j);
    ReachableInv(steps);
  }

  /** The state machine is signalled at most once per task. */
  lemma SignalledOnce(steps: seq<Step>, i: nat, j: nat)
    requires i < |Exec(steps).log| && j < |Exec(steps).log|
    requires Exec(steps).log[i].Signalled? && Exec(steps).log[j].Signalled?
    requires Exec(steps).log[i].task == Exec(steps).log[j].task
    ensures i == j
  {
    SameTaskSameRequest(steps, i, j);
    ReachableInv(steps);
  }

  lemma SameTaskSameRequest(steps: seq<Step>, i: nat, j: nat)
    requires i < |Exec(steps).log| && j < |Exec(steps).log| && Exec(steps).log[i].task == Exec(steps).log[j].task
    ensures Exec(steps).log[i].req == Exec(steps).log[j].req
  {
    AnnouncedBySettler(steps, i);
    AnnouncedBySettler(steps, j);
  }

  /** Whatever is announced about a task comes from the submission that settled it, so nothing is
      ever announced about a task the reaper, recovery or a deregistration settled. */
  lemma AnnouncedBySettler(steps: seq<Step>, i: nat)
    requires i < |Exec(steps).log|
    ensures var s := Exec(steps); var e := s.log[i];
            && e.task in s.rows && Terminal(s.rows[e.task].status)
            && e.task in s.settledBy && s.settledBy[e.task] == BySubmission(e.req)
  {
    ReachableInv(steps);
    var s := Exec(steps);
    assert Backed(s, s.log[i]);
  }

  /** The state machine never hears of an infrastructure failure. */
  lemma InfraNeverSignalled(steps: seq<Step>, i: nat)
    requires i < |Exec(steps).log| && Exec(steps).log[i].Signalled?
    ensures Exec(steps).log[i].req in Exec(steps).requests && !Exec(steps).requests[Exec(steps).log[i].req].sub.infra
  {
    ReachableInv(steps);
    assert Backed(Exec(steps), Exec(steps).log[i]);
  }

  /** In every interleaving the log holds exactly what the requests' phases say: a completion is
      published once its request got that far, and followed up exactly by the requests that were
      not cut off. */
  lemma AnnouncedIff(steps: seq<Step>, req: nat)
    requires req in Exec(steps).requests
    ensures var s := Exec(steps); var r := s.requests[req];
            && (Published(r.sub.task, req) in s.log <==> HasPublished(r.phase))
            && (Follow(r.sub, req) in s.log <==> r.phase == Done)
  {
    ReachableInv(steps);
    var s := Exec(steps);
    var r := s.requests[req];
    if Published(r.sub.task, req) in s.log {
      var i :| 0 <= i < |s.log| && s.log[i] == Published(r.sub.task, req);
      assert Backed(s, s.log[i]);
    }
    if Follow(r.sub, req) in s.log {
      var i :| 0 <= i < |s.log| && s.log[i] == Follow(r.sub, req);
      assert Backed(s, s.log[i]);
    }
  }

  /** What one step makes of a request that has won. */
  function PhaseAfter(p: Phase, step: Step, req: nat): Phase {
    if step == ResultPublish(req) && p == Won then Told
    else if step == ResultSignal(req) && p == Told then Done
    else if step == Restart then Crashed(p)
    else p
  }

  lemma PhaseStep(s: System, step: Step, req: nat)
    requires req in s.requests && s.requests[req].phase != Read
    ensures var r := Apply(s, step);
            && req in r.requests
            && r.requests[req] == s.requests[req].(phase := PhaseAfter(s.requests[req].phase, step, req))
  {}

  function PhaseRun(p: Phase, more: seq<Step>, req: nat): Phase {
    if more == [] then p else PhaseAfter(PhaseRun(p, more[..|more| - 1], req), more[|more| - 1], req)
  }

  lemma {:induction false} PhaseOverRun(steps: seq<Step>, more: seq<Step>, req: nat)
    requires req in Exec(steps).requests && Exec(steps).requests[req].phase != Read
    ensures var a, r := Exec(steps), Exec(steps + more);
            && req in r.requests
            && r.requests[req] == a.requests[req].(phase := PhaseRun(a.requests[req].phase, more, req))
            && r.requests[req].phase != Read
  {
    if more == [] {
      assert steps + more == steps;
    } else {
      PhaseOverRun(steps, more[..|more| - 1], req);
      ExecSnoc(steps, more);
      PhaseStep(Exec(steps + more[..|more| - 1]), more[|more| - 1], req);
    }
  }

  /** The step is taken at j, and no crash comes before it. */
  ghost predicate TakenAt(more: seq<Step>, step: Step, j: int) {
    0 <= j < |more| && more[j] == step && Restart !in more[..j]
  }

  ghost predicate TakenAlive(more: seq<Step>, step: Step) {
    exists j :: TakenAt(more, step, j)
  }

  lemma TakenSnoc(init: seq<Step>, last: Step, step: Step)
    ensures TakenAlive(init + [last], step) <==> TakenAlive(init, step) || (last == step && Restart !in init)
  {
    var more := init + [last];
    if TakenAlive(init, step) {
      var j :| TakenAt(init, step, j);
      assert more[..j] == init[..j];
      assert TakenAt(more, step, j);
    }
    if last == step && Restart !in init {
      assert more[..|init|] == init;
      assert TakenAt(more, step, |init|);
    }
    if TakenAlive(more, step) {
      var j :| TakenAt(more, step, j);
      if j < |init| {
        assert more[..j] == init[..j];
        assert TakenAt(init, step, j);
      } else {
        assert more[..j] == init;
      }
    }
  }

  lemma {:induction false} RunFromTold(more: seq<Step>, req: nat)
    ensures PhaseRun(Told, more, req) ==
            if TakenAlive(more, ResultSignal(req)) then Done else if Restart in more then Cut else Told
  {
    if more == [] {
      assert !TakenAlive(more, ResultSignal(req));
    } else {
      var init, last := more[..|more| - 1], more[|more| - 1];
      assert more == init + [last];
      RunFromTold(init, req);
      TakenSnoc(init, last, ResultSignal(req));
    }
  }

  /** A published completion is followed up exactly if its signalling section runs before the process
      next dies. */
  lemma FollowedIff(steps: seq<Step>, more: seq<Step>, req: nat)
    requires req in Exec(steps).requests && Exec(steps).requests[req].phase == Told
    ensures Follow(Exec(steps).requests[req].sub, req) in Exec(steps + more).log <==>
      TakenAlive(more, ResultSignal(req))
  {
    PhaseOverRun(steps, more, req);
    RunFromTold(more, req);
    AnnouncedIff(steps + more, req);
  }

  lemma {:induction false} RunFromWon(more: seq<Step>, req: nat)
    ensures HasPublished(PhaseRun(Won, more, req)) <==> TakenAlive(more, ResultPublish(req))
    ensures !HasPublished(PhaseRun(Won, more, req)) ==>
      PhaseRun(Won, more, req) == if Restart in more then Lost else Won
  {
    if more == [] {
      assert !TakenAlive(more, ResultPublish(req));
    } else {
      var init, last := more[..|more| - 1], more[|more| - 1];
      assert more == init + [last];
      RunFromWon(init, req);
      TakenSnoc(init, last, ResultPublish(req));
    }
  }

  /** A settled submission is published exactly if its publishing section runs before the process
      next dies: a crash right after the transition loses both announcements. */
  lemma PublishedIff(steps: seq<Step>, more: seq<Step>, req: nat)
    requires req in Exec(steps).requests && Exec(steps).requests[req].phase == Won
    ensures Published(Exec(steps).requests[req].sub.task, req) in Exec(steps + more).log <==>
            TakenAlive(more, ResultPublish(req))
    ensures !TakenAlive(more, ResultPublish(req)) ==>
      Follow(Exec(steps).requests[req].sub, req) !in Exec(steps + more).log
  {
    PhaseOverRun(steps, more, req);
    RunFromWon(more, req);
    AnnouncedIff(steps + more, req);
  }

  /** The publishing section runs, then the signalling one, and no crash comes before that. */
  ghost predicate BothTakenAt(more: seq<Step>, req: nat, j: int) {
    TakenAt(more, ResultSignal(req), j) && TakenAlive(more[..j], ResultPublish(req))
  }

  ghost predicate BothTaken(more: seq<Step>, req: nat) {
    exists j :: BothTakenAt(more, req, j)
  }

  lemma BothSnoc(init: seq<Step>, last: Step, req: nat)
    ensures BothTaken(init + [last], req) <==>
            || BothTaken(init, req)
            || (last == ResultSignal(req) && Restart !in init && TakenAlive(init, ResultPublish(req)))
  {
    var more := init + [last];
    assert more[..|init|] == init;
    if BothTaken(init, req) {
      var j :| BothTakenAt(init, req, j);
      assert more[..j] == init[..j];
      assert BothTakenAt(more, req, j);
    }
    if last == ResultSignal(req) && Restart !in init && TakenAlive(init, ResultPublish(req)) {
      assert BothTakenAt(more, req, |init|);
    }
    if BothTaken(more, req) {
      var j :| BothTakenAt(more, req, j);
      if j < |init| {
        assert more[..j] == init[..j];
        assert BothTakenAt(init, req, j);
      }
    }
  }

  lemma {:induction false} RunFromWonOn(more: seq<Step>, req: nat)
    ensures TakenAlive(more, ResultPublish(req)) ==>
              PhaseRun(Won, more, req) == if BothTaken(more, req) then Done else if Restart in more then Cut else Told
    ensures BothTaken(more, req) ==> TakenAlive(more, ResultPublish(req))
  {
    if more == [] {
      assert !TakenAlive(more, ResultPublish(req)) && !BothTaken(more, req);
    } else {
      var init, last := more[..|more| - 1], more[|more| - 1];
      assert more == init + [last];
      RunFromWon(init, req);
      RunFromWonOn(init, req);
      TakenSnoc(init, last, ResultPublish(req));
      BothSnoc(init, last, req);
    }
  }

  /** A settled submission is signalled, or its infrastructure failure logged, exactly if both
      sections run in turn before the process next dies. */
  lemma SettledFollowedIff(steps: seq<Step>, more: seq<Step>, req: nat)
    requires req in Exec(steps).requests && Exec(steps).requests[req].phase == Won
    ensures Follow(Exec(steps).requests[req].sub, req) in Exec(steps + more).log <==> BothTaken(more, req)
  {
    PhaseOverRun(steps, more, req);
    RunFromWon(more, req);
    RunFromWonOn(more, req);
    AnnouncedIff(steps + more, req);
  }

  lemma CutStays(s: System, step: Step, req: nat)
    requires req in s.requests && s.requests[req].phase == Cut
    ensures req in Apply(s, step).requests && Apply(s, step).requests[req] == s.requests[req]
  {}

  /** A crash between publication and signal loses the signal for good. */
  lemma {:induction false} CutNeverSignalled(steps: seq<Step>, more: seq<Step>, req: nat)
    requires req in Exec(steps).requests && Exec(steps).requests[req].phase == Cut
    ensures var s := Exec(steps + more);
            && req in s.requests && s.requests[req] == Exec(steps).requests[req]
            && Published(s.requests[req].sub.task, req) in s.log && Signalled(s.requests[req].sub.task, req) !in s.log
  {
    if more == [] {
      assert steps + more == steps;
    } else {
      CutNeverSignalled(steps, more[..|more| - 1], req);
      ExecSnoc(steps, more);
      CutStays(Exec(steps + more[..|more| - 1]), more[|more| - 1], req);
    }
    CutNotFollowed(steps + more, req);
  }

  lemma CutNotFollowed(steps: seq<Step>, req: nat)
    requires req in Exec(steps).requests && Exec(steps).requests[req].phase == Cut
    ensures var s := Exec(steps);
            Published(s.requests[req].sub.task, req) in s.log && Signalled(s.requests[req].sub.task, req) !in s.log
  {
    ReachableInv(steps);
    var s := Exec(steps);
    forall i | 0 <= i < |s.log| ensures s.log[i] != Signalled(s.requests[req].sub.task, req) {
      assert Backed(s, s.log[i]);
    }
  }

  // ----- recovery at startup --------------------------------------------------------

  /** What can happen while recovery has rows left to update. */
  predicate DuringRecovery(step: Step) {
    step.RecoverUpdate? || step.RecoverSkip? || step.Restart? || step.Tick?
  }

  /** The coordinator starts its reaper and its HTTP server after RecoverTasks has returned: while
      recovery has rows left to update, nothing but recovery, another crash or the
      passing of time happens. */
  ghost predicate StartupOrdered(steps: seq<Step>) {
    steps == [] ||
    var init, last := steps[..|steps| - 1], steps[|steps| - 1];
    StartupOrdered(init) && (Exec(init).recoverList != {} ==> DuringRecovery(last))
  }

  ghost predicate RecoverTargetsRunning(s: System) {
    forall t :: t in s.recoverList ==> t in s.rows && s.rows[t].status == Running
  }

  lemma OrderedStep(s: System, step: Step)
    requires RecoverTargetsRunning(s) && (s.recoverList != {} ==> DuringRecovery(step))
    ensures RecoverTargetsRunning(Apply(s, step))
  {}

  lemma {:induction false} OrderedTargets(steps: seq<Step>)
    requires StartupOrdered(steps)
    ensures RecoverTargetsRunning(Exec(steps))
  {
    if steps == [] {
    } else {
      OrderedTargets(steps[..|steps| - 1]);
      OrderedStep(Exec(steps[..|steps| - 1]), steps[|steps| - 1]);
    }
  }

  /** With that startup order the exact terminal status of a task is final. */
  lemma {:induction false} StatusFinal(steps: seq<Step>, more: seq<Step>, t: string)
    requires StartupOrdered(steps + more)
    requires t in Exec(steps).rows && Terminal(Exec(steps).rows[t].status)
    ensures t in Exec(steps + more).rows && Exec(steps + more).rows[t].status == Exec(steps).rows[t].status
  {
    if more == [] {
      assert steps + more == steps;
    } else {
      var init := more[..|more| - 1];
      OrderedInit(steps, more);
      StatusFinal(steps, init, t);
      ExecSnoc(steps, more);
      OrderedFinalStep(Exec(steps + init), more[|more| - 1], t);
    }
  }

  lemma OrderedInit(steps: seq<Step>, more: seq<Step>)
    requires StartupOrdered(steps + more) && more != []
    ensures StartupOrdered(steps + more[..|more| - 1]) && RecoverTargetsRunning(Exec(steps + more[..|more| - 1]))
  {
    var all := steps + more;
    assert all[..|all| - 1] == steps + more[..|more| - 1];
    OrderedTargets(steps + more[..|more| - 1]);
  }

  lemma OrderedFinalStep(s: System, step: Step, t: string)
    requires RecoverTargetsRunning(s) && t in s.rows && Terminal(s.rows[t].status)
    ensures t in Apply(s, step).rows && Apply(s, step).rows[t].status == s.rows[t].status
  {
    TerminalStays(s, step, t);
    if step == RecoverUpdate(t) { RecoveryOverwritesIff(s, t); }
  }

  /** A result read, then the other coordinator's recovery query, then the transition. */
  lemma SettledWhileListed(s: System, t: string, req: nat, sub: Submission) returns (r: System)
    requires t in s.rows && s.rows[t].status == Running && Accepts(s, req, sub) && sub.task == t
    ensures r == Apply(Apply(Apply(s, ResultRead(req, sub)), RecoverRead), ResultSettle(req))
    ensures t in r.rows && r.rows[t].status == sub.status && t in r.recoverList && r.log == s.log
    ensures req in r.requests && r.requests[req] == Request(sub, Won)
  {
    var a := Apply(s, ResultRead(req, sub));
    var b := Apply(a, RecoverRead);
    assert Active(b, t) && t in b.recoverList;
    r := Apply(b, ResultSettle(req));
  }

  /** Without it, recovery of one coordinator can run between another coordinator's transition
      and its publication: the hub is told of a completion whose row reads failed. */
  lemma ConcurrentRecoveryOverwrites(s: System, t: string, req: nat, sub: Submission)
    requires t in s.rows && s.rows[t].status == Running && Accepts(s, req, sub) && sub.task == t
    ensures var settled := Apply(Apply(Apply(s, ResultRead(req, sub)), RecoverRead), ResultSettle(req));
            var end := Apply(Apply(settled, RecoverUpdate(t)), ResultPublish(req));
            && t in settled.rows && settled.rows[t].status == sub.status
            && t in end.rows && end.rows[t].status == Failed
            && end.log == s.log + [Published(t, req)]
  {
    var c := SettledWhileListed(s, t, req, sub);
    var d := Apply(c, RecoverUpdate(t));
    assert d.requests == c.requests && d.log == c.log;
  }

  // ----- ownership and leases -------------------------------------------------------

  ghost predicate OwnedAt(steps: seq<Step>, k: nat, sub: Submission) {
    k < |steps| && sub.task in Exec(steps[..k]).rows && Exec(steps[..k]).rows[sub.task].worker == sub.worker != ""
  }

  lemma RequestStep(s: System, step: Step, req: nat)
    requires req in Apply(s, step).requests
    ensures if req in s.requests then Apply(s, step).requests[req].sub == s.requests[req].sub
            else
              && step == ResultRead(req, Apply(s, step).requests[req].sub)
              && Accepts(s, req, Apply(s, step).requests[req].sub)
  {}

  /** In every interleaving each request was read from a worker that owned its task just then ... */
  lemma {:induction false} SubmitterOwnedAtRead(steps: seq<Step>, req: nat) returns (k: nat)
    requires req in Exec(steps).requests
    ensures OwnedAt(steps, k, Exec(steps).requests[req].sub)
    ensures steps[k] == ResultRead(req, Exec(steps).requests[req].sub)
  {
    var init := steps[..|steps| - 1];
    RequestStep(Exec(init), steps[|steps| - 1], req);
    if req in Exec(init).requests {
      k := SubmitterOwnedAtRead(init, req);
      assert init[..k] == steps[..k];
    } else {
      k := |steps| - 1;
    }
  }

  /** ... so whatever is announced about a task was decided by a worker that owned it at some time
      before, with the status that worker reported. */
  lemma AnnouncedByOwner(steps: seq<Step>, i: nat) returns (k: nat)
    requires i < |Exec(steps).log|
    ensures Exec(steps).log[i].req in Exec(steps).requests
    ensures var sub := Exec(steps).requests[Exec(steps).log[i].req].sub;
            && sub.task == Exec(steps).log[i].task && OwnedAt(steps, k, sub)
            && sub.task in Exec(steps).settledBy
            && Exec(steps).settledBy[sub.task] == BySubmission(Exec(steps).log[i].req)
  {
    AnnouncedBySettler(steps, i);
    ReachableInv(steps);
    assert Backed(Exec(steps), Exec(steps).log[i]);
    k := SubmitterOwnedAtRead(steps, Exec(steps).log[i].req);
  }

  /** But it may no longer own it when its transition settles the task. */
  lemma FormerOwnerMaySettle(s: System, t: string, other: string, req: nat, lease: nat)
    requires t in s.rows && s.rows[t].status == Running && s.rows[t].worker != "" && req !in s.requests
    requires other != s.rows[t].worker && Claimable(s.rows[t], s.now, other)
    ensures var sub := Submission(t, s.rows[t].worker, Completed, false);
            var taken := Apply(Apply(s, ResultRead(req, sub)), Claim(t, other, lease));
            var end := Apply(taken, ResultSettle(req));
            taken.rows[t].worker == other && end.rows[t].status == Completed && end.rows[t].worker == other
  {}

  /** While a lease is live nobody else can become the runner of the task. */
  lemma LiveLeaseIsExclusive(s: System, step: Step, t: string)
    requires t in s.rows && s.rows[t].status == Running && s.rows[t].lease.Some? && s.rows[t].lease.value >= s.now
    requires t in Apply(s, step).rows && Apply(s, step).rows[t].status == Running
    ensures Apply(s, step).rows[t].worker == s.rows[t].worker
  {}

  /** Nobody but w runs t before `until`: t is settled, or leased until then and run by w if at all. */
  ghost predicate Reserved(s: System, t: string, w: string, until: int) {
    t in s.rows && (Terminal(s.rows[t].status) ||
      (&& s.rows[t].lease.Some? && s.rows[t].lease.value >= until
       && (s.rows[t].status == Running ==> s.rows[t].worker == w)))
  }

  lemma ReservedStep(s: System, step: Step, t: string, w: string, until: int)
    requires Reserved(s, t, w, until) && s.now <= until && SubmissionsTerminal(s)
    requires step.Heartbeat? && step.task == t ==> s.now + step.lease >= until
    ensures Reserved(Apply(s, step), t, w, until)
  {
    if Terminal(s.rows[t].status) {
      TerminalStays(s, step, t);
    } else if Terminal(Apply(s, step).rows[t].status) {
    } else if step.Heartbeat? || step.Claim? || step.Release? {
    } else {
      assert Apply(s, step).rows[t] == s.rows[t];
    }
  }

  lemma {:induction false} TimeGoesOn(steps: seq<Step>, more: seq<Step>)
    ensures Exec(steps).now <= Exec(steps + more).now
  {
    if more == [] {
      assert steps + more == steps;
    } else {
      TimeGoesOn(steps, more[..|more| - 1]);
      ExecSnoc(steps, more);
      TimeStep(Exec(steps + more[..|more| - 1]), more[|more| - 1]);
    }
  }

  lemma TimeStep(s: System, step: Step)
    ensures s.now <= Apply(s, step).now
  {}

  ghost predicate BeatsReach(more: seq<Step>, t: string, lease: nat) {
    forall i :: 0 <= i < |more| && more[i].Heartbeat? && more[i].task == t ==> more[i].lease >= lease
  }

  lemma {:induction false} ReservedRun(steps: seq<Step>, more: seq<Step>, t: string, w: string, lease: nat)
    requires Reserved(Exec(steps), t, w, Exec(steps).now + lease) && BeatsReach(more, t, lease)
    requires Exec(steps + more).now <= Exec(steps).now + lease
    ensures Reserved(Exec(steps + more), t, w, Exec(steps).now + lease)
  {
    if more == [] {
      assert steps + more == steps;
    } else {
      var init, last := more[..|more| - 1], more[|more| - 1];
      ExecSnoc(steps, more);
      TimeGoesOn(steps, init);
      TimeStep(Exec(steps + init), last);
      ReservedRun(steps, init, t, w, lease);
      ReachableInv(steps + init);
      ReservedStep(Exec(steps + init), last, t, w, Exec(steps).now + lease);
    }
  }

  lemma ClaimReserves(steps: seq<Step>, t: string, w: string, lease: nat)
    requires t in Exec(steps).rows && Claimable(Exec(steps).rows[t], Exec(steps).now, w)
    ensures var s := Exec(steps + [Claim(t, w, lease)]);
            s.now == Exec(steps).now && Reserved(s, t, w, s.now + lease)
  {
    var all := steps + [Claim(t, w, lease)];
    assert all[..|all| - 1] == steps;
  }

  /** In every interleaving, from a claim until its lease has run out no other worker runs the
      task, even after a release, as long as heartbeats grant leases no shorter than the claim's. */
  lemma ClaimIsExclusive(steps: seq<Step>, t: string, w: string, lease: nat, more: seq<Step>)
    requires t in Exec(steps).rows && Claimable(Exec(steps).rows[t], Exec(steps).now, w) && BeatsReach(more, t, lease)
    requires Exec(steps + [Claim(t, w, lease)] + more).now <= Exec(steps).now + lease
    ensures Reserved(Exec(steps + [Claim(t, w, lease)] + more), t, w, Exec(steps).now + lease)
  {
    ClaimReserves(steps, t, w, lease);
    ReservedRun(steps + [Claim(t, w, lease)], more, t, w, lease);
  }

  lemma HeartbeatReserves(steps: seq<Step>, t: string, w: string, lease: nat)
    requires t in Exec(steps).rows && Exec(steps).rows[t].status == Running && Exec(steps).rows[t].worker == w
    ensures var s := Exec(steps + [Heartbeat(t, w, lease)]);
            s.now == Exec(steps).now && Reserved(s, t, w, s.now + lease)
  {
    var all := steps + [Heartbeat(t, w, lease)];
    assert all[..|all| - 1] == steps;
  }

  /** A heartbeat of the runner renews this from the time of the heartbeat on: as long as it beats in
      time, no other worker ever runs its task. */
  lemma HeartbeatIsExclusive(steps: seq<Step>, t: string, w: string, lease: nat, more: seq<Step>)
    requires t in Exec(steps).rows && Exec(steps).rows[t].status == Running && Exec(steps).rows[t].worker == w
    requires BeatsReach(more, t, lease)
    requires Exec(steps + [Heartbeat(t, w, lease)] + more).now <= Exec(steps).now + lease
    ensures Reserved(Exec(steps + [Heartbeat(t, w, lease)] + more), t, w, Exec(steps).now + lease)
  {
    HeartbeatReserves(steps, t, w, lease);
    ReservedRun(steps + [Heartbeat(t, w, lease)], more, t, w, lease);
  }

  /** What a claim does to its row: it takes a pending or running row whose lease is absent or over,
      unless the claimant is running it already. */
  lemma ClaimOutcome(s: System, t: string, w: string, lease: nat)
    requires t in s.rows
    ensures var a, b := s.rows[t], Apply(s, Claim(t, w, lease)).rows[t];
            if && (a.status == Pending || (a.status == Running && a.worker != w))
               && (a.lease.None? || a.lease.value < s.now)
            then b == Row(Running, w, Some(s.now + lease), Some(s.now), a.created)
            else b == a
  {}

  /** A new task is pending, unowned and open to every worker at once; an existing one is left alone. */
  lemma InsertedIsClaimable(s: System, t: string, w: string, lease: nat)
    ensures t in s.rows ==> Apply(s, Insert(t)) == s
    ensures t !in s.rows ==>
      var r := Apply(s, Insert(t));
      && t in r.rows && r.rows[t].status == Pending && r.rows[t].worker == "" && r.rows[t].created == s.now
      && Apply(r, Claim(t, w, lease)).rows[t].worker == w && Apply(r, Claim(t, w, lease)).rows[t].status == Running
  {}

  /** Deregistering a repository fails its pending and running tasks and nothing else. */
  lemma DeregisterFails(s: System, tasks: set<string>, t: string)
    requires t in s.rows
    ensures var r := Apply(s, Deregister(tasks));
            var active := s.rows[t].status == Pending || s.rows[t].status == Running;
            t in r.rows && r.rows[t] == if t in tasks && active then s.rows[t].(status := Failed) else s.rows[t]
  {}

  /** A reaper without a grace does nothing. */
  lemma ZeroGraceRefused(s: System)
    ensures Apply(s, ReapSelect(0)) == s
  {}

  /** The last sign of life of a row: its heartbeat, or else its creation. */
  function LastSign(r: Row): int {
    match r.heartbeat case Some(at) => at case None => r.created
  }

  /** Stale is running without a sign of life for longer than the grace. */
  lemma StaleMeans(r: Row, now: int, grace: nat)
    ensures Stale(r, now, grace) <==> r.status == Running && now - LastSign(r) > grace
  {}

  lemma LostStays(steps: seq<Step>, more: seq<Step>, req: nat)
    requires req in Exec(steps).requests && Exec(steps).requests[req].phase == Lost
    ensures req in Exec(steps + more).requests && Exec(steps + more).requests[req].phase == Lost
  {
    PhaseOverRun(steps, more, req);
    RunFromLost(more, req);
  }

  lemma {:induction false} RunFromLost(more: seq<Step>, req: nat)
    ensures PhaseRun(Lost, more, req) == Lost
  {
    if more == [] {
    } else {
      RunFromLost(more[..|more| - 1], req);
    }
  }

  /** A crash ends a submission that has been read but has not settled its task: it never settles it. */
  lemma CrashEndsReading(steps: seq<Step>, more: seq<Step>, req: nat)
    requires req in Exec(steps).requests && Exec(steps).requests[req].phase == Read
    ensures var s := Exec(steps + [Restart] + more); req in s.requests && s.requests[req].phase == Lost
  {
    var all := steps + [Restart];
    assert all[..|all| - 1] == steps;
    LostStays(all, more, req);
  }

  /** The transition writes the submitted status, and only into a pending or running row. */
  lemma TransitionWrites(s: System, req: nat)
    requires req in s.requests && s.requests[req].phase == Read && s.requests[req].sub.task in s.rows
    ensures var sub, r := s.requests[req].sub, Apply(s, ResultSettle(req)); var a := s.rows[sub.task];
            if a.status == Pending || a.status == Running
            then r.rows[sub.task] == a.(status := sub.status) && r.requests[req].phase == Won
            else r.rows[sub.task] == a && r.requests[req].phase == Lost
  {}

  /** Releasing clears the owner and not the lease: the task is back in the pool only once the
      lease it was claimed or last heartbeaten with has run out. */
  lemma ReleasedClaimableIff(s: System, t: string, other: string, d: nat)
    requires t in s.rows && s.rows[t].status == Running
    ensures var after := Apply(Apply(s, Release(t, s.rows[t].worker)), Tick(d));
            && after.rows[t].status == Pending && after.rows[t].worker == ""
            && (Claimable(after.rows[t], after.now, other) <==>
                  s.rows[t].lease.None? || s.rows[t].lease.value < s.now + d)
  {}

  /** The reaper's update re-checks the status and not the staleness: a heartbeat, or a claim by
      another worker, that arrives after its query does not save the row. */
  lemma FreshRunnerStillReaped(s: System, t: string, grace: nat, other: string, lease: nat)
    requires t in s.rows && grace > 0 && Stale(s.rows[t], s.now, grace)
    ensures var listed := Apply(s, ReapSelect(grace));
            var beaten := Apply(listed, Heartbeat(t, s.rows[t].worker, lease));
            var taken := Apply(listed, Claim(t, other, lease));
            && !Stale(beaten.rows[t], beaten.now, grace) && Apply(beaten, ReapUpdate(t)).rows[t].status == Failed
            && (Claimable(s.rows[t], s.now, other) ==>
                  && !Stale(taken.rows[t], taken.now, grace) && taken.rows[t].worker == other
                  && Apply(taken, ReapUpdate(t)).rows[t].status == Failed)
  {
    assert t in Apply(s, ReapSelect(grace)).reapList;
  }

  /** The step renews t's heartbeat. */
  predicate Beats(s: System, step: Step, t: string) {
    && t in s.rows
    && ((step.Heartbeat? && step.task == t && s.rows[t].status == Running && s.rows[t].worker == step.worker)
        || (step.Claim? && step.task == t && Claimable(s.rows[t], s.now, step.worker)))
  }

  /** When t's heartbeat was last renewed during `mid`, if at all. */
  function LastBeat(steps: seq<Step>, mid: seq<Step>, t: string): Option<int> {
    if mid == [] then None
    else
      var init, last := mid[..|mid| - 1], mid[|mid| - 1];
      if Beats(Exec(steps + init), last, t) then Some(Exec(steps + init).now) else LastBeat(steps, init, t)
  }

  lemma BeatStep(s: System, step: Step, t: string)
    requires t in s.rows
    ensures t in Apply(s, step).rows && Apply(s, step).rows[t].created == s.rows[t].created
    ensures Apply(s, step).rows[t].heartbeat == if Beats(s, step, t) then Some(s.now) else s.rows[t].heartbeat
  {}

  lemma {:induction false} HeartbeatIsLast(steps: seq<Step>, mid: seq<Step>, t: string)
    requires t in Exec(steps).rows
    ensures var a, r := Exec(steps), Exec(steps + mid);
            && t in r.rows && r.rows[t].created == a.rows[t].created
            && r.rows[t].heartbeat == (if LastBeat(steps, mid, t).Some? then LastBeat(steps, mid, t)
                                       else a.rows[t].heartbeat)
  {
    if mid == [] {
      assert steps + mid == steps;
    } else {
      var init := mid[..|mid| - 1];
      HeartbeatIsLast(steps, init, t);
      ExecSnoc(steps, mid);
      BeatStep(Exec(steps + init), mid[|mid| - 1], t);
    }
  }

  /** Nothing but heartbeats, claims and other tasks' business happens to the reaper's list. */
  ghost predicate PassGoesOn(mid: seq<Step>, t: string) {
    forall i :: 0 <= i < |mid| ==>
      mid[i] != ReapUpdate(t) && !mid[i].ReapSelect? && !mid[i].ReapAbort? && !mid[i].Restart?
  }

  lemma {:induction false} ListedStays(steps: seq<Step>, mid: seq<Step>, t: string)
    requires t in Exec(steps).reapList && PassGoesOn(mid, t)
    ensures t in Exec(steps + mid).reapList
  {
    if mid == [] {
      assert steps + mid == steps;
    } else {
      ListedStays(steps, mid[..|mid| - 1], t);
      ExecSnoc(steps, mid);
      ListedStep(Exec(steps + mid[..|mid| - 1]), mid[|mid| - 1], t);
    }
  }

  lemma ListedStep(s: System, step: Step, t: string)
    requires t in s.reapList && PassGoesOn([step], t)
    ensures t in Apply(s, step).reapList
  {
    assert [step][0] == step;
  }

  /** In every interleaving a listed row that is running when its turn comes is failed; it is stale
      then exactly unless a heartbeat or a claim renewed it within the grace since the query. */
  lemma ReapedStaleIff(steps: seq<Step>, grace: nat, mid: seq<Step>, t: string)
    requires t in Exec(steps).rows && grace > 0 && Stale(Exec(steps).rows[t], Exec(steps).now, grace)
    requires PassGoesOn(mid, t)
    requires t in Exec(steps + [ReapSelect(grace)] + mid).rows
    requires Exec(steps + [ReapSelect(grace)] + mid).rows[t].status == Running
    ensures var r := Exec(steps + [ReapSelect(grace)] + mid);
            var beat := LastBeat(steps + [ReapSelect(grace)], mid, t);
            && Apply(r, ReapUpdate(t)).rows[t] == r.rows[t].(status := Failed, worker := "", lease := None)
            && (Stale(r.rows[t], r.now, grace) <==> beat.None? || beat.value < r.now - grace)
  {
    var listed := steps + [ReapSelect(grace)];
    SelectLists(steps, grace, t);
    ListedStays(listed, mid, t);
    HeartbeatIsLast(listed, mid, t);
    TimeGoesOn(listed, mid);
    var a, r := Exec(steps), Exec(listed + mid);
    StaleUnlessBeaten(a.rows[t], r.rows[t], LastBeat(listed, mid, t), a.now, r.now, grace);
  }

  lemma SelectLists(steps: seq<Step>, grace: nat, t: string)
    requires t in Exec(steps).rows && grace > 0 && Stale(Exec(steps).rows[t], Exec(steps).now, grace)
    ensures var s := Exec(steps + [ReapSelect(grace)]);
            t in s.reapList && s.rows == Exec(steps).rows && s.now == Exec(steps).now
  {
    var listed := steps + [ReapSelect(grace)];
    assert listed[..|listed| - 1] == steps;
  }

  lemma StaleUnlessBeaten(before: Row, after: Row, beat: Option<int>, start: int, now: int, grace: nat)
    requires Stale(before, start, grace) && start <= now && after.status == Running && after.created == before.created
    requires after.heartbeat == if beat.Some? then beat else before.heartbeat
    ensures Stale(after, now, grace) <==> beat.None? || beat.value < now - grace
  {}

  // ----- the handlers as the coordinator runs them ------------------------------------

  datatype Reply = Ok | NotFound | BadRequest | Conflict | InternalError

  datatype RegistryAnswer = Known | Unknown | Broken

  class Coordinator {
    var now: int
    var rows: Rows
    var requests: map<nat, Request>
    var reapList: set<string>
    var recoverList: set<string>
    var log: seq<Event>
    ghost var settledBy: map<string, Settler>

    ghost function State(): System
      reads this
    {
      System(now, rows, requests, reapList, recoverList, log, settledBy)
    }

    constructor ()
      ensures State() == INITIAL
    {
      now, rows, requests, reapList, recoverList, log, settledBy := 0, map[], map[], {}, {}, [], map[];
    }

    /** The part of HandleTaskResult up to its transition; `status` is absent when the submitted
        status is not one of the three terminal ones. */
    method HandleTaskResultRead(req: nat, task: string, worker: string, status: Option<Status>, infra: bool)
      returns (reply: Reply)
      requires req !in requests && (status.Some? ==> Terminal(status.value))
      modifies this
      ensures status.Some? ==>
        State() == Apply(old(State()), ResultRead(req, Submission(task, worker, status.value, infra)))
      ensures status.None? ==> State() == old(State())
      ensures reply == Ok <==> req in requests
      ensures reply == NotFound <==> task !in rows
    {
      if task !in rows {
        return NotFound;
      }
      if worker == "" || rows[task].worker != worker {
        return BadRequest;
      }
      if status.None? {
        return BadRequest;
      }
      requests := requests[req := Request(Submission(task, worker, status.value, infra), Read)];
      return Ok;
    }

    method HandleTaskResultSettle(req: nat) returns (reply: Reply)
      requires req in requests && requests[req].phase == Read
      modifies this
      ensures State() == Apply(old(State()), ResultSettle(req))
      ensures reply == Ok <==> old(Active(State(), requests[req].sub.task))
      ensures reply == Ok <==> requests[req].phase == Won
    {
      var sub := requests[req].sub;
      if sub.task in rows && (rows[sub.task].status == Pending || rows[sub.task].status == Running) {
        settledBy := if sub.task in settledBy then settledBy else settledBy[sub.task := BySubmission(req)];
        rows := rows[sub.task := rows[sub.task].(status := sub.status)];
        requests := requests[req := requests[req].(phase := Won)];
        return Ok;
      }
      requests := requests[req := requests[req].(phase := Lost)];
      return Conflict;
    }

    method HandleTaskResultPublish(req: nat)
      requires req in requests && requests[req].phase == Won
      modifies this
      ensures State() == Apply(old(State()), ResultPublish(req))
    {
      log := log + [Published(requests[req].sub.task, req)];
      requests := requests[req := requests[req].(phase := Told)];
    }

    method HandleTaskResultSignal(req: nat)
      requires req in requests && requests[req].phase == Told
      modifies this
      ensures State() == Apply(old(State()), ResultSignal(req))
    {
      var sub := requests[req].sub;
      if sub.infra {
        log := log + [InfraLogged(sub.task, req)];
      } else {
        log := log + [Signalled(sub.task, req)];
      }
      requests := requests[req := requests[req].(phase := Done)];
    }

    /** `landed` is whether the row update goes through, which is only logged if not; `registry` is what
        the worker registry answers to its own heartbeat. */
    method HandleTaskHeartbeat(task: string, worker: string, lease: nat, landed: bool, registry: RegistryAnswer)
      returns (reply: Reply)
      modifies this
      ensures State() == (if worker != "" && landed then Apply(old(State()), Heartbeat(task, worker, lease))
                          else old(State()))
      ensures reply == Ok <==> worker != "" && task in rows && rows[task].worker == worker && registry == Known
      ensures reply == NotFound <==> worker != "" && task !in rows
      ensures reply == InternalError <==>
        worker != "" && task in rows && rows[task].worker == worker && registry == Broken
    {
      if worker == "" {
        return BadRequest;
      }
      if task !in rows {
        return NotFound;
      }
      if rows[task].worker != worker {
        return BadRequest;
      }
      if landed && rows[task].status == Running {
        rows := rows[task := rows[task].(heartbeat := Some(now), lease := Some(now + lease))];
      }
      match registry {
        case Known => return Ok;
        case Unknown => return BadRequest;
        case Broken => return InternalError;
      }
    }

    method HandleTaskRelease(task: string, worker: string) returns (reply: Reply)
      modifies this
      ensures worker != "" ==> State() == Apply(old(State()), Release(task, worker))
      ensures worker == "" ==> State() == old(State()) && reply == BadRequest
      ensures reply == Ok <==>
        && worker != "" && task in old(rows)
        && old(rows)[task].status == Running && old(rows)[task].worker == worker
    {
      if worker == "" {
        return BadRequest;
      }
      if task in rows && rows[task].status == Running && rows[task].worker == worker {
        rows := rows[task := rows[task].(status := Pending, worker := "")];
        return Ok;
      }
      return Conflict;
    }

    /** `queue` is what the role, repository and runtime filters leave, oldest first. */
    method ClaimNextTask(worker: string, queue: seq<string>, lease: nat) returns (task: Option<string>)
      modifies this
      ensures task.Some? ==> State() == Apply(old(State()), Claim(task.value, worker, lease))
      ensures task.Some? ==> task.value in old(rows) && Claimable(old(rows)[task.value], now, worker)
      ensures task.Some? ==> exists i ::
        0 <= i < |queue| && queue[i] == task.value && NoneClaimable(old(rows), now, worker, queue[..i])
      ensures task.None? ==> State() == old(State())
      ensures task.None? ==> NoneClaimable(rows, now, worker, queue)
    {
      var i := 0;
      while i < |queue|
        invariant 0 <= i <= |queue| && State() == old(State())
        invariant NoneClaimable(rows, now, worker, queue[..i])
      {
        if queue[i] in rows && Claimable(rows[queue[i]], now, worker) {
          rows := rows[queue[i] := Claimed(rows[queue[i]], now, worker, lease)];
          return Some(queue[i]);
        }
        i := i + 1;
      }
      assert queue[..i] == queue;
      return None;
    }

    method ReapOne(t: string) returns (updated: bool)
      modifies this
      ensures State() == Apply(old(State()), ReapUpdate(t))
      ensures updated <==> t in old(reapList) && t in old(rows) && old(rows)[t].status == Running
    {
      updated := t in reapList && t in rows && rows[t].status == Running;
      if updated {
        settledBy := if t in settledBy then settledBy else settledBy[t := ByReaper];
        rows := rows[t := Reaped(rows[t])];
      }
      reapList := reapList - {t};
    }

    /** One reaper pass; `candidates` is the SELECT's result. The update of candidate `stop`, if
        there is one, ends the pass with an error: it may have landed, when a busy database made the
        store try twice, or not. */
    method RunOnce(grace: nat, candidates: seq<string>, stop: nat, landed: bool) returns (reported: seq<string>)
      requires grace > 0 && forall t :: t in candidates <==> t in rows && Stale(rows[t], now, grace)
      modifies this
      ensures var done := if landed then stop + 1 else stop;
              State() == if stop < |candidates|
                         then Apply(ReaperPass(old(State()), grace, candidates[..done]), ReapAbort)
                         else ReaperPass(old(State()), grace, candidates)
      ensures if stop < |candidates| then reported == [] else forall t :: t in reported <==> t in candidates
    {
      SelectStale(grace, candidates);
      if stop < |candidates| {
        var _ := ReapEach(candidates[..if landed then stop + 1 else stop]);
        Abort();
        return [];
      }
      reported := ReapEach(candidates);
    }

    method SelectStale(grace: nat, candidates: seq<string>)
      requires grace > 0 && forall t :: t in candidates <==> t in rows && Stale(rows[t], now, grace)
      modifies this
      ensures State() == Apply(old(State()), ReapSelect(grace))
      ensures forall t :: t in reapList ==> t in rows && rows[t].status == Running
      ensures forall i :: 0 <= i < |candidates| ==> candidates[i] in reapList
    {
      reapList := set t | t in candidates;
      assert reapList == set t | t in rows && Stale(rows[t], now, grace);
    }

    method Abort()
      modifies this
      ensures State() == Apply(old(State()), ReapAbort)
    {
      reapList := {};
    }

    /** The update loop over rows the reaper has just listed. */
    method ReapEach(candidates: seq<string>) returns (reaped: seq<string>)
      requires forall t :: t in reapList ==> t in rows && rows[t].status == Running
      requires forall i :: 0 <= i < |candidates| ==> candidates[i] in reapList
      modifies this
      ensures State() == ReapAll(old(State()), candidates)
      ensures forall t :: t in reaped <==> t in candidates
    {
      reaped := [];
      var i := 0;
      while i < |candidates|
        invariant 0 <= i <= |candidates| && ReapedSoFar(old(State()), State(), reaped, candidates[..i])
      {
        ReapNext(old(State()), State(), reaped, candidates, i);
        var updated := ReapOne(candidates[i]);
        if updated {
          reaped := reaped + [candidates[i]];
        }
        i := i + 1;
      }
      assert candidates[..|candidates|] == candidates;
    }

    method RecoverOne(t: string)
      modifies this
      ensures State() == Apply(old(State()), RecoverUpdate(t))
    {
      if t in recoverList && t in rows {
        settledBy := if t in settledBy then settledBy else settledBy[t := ByRecovery];
        rows := rows[t := rows[t].(status := Failed)];
      }
      recoverList := recoverList - {t};
    }

    /** RecoverTasks on startup; `running` is the query's result and `broken` the tasks whose update
        fails, which is logged and passed over. */
    method RecoverTasks(running: seq<string>, broken: set<string>)
      requires forall t :: t in running <==> t in rows && rows[t].status == Running
      modifies this
      ensures State() == RecoveryPass(old(State()), running, broken)
    {
      recoverList := set t | t in running;
      assert recoverList == set t | t in rows && rows[t].status == Running;
      ghost var listed := State();
      var i := 0;
      while i < |running|
        invariant 0 <= i <= |running|
        invariant State() == RecoverAll(listed, running[..i], broken)
      {
        assert running[..i + 1][..i] == running[..i];
        if running[i] in broken {
          recoverList := recoverList - {running[i]};
        } else {
          RecoverOne(running[i]);
        }
        i := i + 1;
      }
      assert running[..|running|] == running;
    }
  }

  // ----- a whole pass as a sequence of steps ------------------------------------------

  function ReapAll(s: System, ts: seq<string>): System {
    if ts == [] then s else Apply(ReapAll(s, ts[..|ts| - 1]), ReapUpdate(ts[|ts| - 1]))
  }

  function ReaperPass(s: System, grace: nat, candidates: seq<string>): System {
    ReapAll(Apply(s, ReapSelect(grace)), candidates)
  }

  /** What ReapEach has done once the tasks in `prefix` had their turn. */
  ghost predicate ReapedSoFar(before: System, s: System, reaped: seq<string>, prefix: seq<string>) {
    && s == ReapAll(before, prefix)
    && (forall t :: t in reaped <==> t in prefix)
    && (forall t :: t in s.reapList <==> t in before.reapList && t !in prefix)
    && (forall t :: t in s.reapList ==> t in s.rows && s.rows[t].status == Running)
  }

  lemma ReapNext(before: System, s: System, reaped: seq<string>, candidates: seq<string>, i: nat)
    requires i < |candidates| && candidates[i] in before.reapList && ReapedSoFar(before, s, reaped, candidates[..i])
    ensures var t := candidates[i];
            var updated := t in s.reapList && t in s.rows && s.rows[t].status == Running;
            ReapedSoFar(before, Apply(s, ReapUpdate(t)), if updated then reaped + [t] else reaped, candidates[..i + 1])
  {
    assert candidates[..i + 1] == candidates[..i] + [candidates[i]] && candidates[..i + 1][..i] == candidates[..i];
  }

  function RecoverAll(s: System, ts: seq<string>, broken: set<string>): System {
    if ts == [] then s
    else
      var last := ts[|ts| - 1];
      Apply(RecoverAll(s, ts[..|ts| - 1], broken), if last in broken then RecoverSkip(last) else RecoverUpdate(last))
  }

  function RecoveryPass(s: System, running: seq<string>, broken: set<string>): System {
    RecoverAll(Apply(s, RecoverRead), running, broken)
  }

  lemma {:induction false} RecoverAllEffect(s: System, ts: seq<string>, broken: set<string>)
    requires forall t :: t in ts ==> t in s.recoverList && t in s.rows
    ensures var r := RecoverAll(s, ts, broken);
            && r.rows.Keys == s.rows.Keys && r.log == s.log && r.requests == s.requests
            && (forall t :: t in r.recoverList <==> t in s.recoverList && t !in ts)
            && forall t :: t in s.rows ==>
              r.rows[t] == if t in ts && t !in broken then s.rows[t].(status := Failed) else s.rows[t]
  {
    if ts == [] {
    } else {
      var init, last := ts[..|ts| - 1], ts[|ts| - 1];
      assert ts == init + [last];
      RecoverAllEffect(s, init, broken);
      RecoverTurn(RecoverAll(s, init, broken), last, last in broken);
    }
  }

  lemma RecoverTurn(s: System, t: string, skip: bool)
    requires t in s.rows && (t !in s.recoverList && !skip ==> s.rows[t].status == Failed)
    ensures var r := Apply(s, if skip then RecoverSkip(t) else RecoverUpdate(t));
            && r.rows == (if skip then s.rows else s.rows[t := s.rows[t].(status := Failed)])
            && r.log == s.log && r.requests == s.requests && r.recoverList == s.recoverList - {t}
  {
    assert s.rows == s.rows[t := s.rows[t]];
  }

  /** Run alone, recovery fails exactly the running rows whose update goes through, announces
      nothing and leaves no row listed for a later update. */
  lemma RecoveryFailsRunning(s: System, running: seq<string>, broken: set<string>)
    requires forall t :: t in running <==> t in s.rows && s.rows[t].status == Running
    ensures var r := RecoveryPass(s, running, broken);
            && r.rows.Keys == s.rows.Keys && r.log == s.log && r.requests == s.requests && r.recoverList == {}
            && forall t :: t in s.rows ==>
                 r.rows[t] == (if s.rows[t].status == Running && t !in broken then s.rows[t].(status := Failed)
                               else s.rows[t])
  {
    RecoverAllEffect(Apply(s, RecoverRead), running, broken);
  }

  lemma {:induction false} ReapAllEffect(s: System, ts: seq<string>)
    requires forall t :: t in ts ==> t in s.reapList && t in s.rows
    requires forall i, j :: 0 <= i < j < |ts| ==> ts[i] != ts[j]
    ensures var r := ReapAll(s, ts);
            && r.rows.Keys == s.rows.Keys && r.log == s.log && r.requests == s.requests
            && (forall t :: t in s.reapList && t !in ts ==> t in r.reapList)
            && forall t :: t in s.rows ==>
              r.rows[t] == if t in ts && s.rows[t].status == Running then Reaped(s.rows[t]) else s.rows[t]
  {
    if ts == [] {
    } else {
      var init, last := ts[..|ts| - 1], ts[|ts| - 1];
      assert ts == init + [last];
      ReapAllEffect(s, init);
      assert last !in init && last in ts;
      ReapTurn(ReapAll(s, init), last);
    }
  }

  lemma ReapTurn(s: System, t: string)
    requires t in s.reapList && t in s.rows
    ensures var r := Apply(s, ReapUpdate(t));
            && r.rows == s.rows[t := if s.rows[t].status == Running then Reaped(s.rows[t]) else s.rows[t]]
            && r.log == s.log && r.requests == s.requests && r.reapList == s.reapList - {t}
  {
    assert s.rows == s.rows[t := s.rows[t]];
  }

  /** Run alone, a reaper pass fails exactly the stale rows and announces nothing. */
  lemma ReaperFailsStale(s: System, grace: nat, candidates: seq<string>)
    requires grace > 0 && forall t :: t in candidates <==> t in s.rows && Stale(s.rows[t], s.now, grace)
    requires forall i, j :: 0 <= i < j < |candidates| ==> candidates[i] != candidates[j]
    ensures var r := ReaperPass(s, grace, candidates);
            && r.rows.Keys == s.rows.Keys && r.log == s.log && r.requests == s.requests
            && forall t :: t in s.rows ==>
              r.rows[t] == (if Stale(s.rows[t], s.now, grace)
                            then s.rows[t].(status := Failed, worker := "", lease := None) else s.rows[t])
  {
    ReapAllEffect(Apply(s, ReapSelect(grace)), candidates);
  }
}
