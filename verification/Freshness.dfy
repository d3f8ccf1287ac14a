/** The poll cycle together with the resolver: what the gate holds when an event is forwarded. */
module Freshness {
  import opened Text
  import opened Verdict
  import opened Resolver
  import opened Dispatch
  import PollCycle

  /** An event, and the evaluation that takes place if it makes the manager run maintenance. */
  datatype Input = Input(ev: PollCycle.Event, evaluation: Evaluation)

  /** The manager, and the rows stored for one repository. */
  datatype Joint = Joint(m: PollCycle.Manager, rows: map<int, Row>)

  predicate Maintains(m: PollCycle.Manager, repo: string, ev: PollCycle.Event) {
    ev.repo == repo && repo in m.runtimes && !m.runtimes[repo].resolved && (ev.CycleDone? || ev.allowed)
  }

  /** The evaluation as maintenance calls it: with the graph version it has just raised. */
  function Called(m: PollCycle.Manager, repo: string, e: Evaluation): Evaluation
    requires repo in m.runtimes
  {
    e.(version := m.runtimes[repo].version + 1)
  }

  ghost function Next(j: Joint, repo: string, i: Input): Joint {
    Joint(PollCycle.Handle(j.m, i.ev),
          if Maintains(j.m, repo, i.ev) then NextRows(j.rows, Called(j.m, repo, i.evaluation)) else j.rows)
  }

  ghost function Run(j: Joint, repo: string, ins: seq<Input>): Joint {
    if ins == [] then j else Next(Run(j, repo, ins[..|ins| - 1]), repo, ins[|ins| - 1])
  }

  /** The last evaluation maintenance ran for the repository. */
  ghost function Latest(j: Joint, repo: string, ins: seq<Input>): Option<Evaluation> {
    if ins == [] then None
    else
      var before, i := Run(j, repo, ins[..|ins| - 1]), ins[|ins| - 1];
      if Maintains(before.m, repo, i.ev) then Some(Called(before.m, repo, i.evaluation))
      else Latest(j, repo, ins[..|ins| - 1])
  }

  function Events(ins: seq<Input>): (evs: seq<PollCycle.Event>)
    ensures |evs| == |ins| && forall k :: 0 <= k < |ins| ==> evs[k] == ins[k].ev
  {
    seq(|ins|, k requires 0 <= k < |ins| => ins[k].ev)
  }

  lemma {:induction false} RunHandles(j: Joint, repo: string, ins: seq<Input>)
    ensures Run(j, repo, ins).m == PollCycle.HandleAll(j.m, Events(ins))
  {
    if ins == [] {
    } else {
      RunHandles(j, repo, ins[..|ins| - 1]);
      assert Events(ins)[..|ins| - 1] == Events(ins[..|ins| - 1]);
    }
  }

  /** The stored rows are those of a completed evaluation e: the gate says what e decided. */
  ghost predicate GateShows(rows: map<int, Row>, e: Evaluation) {
    forall n :: n in e.w.open ==>
      && (IsBlocked(Some(rows), true, n).blocked <==> IsGated(NewVerdict(e.w, n)))
      && (n in rows ==> rows[n].version == e.version)
  }

  lemma EvaluationShows(rows: map<int, Row>, e: Evaluation)
    requires Completed(e)
    ensures GateShows(NextRows(rows, e), e)
  {
    var after := NextRows(rows, e);
    forall n | n in e.w.open
      ensures IsBlocked(Some(after), true, n).blocked <==> IsGated(NewVerdict(e.w, n))
      ensures n in after ==> after[n].version == e.version
    {
      GateFollowsVerdict(e.w, e.version, rows, n);
      RowIsNew(rows, Verdicts(e.w, e.version), Blocks(e.w), e.w.open.Keys, n);
    }
  }

  lemma RowIsNew(rows: map<int, Row>, news: map<int, Row>, blocks: set<int>, done: set<int>, n: int)
    requires n in news && n in done
    ensures n in Merge(rows, news, blocks, done) ==> Merge(rows, news, blocks, done)[n] == news[n]
  {}

  /** Between maintenance runs the gate shows the latest one, if that was completed. */
  ghost predicate UpToDate(j: Joint, repo: string, latest: Option<Evaluation>) {
    && repo in j.m.runtimes
    && (j.m.runtimes[repo].resolved ==> latest.Some?)
    && (latest.Some? ==> latest.value.version == j.m.runtimes[repo].version)
    && (latest.Some? && Completed(latest.value) ==> GateShows(j.rows, latest.value))
  }

  lemma HandleFields(m: PollCycle.Manager, repo: string, ev: PollCycle.Event)
    requires repo in m.runtimes
    ensures var r := PollCycle.Handle(m, ev);
            && repo in r.runtimes
            && r.runtimes[repo].version == m.runtimes[repo].version + (if Maintains(m, repo, ev) then 1 else 0)
            && (r.runtimes[repo].resolved ==> m.runtimes[repo].resolved || Maintains(m, repo, ev))
  {}

  lemma {:induction false} RunUpToDate(j: Joint, repo: string, ins: seq<Input>)
    requires repo in j.m.runtimes && !j.m.runtimes[repo].resolved
    ensures UpToDate(Run(j, repo, ins), repo, Latest(j, repo, ins))
  {
    if ins == [] {
    } else {
      var before, i := Run(j, repo, ins[..|ins| - 1]), ins[|ins| - 1];
      RunUpToDate(j, repo, ins[..|ins| - 1]);
      HandleFields(before.m, repo, i.ev);
      if Maintains(before.m, repo, i.ev) && Completed(Called(before.m, repo, i.evaluation)) {
        EvaluationShows(before.rows, Called(before.m, repo, i.evaluation));
      }
    }
  }

  /** For every interleaving of events: when an event has been forwarded, the latest maintenance is
      the one of that event's own cycle, and if it was completed the gate answers for every issue it
      saw open as it decided, from rows stored at that cycle's graph version. */
  lemma ForwardedEventsAreGatedFresh(j: Joint, repo: string, ins: seq<Input>)
    requires repo in j.m.runtimes && j.m.runtimes[repo] == PollCycle.Cycle(false, 0) && j.m.trace == []
    requires ins != [] && ins[|ins| - 1].ev.Change? && ins[|ins| - 1].ev.repo == repo && ins[|ins| - 1].ev.allowed
    ensures Latest(j, repo, ins).Some?
    ensures var e := Latest(j, repo, ins).value;
            && e.version == |PollCycle.CyclesOf(Events(ins), repo).finished| + 1
            && (Completed(e) ==> GateShows(Run(j, repo, ins).rows, e))
  {
    RunUpToDate(j, repo, ins);
    RunHandles(j, repo, ins);
    PollCycle.OneMaintenancePerCycle(j.m, Events(ins), repo);
    CurrentNotEmpty(Events(ins), repo);
  }

  lemma CurrentNotEmpty(evs: seq<PollCycle.Event>, repo: string)
    requires evs != [] && evs[|evs| - 1].Change? && evs[|evs| - 1].repo == repo && evs[|evs| - 1].allowed
    ensures PollCycle.CyclesOf(evs, repo).current != []
  {}
}
