/** PollerManager.handleEvent: dependency maintenance once per poll cycle, for every repository
    whose events share the manager's channel. */
module PollCycle {

  /** `allowed` is what AllowSecurityEvent answers for a change. */
  datatype Event = CycleDone(repo: string) | Change(repo: string, id: int, allowed: bool)

  datatype Act = Maintain(version: int) | Forward(id: int) | ResetDedup

  /** The two cycle fields of a RepoRuntime. */
  datatype Cycle = Cycle(resolved: bool, version: int)

  datatype Entry = Entry(repo: string, act: Act)

  datatype Manager = Manager(runtimes: map<string, Cycle>, trace: seq<Entry>)

  function Note(m: Manager, repo: string, act: Act): Manager {
    m.(trace := m.trace + [Entry(repo, act)])
  }

  /** runDependencyMaintenance raises the graph version whether or not the resolver succeeds. */
  function RunMaintenance(m: Manager, repo: string): Manager
    requires repo in m.runtimes
  {
    var v := m.runtimes[repo].version + 1;
    Note(m.(runtimes := m.runtimes[repo := m.runtimes[repo].(version := v)]), repo, Maintain(v))
  }

  function Resolve(m: Manager, repo: string): Manager
    requires repo in m.runtimes
  {
    if m.runtimes[repo].resolved then m else RunMaintenance(m, repo)
  }

  function SetResolved(m: Manager, repo: string, resolved: bool): Manager
    requires repo in m.runtimes
  {
    m.(runtimes := m.runtimes[repo := m.runtimes[repo].(resolved := resolved)])
  }

  function Handle(m: Manager, ev: Event): Manager {
    if ev.repo !in m.runtimes then m
    else match ev
         case CycleDone(repo) => Note(SetResolved(Resolve(m, repo), repo, false), repo, ResetDedup)
         case Change(repo, id, allowed) =>
           if !allowed then m else Note(SetResolved(Resolve(m, repo), repo, true), repo, Forward(id))
  }

  function HandleAll(m: Manager, evs: seq<Event>): Manager {
    if evs == [] then m else Handle(HandleAll(m, evs[..|evs| - 1]), evs[|evs| - 1])
  }

  // ----- reference: what each repository should see ----------------------------------

  /** The cycles of one repository: what each finished cycle and the current one forwarded. */
  datatype Cycles = Cycles(finished: seq<seq<int>>, current: seq<int>)

  function CyclesOf(evs: seq<Event>, repo: string): Cycles {
    if evs == [] then Cycles([], [])
    else
      var before := CyclesOf(evs[..|evs| - 1], repo);
      match evs[|evs| - 1]
      case CycleDone(r) => if r == repo then Cycles(before.finished + [before.current], []) else before
      case Change(r, id, allowed) => if r == repo && allowed then before.(current := before.current + [id]) else before
  }

  function Forwards(ids: seq<int>): seq<Act> {
    if ids == [] then [] else Forwards(ids[..|ids| - 1]) + [Forward(ids[|ids| - 1])]
  }

  /** Every finished cycle: one maintenance, then its forwarded events, then the reset. */
  function FinishedActs(cs: seq<seq<int>>): seq<Act> {
    if cs == [] then []
    else FinishedActs(cs[..|cs| - 1]) + [Maintain(|cs|)] + Forwards(cs[|cs| - 1]) + [ResetDedup]
  }

  function CurrentActs(done: nat, current: seq<int>): seq<Act> {
    if current == [] then [] else [Maintain(done + 1)] + Forwards(current)
  }

  function ExpectedActs(c: Cycles): seq<Act> {
    FinishedActs(c.finished) + CurrentActs(|c.finished|, c.current)
  }

  function ActsOf(trace: seq<Entry>, repo: string): seq<Act> {
    if trace == [] then []
    else
      var e := trace[|trace| - 1];
      ActsOf(trace[..|trace| - 1], repo) + if e.repo == repo then [e.act] else []
  }

  lemma ActsSnoc(trace: seq<Entry>, e: Entry, repo: string)
    ensures ActsOf(trace + [e], repo) == ActsOf(trace, repo) + if e.repo == repo then [e.act] else []
  {
    assert (trace + [e])[..|trace|] == trace;
  }

  /** What the manager has done for one repository, in the reference's terms. */
  ghost predicate Tracks(m: Manager, repo: string, c: Cycles) {
    && repo in m.runtimes
    && ActsOf(m.trace, repo) == ExpectedActs(c)
    && m.runtimes[repo].resolved == (c.current != [])
    && m.runtimes[repo].version == |c.finished| + if c.current == [] then 0 else 1
  }

  lemma ResolveActs(m: Manager, repo: string, c: Cycles)
    requires Tracks(m, repo, c)
    ensures ActsOf(Resolve(m, repo).trace, repo) ==
            FinishedActs(c.finished) + [Maintain(|c.finished| + 1)] + Forwards(c.current)
    ensures Resolve(m, repo).runtimes[repo].version == |c.finished| + 1
  {
    if c.current == [] {
      ActsSnoc(m.trace, Entry(repo, Maintain(|c.finished| + 1)), repo);
    }
  }

  lemma ExpectedAfterDone(c: Cycles)
    ensures ExpectedActs(Cycles(c.finished + [c.current], [])) ==
            FinishedActs(c.finished) + [Maintain(|c.finished| + 1)] + Forwards(c.current) + [ResetDedup]
  {
    var cs := c.finished + [c.current];
    assert cs[..|cs| - 1] == c.finished && cs[|cs| - 1] == c.current;
    assert FinishedActs(cs) + [] == FinishedActs(cs);
  }

  lemma ExpectedAfterForward(c: Cycles, id: int)
    ensures ExpectedActs(c.(current := c.current + [id])) ==
            FinishedActs(c.finished) + [Maintain(|c.finished| + 1)] + Forwards(c.current) + [Forward(id)]
  {
    var ids := c.current + [id];
    assert ids[..|ids| - 1] == c.current;
    assert Forwards(ids) == Forwards(c.current) + [Forward(id)];
  }

  lemma CycleDoneTracks(m: Manager, repo: string, c: Cycles)
    requires Tracks(m, repo, c)
    ensures Tracks(Handle(m, CycleDone(repo)), repo, Cycles(c.finished + [c.current], []))
  {
    ResolveActs(m, repo, c);
    ActsSnoc(Resolve(m, repo).trace, Entry(repo, ResetDedup), repo);
    ExpectedAfterDone(c);
  }

  lemma ForwardTracks(m: Manager, repo: string, c: Cycles, id: int)
    requires Tracks(m, repo, c)
    ensures Tracks(Handle(m, Change(repo, id, true)), repo, c.(current := c.current + [id]))
  {
    ResolveActs(m, repo, c);
    ActsSnoc(Resolve(m, repo).trace, Entry(repo, Forward(id)), repo);
    ExpectedAfterForward(c, id);
  }

  /** An event of another repository leaves this one's fields and acts alone. */
  lemma OtherRepoUntouched(m: Manager, repo: string, c: Cycles, ev: Event)
    requires Tracks(m, repo, c) && ev.repo != repo
    ensures Tracks(Handle(m, ev), repo, c)
  {
    if ev.repo in m.runtimes {
      var v := m.runtimes[ev.repo].version + 1;
      ActsSnoc(m.trace, Entry(ev.repo, Maintain(v)), repo);
      var last := if ev.CycleDone? then ResetDedup else Forward(ev.id);
      ActsSnoc(Resolve(m, ev.repo).trace, Entry(ev.repo, last), repo);
    }
  }

  /** For every interleaving of the repositories' events, each repository sees exactly one
      maintenance per poll cycle, before anything the cycle forwards; its graph version is the
      number of finished cycles, plus one once the current cycle has forwarded an event. */
  lemma {:induction false} OneMaintenancePerCycle(m: Manager, evs: seq<Event>, repo: string)
    requires repo in m.runtimes && m.runtimes[repo] == Cycle(false, 0) && m.trace == []
    ensures Tracks(HandleAll(m, evs), repo, CyclesOf(evs, repo))
  {
    if evs == [] {
    } else {
      var init, ev := evs[..|evs| - 1], evs[|evs| - 1];
      OneMaintenancePerCycle(m, init, repo);
      var now, c := HandleAll(m, init), CyclesOf(init, repo);
      if ev.repo != repo {
        OtherRepoUntouched(now, repo, c, ev);
      } else if ev.CycleDone? {
        CycleDoneTracks(now, repo, c);
      } else if ev.allowed {
        ForwardTracks(now, repo, c, ev.id);
      }
    }
  }

  // ----- consequences stated on the trace itself --------------------------------------

  function CountMaintains(acts: seq<Act>): nat {
    if acts == [] then 0
    else CountMaintains(acts[..|acts| - 1]) + if acts[|acts| - 1].Maintain? then 1 else 0
  }

  lemma {:induction false} CountConcat(a: seq<Act>, b: seq<Act>)
    ensures CountMaintains(a + b) == CountMaintains(a) + CountMaintains(b)
  {
    if b == [] {
      assert a + b == a;
    } else {
      CountConcat(a, b[..|b| - 1]);
      assert (a + b)[..|a + b| - 1] == a + b[..|b| - 1];
    }
  }

  lemma {:induction false} ForwardsCount(ids: seq<int>)
    ensures CountMaintains(Forwards(ids)) == 0
  {
    if ids == [] {
    } else {
      ForwardsCount(ids[..|ids| - 1]);
      CountConcat(Forwards(ids[..|ids| - 1]), [Forward(ids[|ids| - 1])]);
    }
  }

  lemma {:induction false} FinishedCount(cs: seq<seq<int>>)
    ensures CountMaintains(FinishedActs(cs)) == |cs|
  {
    if cs == [] {
    } else {
      var a := FinishedActs(cs[..|cs| - 1]);
      var f := Forwards(cs[|cs| - 1]);
      FinishedCount(cs[..|cs| - 1]);
      ForwardsCount(cs[|cs| - 1]);
      CountConcat(a, [Maintain(|cs|)]);
      CountConcat(a + [Maintain(|cs|)], f);
      CountConcat(a + [Maintain(|cs|)] + f, [ResetDedup]);
    }
  }

  /** The graph version counts the maintenance runs. */
  lemma VersionCountsMaintenance(m: Manager, evs: seq<Event>, repo: string)
    requires repo in m.runtimes && m.runtimes[repo] == Cycle(false, 0) && m.trace == []
    ensures var r := HandleAll(m, evs);
            repo in r.runtimes && r.runtimes[repo].version == CountMaintains(ActsOf(r.trace, repo))
  {
    OneMaintenancePerCycle(m, evs, repo);
    var c := CyclesOf(evs, repo);
    FinishedCount(c.finished);
    CountConcat(FinishedActs(c.finished), CurrentActs(|c.finished|, c.current));
    ForwardsCount(c.current);
    CountConcat([Maintain(|c.finished| + 1)], Forwards(c.current));
  }

  /** handleEvent on the manager's own fields. */
  class PollerManager {
    var runtimes: map<string, Cycle>
    var trace: seq<Entry>

    ghost function State(): Manager
      reads this
    {
      Manager(runtimes, trace)
    }

    constructor (repos: set<string>)
      ensures State() == Manager(map r | r in repos :: Cycle(false, 0), [])
    {
      runtimes := map r | r in repos :: Cycle(false, 0);
      trace := [];
    }

    method RunDependencyMaintenance(repo: string)
      requires repo in runtimes
      modifies this
      ensures State() == RunMaintenance(old(State()), repo)
    {
      var v := runtimes[repo].version + 1;
      runtimes := runtimes[repo := runtimes[repo].(version := v)];
      trace := trace + [Entry(repo, Maintain(v))];
    }

    method HandleEvent(ev: Event)
      modifies this
      ensures State() == Handle(old(State()), ev)
    {
      var repo := ev.repo;
      if repo !in runtimes {
        return;
      }
      if ev.CycleDone? {
        if !runtimes[repo].resolved {
          RunDependencyMaintenance(repo);
        }
        runtimes := runtimes[repo := runtimes[repo].(resolved := false)];
        trace := trace + [Entry(repo, ResetDedup)];
        return;
      }
      if !ev.allowed {
        return;
      }
      if !runtimes[repo].resolved {
        RunDependencyMaintenance(repo);
        runtimes := runtimes[repo := runtimes[repo].(resolved := true)];
      }
      assert runtimes == runtimes[repo := runtimes[repo].(resolved := true)];
      trace := trace + [Entry(repo, Forward(ev.id))];
    }
  }
}
