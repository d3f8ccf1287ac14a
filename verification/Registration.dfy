/** Repo registrations: a configuration becomes a stored record and is read back from it. */
module Registration {
  import opened Text
  import opened NormalForm

  datatype Workflow = Workflow(name: string, triggerLabel: string, states: map<string, State>, rest: string)

  datatype Config = Config(repo: string, environment: string, pollInterval: int, port: int, notifications: string,
                           agents: map<string, Agent>, workflows: map<string, Workflow>)

  /** None stands for a nil entry. */
  datatype Payload = Payload(repo: string, environment: string, pollInterval: int,
                             agents: seq<Option<Agent>>, workflows: seq<Option<Workflow>>)

  /** The stored configuration text: blank, not JSON, or the JSON of a payload. */
  datatype ConfigText = Blank | Garbled | Json(payload: Payload)

  datatype Record = Record(repo: string, environment: string, status: string, config: ConfigText)

  // ----- decoding -----------------------------------------------------------------------

  /** Later entries of a name override earlier ones; one bad agent refuses the record. */
  function CollectAgents(disk: Disk, list: seq<Option<Agent>>): Result<map<string, Agent>> {
    if list == [] then Ok(map[])
    else
      var last := list[|list| - 1];
      match CollectAgents(disk, list[..|list| - 1])
      case Err => Err
      case Ok(m) =>
        if last.None? then Ok(m)
        else match NormalAgent(disk, Strip(last.value))
          case Err => Err
          case Ok(a) => Ok(m[a.name := a])
  }

  function CollectWorkflows(list: seq<Option<Workflow>>): map<string, Workflow> {
    if list == [] then map[]
    else
      var last, m := list[|list| - 1], CollectWorkflows(list[..|list| - 1]);
      if last.None? then m else m[last.value.name := last.value]
  }

  ghost predicate Clash(ws: map<string, Workflow>, a: string, b: string) {
    a in ws && b in ws && a != b && ws[a].triggerLabel != "" && ws[a].triggerLabel == ws[b].triggerLabel
  }

  ghost predicate Conflicting(ws: map<string, Workflow>) {
    exists a, b :: Clash(ws, a, b)
  }

  ghost function Decoded(disk: Disk, rec: Record): Result<Config> {
    match rec.config
    case Json(p) =>
      var agents, workflows := CollectAgents(disk, p.agents), CollectWorkflows(p.workflows);
      if agents.Err? || Conflicting(workflows) then Err
      else Ok(Config(rec.repo, rec.environment, p.pollInterval, 0, "", agents.value, workflows))
    case _ => Err
  }

  /** validateWorkflowTriggerConflicts, whatever order the map is walked in. */
  method TriggerConflicts(ws: map<string, Workflow>) returns (conflict: bool)
    ensures conflict <==> Conflicting(ws)
  {
    var todo, seen: map<string, string> := ws.Keys, map[];
    while todo != {}
      invariant todo <= ws.Keys
      invariant forall l :: l in seen ==> l != "" && seen[l] in ws && seen[l] !in todo && ws[seen[l]].triggerLabel == l
      invariant forall n :: n in ws && n !in todo && ws[n].triggerLabel != "" ==>
        ws[n].triggerLabel in seen && seen[ws[n].triggerLabel] == n
      decreases |todo|
    {
      var name :| name in todo;
      var trigger := ws[name].triggerLabel;
      todo := todo - {name};
      if trigger != "" {
        if trigger in seen {
          assert Clash(ws, name, seen[trigger]);
          return true;
        }
        seen := seen[trigger := name];
      }
    }
    return false;
  }

  /** DecodeRepoRegistrationConfig. */
  method DecodeRepoRegistrationConfig(disk: Disk, rec: Record) returns (r: Result<Config>)
    ensures r == Decoded(disk, rec)
  {
    if !rec.config.Json? {
      return Err;
    }
    var p := rec.config.payload;
    var agents := DecodeAgents(disk, p.agents);
    if agents.Err? {
      return Err;
    }
    var workflows := DecodeWorkflows(p.workflows);
    var conflict := TriggerConflicts(workflows);
    if conflict {
      return Err;
    }
    return Ok(Config(rec.repo, rec.environment, p.pollInterval, 0, "", agents.value, workflows));
  }

  method DecodeAgents(disk: Disk, list: seq<Option<Agent>>) returns (r: Result<map<string, Agent>>)
    ensures r == CollectAgents(disk, list)
  {
    var agents: map<string, Agent> := map[];
    var i := 0;
    while i < |list|
      invariant 0 <= i <= |list| && CollectAgents(disk, list[..i]) == Ok(agents)
    {
      assert list[..i + 1][..i] == list[..i];
      if list[i].Some? {
        var normal, _ := NormalizeAgentConfig(disk, Strip(list[i].value));
        if normal.Err? {
          CollectStaysErr(disk, list, i + 1);
          return Err;
        }
        agents := agents[normal.value.name := normal.value];
      }
      i := i + 1;
    }
    assert list[..i] == list;
    return Ok(agents);
  }

  method DecodeWorkflows(list: seq<Option<Workflow>>) returns (workflows: map<string, Workflow>)
    ensures workflows == CollectWorkflows(list)
  {
    workflows := map[];
    var i := 0;
    while i < |list|
      invariant 0 <= i <= |list| && CollectWorkflows(list[..i]) == workflows
    {
      assert list[..i + 1][..i] == list[..i];
      if list[i].Some? {
        workflows := workflows[list[i].value.name := list[i].value];
      }
      i := i + 1;
    }
    assert list[..i] == list;
  }

  lemma {:induction false} CollectStaysErr(disk: Disk, list: seq<Option<Agent>>, i: nat)
    requires i <= |list| && CollectAgents(disk, list[..i]).Err?
    ensures CollectAgents(disk, list).Err?
    decreases |list|
  {
    if i == |list| {
      assert list[..i] == list;
    } else {
      assert list[..|list| - 1][..i] == list[..i];
      CollectStaysErr(disk, list[..|list| - 1], i);
    }
  }

  // ----- building -----------------------------------------------------------------------

  /** An order in which a map's keys may be walked. */
  ghost predicate IsOrder(keys: seq<string>, s: set<string>) {
    && (forall i :: 0 <= i < |keys| ==> keys[i] in s)
    && (forall n :: n in s ==> n in keys)
    && Distinct(keys)
  }

  function AgentList(m: map<string, Agent>, keys: seq<string>): (r: seq<Option<Agent>>)
    requires forall i :: 0 <= i < |keys| ==> keys[i] in m
    ensures |r| == |keys| && forall i :: 0 <= i < |keys| ==> r[i] == Some(Strip(m[keys[i]]))
  {
    seq(|keys|, i requires 0 <= i < |keys| => Some(Strip(m[keys[i]])))
  }

  function WorkflowList(m: map<string, Workflow>, keys: seq<string>): (r: seq<Option<Workflow>>)
    requires forall i :: 0 <= i < |keys| ==> keys[i] in m
    ensures |r| == |keys| && forall i :: 0 <= i < |keys| ==> r[i] == Some(m[keys[i]])
  {
    seq(|keys|, i requires 0 <= i < |keys| => Some(m[keys[i]]))
  }

  /** The payload when the agents and workflows are walked in the given orders. */
  ghost function PayloadIn(cfg: Config, agentOrder: seq<string>, workflowOrder: seq<string>): Payload
    requires IsOrder(agentOrder, cfg.agents.Keys) && IsOrder(workflowOrder, cfg.workflows.Keys)
  {
    Payload(TrimSpace(cfg.repo), TrimSpace(cfg.environment), cfg.pollInterval,
            AgentList(cfg.agents, agentOrder), WorkflowList(cfg.workflows, workflowOrder))
  }

  ghost predicate IsPayloadOf(cfg: Config, p: Payload) {
    exists ao, wo :: IsOrder(ao, cfg.agents.Keys) && IsOrder(wo, cfg.workflows.Keys) && p == PayloadIn(cfg, ao, wo)
  }

  method WalkKeys(s: set<string>) returns (keys: seq<string>)
    ensures IsOrder(keys, s)
  {
    keys := [];
    var todo := s;
    while todo != {}
      invariant todo <= s && IsOrder(keys, s - todo)
      decreases |todo|
    {
      var n :| n in todo;
      todo := todo - {n};
      keys := keys + [n];
    }
    assert s - todo == s;
  }

  /** BuildRepoRegistrationPayload. */
  method BuildRepoRegistrationPayload(cfg: Config) returns (p: Payload)
    ensures IsPayloadOf(cfg, p)
  {
    var ao := WalkKeys(cfg.agents.Keys);
    var wo := WalkKeys(cfg.workflows.Keys);
    p := Payload(TrimSpace(cfg.repo), TrimSpace(cfg.environment), cfg.pollInterval,
                 AgentList(cfg.agents, ao), WorkflowList(cfg.workflows, wo));
    assert p == PayloadIn(cfg, ao, wo);
  }

  /** The record whose decoding decides whether a payload is accepted; the poll interval is lost. */
  function Candidate(p: Payload): Record {
    Record(TrimSpace(p.repo), TrimSpace(p.environment), "active",
           Json(Payload(TrimSpace(p.repo), TrimSpace(p.environment), 0, p.agents, p.workflows)))
  }

  /** A record that building may return for a payload. */
  ghost predicate BuiltFrom(disk: Disk, p: Payload, rec: Record) {
    && Decoded(disk, Candidate(p)).Ok?
    && rec.config.Json?
    && IsPayloadOf(Decoded(disk, Candidate(p)).value, rec.config.payload)
    && rec == Record(TrimSpace(p.repo), rec.config.payload.environment, "active", rec.config)
  }

  /** BuildRepoRegistrationRecord; None is a nil payload. */
  method BuildRepoRegistrationRecord(disk: Disk, payload: Option<Payload>) returns (r: Result<Record>)
    ensures r.Ok? <==> payload.Some? && Decoded(disk, Candidate(payload.value)).Ok?
    ensures r.Ok? ==> BuiltFrom(disk, payload.value, r.value)
  {
    if payload.None? {
      return Err;
    }
    var rec := Candidate(payload.value);
    var cfg := DecodeRepoRegistrationConfig(disk, rec);
    if cfg.Err? {
      return Err;
    }
    var normalized := BuildRepoRegistrationPayload(cfg.value);
    return Ok(rec.(environment := normalized.environment, config := Json(normalized)));
  }

  // ----- round trips --------------------------------------------------------------------

  ghost predicate Keyed(cfg: Config) {
    && (forall n :: n in cfg.agents ==> cfg.agents[n].name == n)
    && (forall n :: n in cfg.workflows ==> cfg.workflows[n].name == n)
  }

  function StripAll(m: map<string, Agent>): map<string, Agent> {
    map n | n in m :: Strip(m[n])
  }

  ghost predicate AllSettled(disk: Disk, m: map<string, Agent>) {
    forall n :: n in m ==> m[n].name == n && NormalAgent(disk, Strip(m[n])) == Ok(Strip(m[n]))
  }

  function Restrict(m: map<string, Agent>, keys: seq<string>): map<string, Agent>
    requires forall i :: 0 <= i < |keys| ==> keys[i] in m
  {
    map n | n in keys :: Strip(m[n])
  }

  lemma RestrictStep(m: map<string, Agent>, keys: seq<string>)
    requires keys != [] && forall i :: 0 <= i < |keys| ==> keys[i] in m
    ensures Restrict(m, keys) == Restrict(m, keys[..|keys| - 1])[keys[|keys| - 1] := Strip(m[keys[|keys| - 1]])]
  {
    assert keys == keys[..|keys| - 1] + [keys[|keys| - 1]];
  }

  lemma AgentListStep(m: map<string, Agent>, keys: seq<string>)
    requires keys != [] && forall i :: 0 <= i < |keys| ==> keys[i] in m
    ensures AgentList(m, keys) == AgentList(m, keys[..|keys| - 1]) + [Some(Strip(m[keys[|keys| - 1]]))]
  {}

  lemma CollectStep(disk: Disk, list: seq<Option<Agent>>, front: seq<Option<Agent>>, m: map<string, Agent>, x: Agent,
                    a: Agent)
    requires list == front + [Some(x)] && CollectAgents(disk, front) == Ok(m) && NormalAgent(disk, Strip(x)) == Ok(a)
    ensures CollectAgents(disk, list) == Ok(m[a.name := a])
  {
    assert list[..|list| - 1] == front;
  }

  /** Listing settled agents in any order and collecting them again gives them back. */
  lemma {:induction false} CollectListed(disk: Disk, m: map<string, Agent>, keys: seq<string>)
    requires AllSettled(disk, m) && forall i :: 0 <= i < |keys| ==> keys[i] in m
    ensures CollectAgents(disk, AgentList(m, keys)) == Ok(Restrict(m, keys))
    decreases |keys|
  {
    if keys == [] {
    } else {
      var front, last := keys[..|keys| - 1], keys[|keys| - 1];
      CollectListed(disk, m, front);
      RestrictStep(m, keys);
      AgentListStep(m, keys);
      CollectStep(disk, AgentList(m, keys), AgentList(m, front), Restrict(m, front), Strip(m[last]), Strip(m[last]));
    }
  }

  lemma {:induction false} CollectListedWorkflows(m: map<string, Workflow>, keys: seq<string>)
    requires forall i :: 0 <= i < |keys| ==> keys[i] in m && m[keys[i]].name == keys[i]
    ensures CollectWorkflows(WorkflowList(m, keys)) == map n | n in keys :: m[n]
    decreases |keys|
  {
    if keys == [] {
    } else {
      var front := keys[..|keys| - 1];
      CollectListedWorkflows(m, front);
      assert WorkflowList(m, keys)[..|keys| - 1] == WorkflowList(m, front);
      assert keys == front + [keys[|keys| - 1]];
    }
  }

  /** Whatever was collected is settled: normal, without a source path and under its own name. */
  lemma {:induction false} CollectedSettled(disk: Disk, list: seq<Option<Agent>>)
    requires CollectAgents(disk, list).Ok?
    ensures AllSettled(disk, CollectAgents(disk, list).value)
    ensures StripAll(CollectAgents(disk, list).value) == CollectAgents(disk, list).value
  {
    if list == [] {
    } else {
      var last := list[|list| - 1];
      CollectedSettled(disk, list[..|list| - 1]);
      if last.Some? {
        AgentIdempotent(disk, Strip(last.value));
      }
    }
  }

  lemma {:induction false} CollectedKeyed(list: seq<Option<Workflow>>)
    ensures forall n :: n in CollectWorkflows(list) ==> CollectWorkflows(list)[n].name == n
  {
    if list == [] {
    } else {
      CollectedKeyed(list[..|list| - 1]);
    }
  }

  /** The record of a configuration, in whatever order its maps were walked, decodes to the same
      workflows and to the same agents without their source paths. */
  lemma PayloadDecodes(disk: Disk, cfg: Config, p: Payload, rec: Record)
    requires Keyed(cfg) && AllSettled(disk, cfg.agents) && !Conflicting(cfg.workflows)
    requires IsPayloadOf(cfg, p) && rec.config.Json? && rec.config.payload.agents == p.agents
    requires rec.config.payload.workflows == p.workflows
    ensures Decoded(disk, rec).Ok?
    ensures Decoded(disk, rec).value.agents == StripAll(cfg.agents)
    ensures Decoded(disk, rec).value.workflows == cfg.workflows
  {
    var ao, wo :| IsOrder(ao, cfg.agents.Keys) && IsOrder(wo, cfg.workflows.Keys) && p == PayloadIn(cfg, ao, wo);
    ListedAgentsDecode(disk, cfg.agents, ao);
    ListedWorkflowsDecode(cfg.workflows, wo);
  }

  lemma ListedAgentsDecode(disk: Disk, m: map<string, Agent>, order: seq<string>)
    requires AllSettled(disk, m) && IsOrder(order, m.Keys)
    ensures CollectAgents(disk, AgentList(m, order)) == Ok(StripAll(m))
  {
    CollectListed(disk, m, order);
    assert Restrict(m, order) == StripAll(m);
  }

  lemma ListedWorkflowsDecode(m: map<string, Workflow>, order: seq<string>)
    requires IsOrder(order, m.Keys) && forall n :: n in m ==> m[n].name == n
    ensures CollectWorkflows(WorkflowList(m, order)) == m
  {
    CollectListedWorkflows(m, order);
    assert (map n | n in order :: m[n]) == m;
  }

  lemma DecodedSettled(disk: Disk, rec: Record)
    requires Decoded(disk, rec).Ok?
    ensures Keyed(Decoded(disk, rec).value) && AllSettled(disk, Decoded(disk, rec).value.agents)
    ensures StripAll(Decoded(disk, rec).value.agents) == Decoded(disk, rec).value.agents
    ensures !Conflicting(Decoded(disk, rec).value.workflows)
  {
    CollectedSettled(disk, rec.config.payload.agents);
    CollectedKeyed(rec.config.payload.workflows);
  }

  /** Rebuilding any decodable record from its own decoded configuration is accepted. */
  lemma RebuildAccepted(disk: Disk, rec: Record, p: Payload)
    requires Decoded(disk, rec).Ok? && IsPayloadOf(Decoded(disk, rec).value, p)
    ensures Decoded(disk, Candidate(p)).Ok?
    ensures Decoded(disk, Candidate(p)).value.agents == Decoded(disk, rec).value.agents
    ensures Decoded(disk, Candidate(p)).value.workflows == Decoded(disk, rec).value.workflows
  {
    DecodedSettled(disk, rec);
    PayloadDecodes(disk, Decoded(disk, rec).value, p, Candidate(p));
  }

  /** What building returns decodes to what its payload decodes to, poll interval aside. */
  lemma BuiltDecodes(disk: Disk, p: Payload, rec: Record)
    requires BuiltFrom(disk, p, rec)
    ensures Decoded(disk, rec).Ok?
    ensures Decoded(disk, rec).value.agents == Decoded(disk, Candidate(p)).value.agents
    ensures Decoded(disk, rec).value.workflows == Decoded(disk, Candidate(p)).value.workflows
    ensures Decoded(disk, rec).value.pollInterval == 0
    ensures Decoded(disk, rec).value.repo == TrimSpace(p.repo)
    ensures Decoded(disk, rec).value.environment == TrimSpace(p.environment)
    ensures rec.status == "active"
  {
    DecodedSettled(disk, Candidate(p));
    PayloadDecodes(disk, Decoded(disk, Candidate(p)).value, rec.config.payload, rec);
    TrimSpaceIdempotent(p.environment);
  }

  /** Every record rebuilt from a decoded one decodes to the same agents and workflows. */
  lemma RebuildRoundTrip(disk: Disk, rec: Record, p: Payload, again: Record)
    requires Decoded(disk, rec).Ok? && IsPayloadOf(Decoded(disk, rec).value, p) && BuiltFrom(disk, p, again)
    ensures Decoded(disk, again).Ok?
    ensures Decoded(disk, again).value.agents == Decoded(disk, rec).value.agents
    ensures Decoded(disk, again).value.workflows == Decoded(disk, rec).value.workflows
  {
    RebuildAccepted(disk, rec, p);
    BuiltDecodes(disk, p, again);
  }

  // ----- what a record decodes to -------------------------------------------------------

  /** Entry i is the last one with name n. */
  ghost predicate LastAgent(list: seq<Option<Agent>>, n: string, i: int) {
    && 0 <= i < |list| && list[i].Some? && list[i].value.name == n
    && forall j :: i < j < |list| && list[j].Some? ==> list[j].value.name != n
  }

  lemma LastAgentStep(front: seq<Option<Agent>>, x: Option<Agent>, n: string, i: int)
    ensures LastAgent(front + [x], n, i) <==>
      if x.Some? && x.value.name == n then i == |front| else LastAgent(front, n, i)
  {
    var list := front + [x];
    assert list[|front|] == x && forall j :: 0 <= j < |front| ==> list[j] == front[j];
  }

  /** The decoded agent of a name is the normal form of the last entry of that name; there is one
      exactly if some entry has the name. */
  lemma {:induction false} LastAgentWins(disk: Disk, list: seq<Option<Agent>>, n: string)
    requires CollectAgents(disk, list).Ok?
    ensures var m := CollectAgents(disk, list).value;
      && (n in m <==> exists i :: LastAgent(list, n, i))
      && forall i :: LastAgent(list, n, i) ==> n in m && NormalAgent(disk, Strip(list[i].value)) == Ok(m[n])
  {
    if list == [] {
    } else {
      var front, x := list[..|list| - 1], list[|list| - 1];
      assert list == front + [x];
      LastAgentWins(disk, front, n);
      forall i ensures LastAgent(list, n, i) <==>
        if x.Some? && x.value.name == n then i == |front| else LastAgent(front, n, i)
      {
        LastAgentStep(front, x, n, i);
      }
      if x.Some? {
        NormalKeepsName(disk, Strip(x.value));
        assert x.value.name == n ==> LastAgent(list, n, |front|);
      }
      assert forall i :: LastAgent(front, n, i) ==> list[i] == front[i];
    }
  }

  lemma NormalKeepsName(disk: Disk, a: Agent)
    ensures NormalAgent(disk, a).Ok? ==> NormalAgent(disk, a).value.name == a.name
  {}

  ghost predicate LastWorkflow(list: seq<Option<Workflow>>, n: string, i: int) {
    && 0 <= i < |list| && list[i].Some? && list[i].value.name == n
    && forall j :: i < j < |list| && list[j].Some? ==> list[j].value.name != n
  }

  lemma LastWorkflowStep(front: seq<Option<Workflow>>, x: Option<Workflow>, n: string, i: int)
    ensures LastWorkflow(front + [x], n, i) <==>
      if x.Some? && x.value.name == n then i == |front| else LastWorkflow(front, n, i)
  {
    var list := front + [x];
    assert list[|front|] == x && forall j :: 0 <= j < |front| ==> list[j] == front[j];
  }

  lemma {:induction false} LastWorkflowWins(list: seq<Option<Workflow>>, n: string)
    ensures var m := CollectWorkflows(list);
      && (n in m <==> exists i :: LastWorkflow(list, n, i))
      && forall i :: LastWorkflow(list, n, i) ==> n in m && m[n] == list[i].value
  {
    if list == [] {
    } else {
      var front, x := list[..|list| - 1], list[|list| - 1];
      assert list == front + [x];
      LastWorkflowWins(front, n);
      forall i ensures LastWorkflow(list, n, i) <==>
        if x.Some? && x.value.name == n then i == |front| else LastWorkflow(front, n, i)
      {
        LastWorkflowStep(front, x, n, i);
      }
      assert x.Some? && x.value.name == n ==> LastWorkflow(list, n, |front|);
      assert forall i :: LastWorkflow(front, n, i) ==> list[i] == front[i];
    }
  }

  /** A record decodes exactly if its text is JSON, every agent in it is accepted without its source
      path, and no two of the workflows it ends up with share a trigger label. */
  lemma DecodesIff(disk: Disk, rec: Record)
    ensures Decoded(disk, rec).Ok? <==>
      && rec.config.Json?
      && (forall i :: 0 <= i < |rec.config.payload.agents| && rec.config.payload.agents[i].Some? ==>
            NormalAgent(disk, Strip(rec.config.payload.agents[i].value)).Ok?)
      && !Conflicting(CollectWorkflows(rec.config.payload.workflows))
    ensures Decoded(disk, rec).Ok? ==>
      var c := Decoded(disk, rec).value;
      && c.repo == rec.repo && c.environment == rec.environment
      && c.pollInterval == rec.config.payload.pollInterval && c.port == 0
  {
    if rec.config.Json? {
      CollectOkIff(disk, rec.config.payload.agents);
    }
  }

  lemma {:induction false} CollectOkIff(disk: Disk, list: seq<Option<Agent>>)
    ensures CollectAgents(disk, list).Ok? <==>
      forall i :: 0 <= i < |list| && list[i].Some? ==> NormalAgent(disk, Strip(list[i].value)).Ok?
  {
    if list == [] {
    } else {
      var front, x := list[..|list| - 1], list[|list| - 1];
      CollectOkIff(disk, front);
      assert list == front + [x] && forall i :: 0 <= i < |front| ==> list[i] == front[i];
    }
  }

  // ----- loaded configurations ----------------------------------------------------------

  /** What the loader guarantees of a configuration it returns. */
  ghost predicate Loaded(disk: Disk, cfg: Config) {
    && Keyed(cfg) && !Conflicting(cfg.workflows)
    && forall n :: n in cfg.agents ==> IsNormal(disk, cfg.agents[n])
  }

  ghost predicate AllStandAlone(cfg: Config) {
    forall n :: n in cfg.agents ==> StandsAlone(cfg.agents[n])
  }

  /** A loaded configuration can be registered exactly when no agent needs its source path. */
  lemma LoadedRegistersIff(disk: Disk, cfg: Config, p: Payload)
    requires Loaded(disk, cfg) && IsPayloadOf(cfg, p)
    ensures Decoded(disk, Candidate(p)).Ok? <==> AllStandAlone(cfg)
  {
    if AllStandAlone(cfg) {
      LoadedSettled(disk, cfg);
      PayloadDecodes(disk, cfg, p, Candidate(p));
    } else {
      var n :| n in cfg.agents && !StandsAlone(cfg.agents[n]);
      var ao, wo :| IsOrder(ao, cfg.agents.Keys) && IsOrder(wo, cfg.workflows.Keys) && p == PayloadIn(cfg, ao, wo);
      assert n in ao;
      var i :| 0 <= i < |ao| && ao[i] == n;
      StripKeepsNormal(disk, cfg.agents[n]);
      OneBadRefuses(disk, p.agents, i);
    }
  }

  lemma LoadedSettled(disk: Disk, cfg: Config)
    requires Loaded(disk, cfg) && AllStandAlone(cfg)
    ensures AllSettled(disk, cfg.agents)
  {
    forall n | n in cfg.agents
      ensures NormalAgent(disk, Strip(cfg.agents[n])) == Ok(Strip(cfg.agents[n]))
    {
      StripKeepsNormal(disk, cfg.agents[n]);
    }
  }

  lemma OneBadRefuses(disk: Disk, list: seq<Option<Agent>>, i: nat)
    requires i < |list| && list[i].Some? && NormalAgent(disk, Strip(list[i].value)).Err?
    ensures CollectAgents(disk, list).Err?
  {
    assert list[..i + 1][|list[..i + 1]| - 1] == list[i];
    CollectStaysErr(disk, list, i + 1);
  }

  /** The record built from a loaded configuration holds its workflows and its agents up to source
      path. */
  lemma LoadedRecordAgrees(disk: Disk, cfg: Config, p: Payload, rec: Record)
    requires Loaded(disk, cfg) && IsPayloadOf(cfg, p) && BuiltFrom(disk, p, rec)
    ensures Decoded(disk, rec).Ok?
    ensures Decoded(disk, rec).value.agents == StripAll(cfg.agents)
    ensures Decoded(disk, rec).value.workflows == cfg.workflows
  {
    LoadedRegistersIff(disk, cfg, p);
    LoadedSettled(disk, cfg);
    PayloadDecodes(disk, cfg, p, Candidate(p));
    BuiltDecodes(disk, p, rec);
  }
}
