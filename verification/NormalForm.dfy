/** The normal forms the configuration loader gives agents and workflow states. */
module NormalForm {
  import opened Text

  datatype Result<+T> = Ok(value: T) | Err

  // ----- agents -------------------------------------------------------------------------

  datatype Runtime =
    ClaudeCode | ClaudeOneshot | Codex | CodexExec | CodexAppserver | AgentM | OtherRuntime(text: string)

  datatype Sandbox = NoSandbox | ReadOnly | WorkspaceWrite | DangerFullAccess | OtherSandbox(text: string)
  datatype Approval = NoApproval | Never | OnFailure | OnRequest | ViaApprover | OtherApproval(text: string)

  datatype Policy = Policy(sandbox: Sandbox, approval: Approval, model: string, timeout: int)

  /** `rest` stands for the fields that normalisation neither reads nor writes. */
  datatype Agent = Agent(name: string, runtime: Runtime, policy: Policy, timeout: int, schemaFile: string,
                         devContainerImage: string, sourcePath: string, rest: string)

  /** The file system: which files exist, and how a relative path resolves against another file. */
  datatype Disk = Disk(has: string -> bool, resolve: (string, string) -> string)

  /** OutputContractSchemaPath; None is its empty string. */
  function SchemaPath(disk: Disk, a: Agent): Option<string> {
    var file := TrimSpace(a.schemaFile);
    if file == "" then None
    else if file[0] == '/' then Some(file)
    else if TrimSpace(a.sourcePath) == "" then None
    else Some(disk.resolve(a.sourcePath, file))
  }

  function RuntimeAlias(r: Runtime): Runtime {
    if r == CodexExec || r == CodexAppserver then Codex else r
  }

  function DefaultSandbox(r: Runtime): Sandbox {
    match r
    case ClaudeCode | ClaudeOneshot | Codex | AgentM => ReadOnly
    case _ => NoSandbox
  }

  function DefaultApproval(r: Runtime): Approval {
    match r
    case ClaudeCode | ClaudeOneshot | Codex | AgentM => Never
    case _ => NoApproval
  }

  predicate IsClaude(r: Runtime) { r == ClaudeCode || r == ClaudeOneshot }

  /** What the schema file must satisfy. */
  predicate SchemaFound(disk: Disk, a: Agent) {
    a.schemaFile == "" || (SchemaPath(disk, a).Some? && disk.has(SchemaPath(disk, a).value))
  }

  /** The runtime/policy matrix as it reads once every default and alias is applied. */
  predicate IsNormal(disk: Disk, a: Agent) {
    && SchemaFound(disk, a)
    && (a.policy.timeout > 0 ==> a.timeout == a.policy.timeout)
    && PolicyFits(a.runtime, a.policy)
  }

  predicate PolicyFits(runtime: Runtime, policy: Policy) {
    match runtime
    case ClaudeCode | ClaudeOneshot => policy.sandbox in {ReadOnly, DangerFullAccess} && policy.approval == Never
    case Codex | AgentM =>
      && policy.sandbox in {ReadOnly, WorkspaceWrite, DangerFullAccess}
      && policy.approval in {Never, OnFailure, OnRequest, ViaApprover}
    case _ => false
  }

  /** The policy with its defaults filled in and the claude sandbox degraded. */
  function FilledPolicy(r: Runtime, p: Policy): Policy {
    var sandbox := if p.sandbox == NoSandbox then DefaultSandbox(r) else p.sandbox;
    p.(sandbox := if IsClaude(r) && sandbox == WorkspaceWrite then ReadOnly else sandbox,
       approval := if p.approval == NoApproval then DefaultApproval(r) else p.approval)
  }

  /** The agent with alias, timeout and policy filled in. */
  function Filled(a: Agent): Agent {
    var r := RuntimeAlias(a.runtime);
    a.(runtime := r,
       timeout := if a.policy.timeout > 0 then a.policy.timeout else a.timeout,
       policy := FilledPolicy(r, a.policy))
  }

  /** An agent is accepted exactly when its filled-in form satisfies the matrix. */
  function NormalAgent(disk: Disk, a: Agent): Result<Agent> {
    if IsNormal(disk, Filled(a)) then Ok(Filled(a)) else Err
  }

  /** The switch over runtimes, once the policy is filled in. */
  method CheckPolicy(runtime: Runtime, policy: Policy) returns (supported: bool)
    ensures supported <==> PolicyFits(runtime, policy)
  {
    match runtime {
      case ClaudeCode | ClaudeOneshot =>
        return (policy.sandbox == ReadOnly || policy.sandbox == DangerFullAccess) && policy.approval == Never;
      case Codex | AgentM =>
        return !policy.sandbox.OtherSandbox? && policy.sandbox != NoSandbox
            && !policy.approval.OtherApproval? && policy.approval != NoApproval;
      case _ =>
        return false;
    }
  }

  /** Defaults, the degradation of the claude sandbox, and the matrix. */
  method NormalizePolicy(runtime: Runtime, policy: Policy) returns (p: Policy, supported: bool, degraded: bool)
    ensures p == FilledPolicy(runtime, policy)
    ensures supported <==> PolicyFits(runtime, p)
    ensures degraded <==> IsClaude(runtime) && policy.sandbox == WorkspaceWrite
  {
    p, degraded := policy, false;
    if p.sandbox == NoSandbox {
      p := p.(sandbox := DefaultSandbox(runtime));
    }
    if p.approval == NoApproval {
      p := p.(approval := DefaultApproval(runtime));
    }
    if p.sandbox == NoSandbox || p.approval == NoApproval {
      return p, false, degraded;
    }
    if IsClaude(runtime) && p.sandbox == WorkspaceWrite {
      degraded := true;
      p := p.(sandbox := ReadOnly);
    }
    supported := CheckPolicy(runtime, p);
  }

  /** The checks on output_contract.schema_file. */
  method CheckSchema(disk: Disk, a: Agent) returns (found: bool)
    ensures found <==> SchemaFound(disk, a)
  {
    if a.schemaFile == "" {
      return true;
    }
    if TrimSpace(a.schemaFile) == "" {
      return false;
    }
    var path := SchemaPath(disk, a);
    if path.None? {
      return false;
    }
    return disk.has(path.value);
  }

  /** normalizeAgentConfig, one field after the other. */
  method NormalizeAgentConfig(disk: Disk, agent: Agent) returns (r: Result<Agent>, warnings: nat)
    ensures r == NormalAgent(disk, agent)
    ensures var degraded := agent.runtime in {ClaudeCode, ClaudeOneshot} && agent.policy.sandbox == WorkspaceWrite;
            var ignored := TrimSpace(agent.devContainerImage) != "" && agent.runtime != AgentM;
            r.Ok? ==> warnings == (if degraded then 1 else 0) + (if ignored then 1 else 0)
  {
    var a := agent;
    warnings := 0;
    if a.runtime == Codex || a.runtime == CodexExec || a.runtime == CodexAppserver {
      a := a.(runtime := Codex);
    }
    if a.policy.timeout > 0 {
      a := a.(timeout := a.policy.timeout);
    }
    FilledSchema(disk, agent);
    var found := CheckSchema(disk, a);
    if !found {
      return Err, warnings;
    }
    var policy, supported, degraded := NormalizePolicy(a.runtime, a.policy);
    a := a.(policy := policy);
    if degraded {
      warnings := warnings + 1;
    }
    if !supported {
      return Err, warnings;
    }
    if TrimSpace(a.devContainerImage) != "" && a.runtime != AgentM {
      warnings := warnings + 1;
    }
    return Ok(a), warnings;
  }

  lemma FilledSchema(disk: Disk, a: Agent)
    ensures SchemaPath(disk, Filled(a)) == SchemaPath(disk, a) && SchemaFound(disk, Filled(a)) == SchemaFound(disk, a)
  {
  }

  /** A fixed point of normalisation is exactly an agent in normal form. */
  lemma NormalIffFixed(disk: Disk, a: Agent)
    ensures NormalAgent(disk, a) == Ok(a) <==> IsNormal(disk, a)
  {
    if IsNormal(disk, a) {
      assert Filled(a) == a;
    }
  }

  /** Whenever normalisation succeeds, doing it again changes nothing. */
  lemma AgentIdempotent(disk: Disk, a: Agent)
    requires NormalAgent(disk, a).Ok?
    ensures NormalAgent(disk, NormalAgent(disk, a).value) == NormalAgent(disk, a)
  {
    NormalIffFixed(disk, Filled(a));
  }

  /** Which raw agents are accepted, in terms of their own fields. */
  lemma AcceptedIff(disk: Disk, a: Agent)
    ensures NormalAgent(disk, a).Ok? <==>
      && SchemaFound(disk, a)
      && !a.runtime.OtherRuntime? && !a.policy.sandbox.OtherSandbox? && !a.policy.approval.OtherApproval?
      && (IsClaude(a.runtime) ==> a.policy.approval in {NoApproval, Never})
  {
    FilledSchema(disk, a);
  }

  /** What the schema file must be, in terms of the file system. */
  lemma SchemaMeans(disk: Disk, a: Agent)
    ensures SchemaFound(disk, a) <==>
      var file := TrimSpace(a.schemaFile);
      || a.schemaFile == ""
      || (file != "" && file[0] == '/' && disk.has(file))
      || (file != "" && file[0] != '/' && TrimSpace(a.sourcePath) != "" && disk.has(disk.resolve(a.sourcePath, file)))
  {}

  /** What an accepted agent becomes, field by field. */
  lemma AgentBecomes(disk: Disk, a: Agent)
    requires NormalAgent(disk, a).Ok?
    ensures var b := NormalAgent(disk, a).value;
      && b.runtime == (if a.runtime in {CodexExec, CodexAppserver} then Codex else a.runtime)
      && b.timeout == (if a.policy.timeout > 0 then a.policy.timeout else a.timeout)
      && b.policy.approval == (if a.policy.approval == NoApproval then Never else a.policy.approval)
      && b.policy.sandbox ==
           (if a.policy.sandbox == NoSandbox then ReadOnly
            else if a.policy.sandbox == WorkspaceWrite && a.runtime in {ClaudeCode, ClaudeOneshot} then ReadOnly
            else a.policy.sandbox)
      && b.policy.model == a.policy.model && b.policy.timeout == a.policy.timeout
      && b.name == a.name && b.schemaFile == a.schemaFile && b.devContainerImage == a.devContainerImage
      && b.sourcePath == a.sourcePath && b.rest == a.rest
  {}

  function Strip(a: Agent): Agent { a.(sourcePath := "") }

  predicate StandsAlone(a: Agent) {
    a.schemaFile == "" || (TrimSpace(a.schemaFile) != "" && TrimSpace(a.schemaFile)[0] == '/')
  }

  /** A normal agent stays normal without its source path exactly when its schema path is absolute;
      then stripping is all that registration does to it. */
  lemma StripKeepsNormal(disk: Disk, a: Agent)
    requires IsNormal(disk, a)
    ensures NormalAgent(disk, Strip(a)).Ok? <==> StandsAlone(a)
    ensures NormalAgent(disk, Strip(a)).Ok? ==> NormalAgent(disk, Strip(a)) == Ok(Strip(a))
  {
    assert Filled(a) == a && Filled(Strip(a)) == Strip(a);
    assert TrimSpace("") == "";
  }

  // ----- workflow states ----------------------------------------------------------------

  const ALL_PASSED := "all_passed"
  const ANY_PASSED := "any_passed"
  const ROLLOUTS := "rollouts"

  datatype Join = Join(strategy: string, minSuccesses: int)

  datatype State = State(agent: string, agents: seq<string>, join: Join, rollouts: int, rest: string)

  function Trimmed(names: seq<string>): (r: seq<string>)
    ensures |r| == |names| && forall i :: 0 <= i < |names| ==> r[i] == TrimSpace(names[i])
  {
    seq(|names|, i requires 0 <= i < |names| => TrimSpace(names[i]))
  }

  predicate Distinct(names: seq<string>) {
    forall i, j :: 0 <= i < j < |names| ==> names[i] != names[j]
  }

  /** A usable list of agents: no blank name, no name twice. */
  predicate Usable(names: seq<string>) {
    "" !in names && Distinct(names)
  }

  /** The loop over a state's agents. */
  method TrimAgents(names: seq<string>) returns (r: Result<seq<string>>)
    ensures r == if Usable(Trimmed(names)) then Ok(Trimmed(names)) else Err
  {
    var seen: set<string>, normalized: seq<string> := {}, [];
    var i := 0;
    while i < |names|
      invariant 0 <= i <= |names| && normalized == Trimmed(names)[..i] && Usable(normalized)
      invariant forall n :: n in seen <==> n in normalized
    {
      var name := TrimSpace(names[i]);
      assert Trimmed(names)[i] == name;
      if name == "" || name in seen {
        return Err;
      }
      seen := seen + {name};
      normalized := normalized + [name];
      i := i + 1;
    }
    assert Trimmed(names)[..i] == Trimmed(names);
    return Ok(normalized);
  }

  /** The agents a state names, by list or by the single field. */
  function Named(s: State): seq<string> {
    if s.agents == [] && TrimSpace(s.agent) != "" then [s.agent] else s.agents
  }

  function Rounds(s: State): int { if s.rollouts <= 0 then 1 else s.rollouts }

  function Strategy(s: State): string {
    var join := TrimSpace(s.join.strategy);
    if join != "" then join else if Rounds(s) > 1 then ROLLOUTS else ALL_PASSED
  }

  function Needed(s: State): int {
    if Rounds(s) > 1 && s.join.minSuccesses <= 0 then Rounds(s) else s.join.minSuccesses
  }

  function FilledState(s: State): State {
    if Named(s) == [] then s.(agents := [], join := Join("", 0), rollouts := Rounds(s))
    else s.(agents := Trimmed(Named(s)), join := Join(Strategy(s), Needed(s)), rollouts := Rounds(s))
  }

  /** The join matrix of a state whose defaults are filled in. */
  predicate IsNormalState(s: State) {
    && 1 <= s.rollouts <= 5
    && (s.agents == [] ==> TrimSpace(s.agent) == "" && s.join == Join("", 0) && s.rollouts == 1)
    && (s.agents != [] ==>
          && Usable(s.agents) && Trimmed(s.agents) == s.agents
          && if s.rollouts > 1
             then |s.agents| == 1 && s.join.strategy == ROLLOUTS && 1 <= s.join.minSuccesses <= s.rollouts
             else s.join.strategy in {ALL_PASSED, ANY_PASSED} && s.join.minSuccesses == 0)
  }

  function NormalState(s: State): Result<State> {
    if IsNormalState(FilledState(s)) then Ok(FilledState(s)) else Err
  }

  lemma StrategiesAreSolid()
    ensures TrimSpace(ALL_PASSED) == ALL_PASSED && TrimSpace(ANY_PASSED) == ANY_PASSED
    ensures TrimSpace(ROLLOUTS) == ROLLOUTS
    ensures ALL_PASSED != "" && ANY_PASSED != "" && ROLLOUTS != ""
  {
    TrimSpaceOfSolid(ALL_PASSED);
    TrimSpaceOfSolid(ANY_PASSED);
    TrimSpaceOfSolid(ROLLOUTS);
  }

  lemma TrimmedTwice(names: seq<string>)
    ensures Trimmed(Trimmed(names)) == Trimmed(names)
  {
    forall i | 0 <= i < |names|
      ensures Trimmed(Trimmed(names))[i] == Trimmed(names)[i]
    {
      TrimSpaceIdempotent(names[i]);
    }
  }

  /** A fixed point of state normalisation is exactly a state in normal form. */
  lemma NormalStateIffFixed(s: State)
    ensures NormalState(s) == Ok(s) <==> IsNormalState(s)
  {
    if IsNormalState(s) {
      StrategiesAreSolid();
      assert FilledState(s) == s;
    }
  }

  lemma StateIdempotent(s: State)
    requires NormalState(s).Ok?
    ensures NormalState(NormalState(s).value) == NormalState(s)
  {
    NormalStateIffFixed(FilledState(s));
  }

  /** The rules a raw state has to satisfy, over its own fields: what its agents, its rollout count and
      its join strategy are once written out. */
  ghost predicate RulesHold(s: State, named: seq<string>, rounds: int, strategy: string) {
    && rounds <= 5
    && (named == [] ==> rounds == 1)
    && (named != [] ==>
          && (forall i :: 0 <= i < |named| ==> TrimSpace(named[i]) != "")
          && (forall i, j :: 0 <= i < j < |named| ==> TrimSpace(named[i]) != TrimSpace(named[j]))
          && (rounds > 1 ==> |named| == 1 && strategy in {"", "rollouts"} && s.join.minSuccesses <= rounds)
          && (rounds == 1 ==> strategy in {"", "all_passed", "any_passed"} && s.join.minSuccesses == 0))
  }

  /** Which raw states are accepted, in terms of their own fields. */
  lemma StateAcceptedIff(s: State)
    ensures NormalState(s).Ok? <==>
      RulesHold(s, if s.agents == [] && TrimSpace(s.agent) != "" then [s.agent] else s.agents,
                if s.rollouts <= 0 then 1 else s.rollouts, TrimSpace(s.join.strategy))
  {
    AcceptedByParts(s);
    UsableMeans(Named(s));
    if Named(s) != [] {
      JoinFitsMeans(s, |Named(s)|);
    }
  }

  lemma UsableMeans(names: seq<string>)
    ensures Usable(Trimmed(names)) <==>
      && (forall i :: 0 <= i < |names| ==> TrimSpace(names[i]) != "")
      && (forall i, j :: 0 <= i < j < |names| ==> TrimSpace(names[i]) != TrimSpace(names[j]))
  {
    var t := Trimmed(names);
    assert forall i :: 0 <= i < |names| ==> t[i] == TrimSpace(names[i]);
    assert (forall i :: 0 <= i < |names| ==> TrimSpace(names[i]) != "") <==> "" !in t;
  }

  lemma JoinFitsMeans(s: State, agents: nat)
    requires agents > 0
    ensures JoinFits(s, agents) <==>
      && (Rounds(s) > 1 ==>
            agents == 1 && TrimSpace(s.join.strategy) in {"", "rollouts"} && s.join.minSuccesses <= Rounds(s))
      && (Rounds(s) == 1 ==> TrimSpace(s.join.strategy) in {"", "all_passed", "any_passed"} && s.join.minSuccesses == 0)
  {
    StrategiesDiffer();
  }

  lemma StrategiesDiffer()
    ensures ROLLOUTS != "" && ALL_PASSED != "" && ANY_PASSED != ""
    ensures ROLLOUTS != ALL_PASSED && ROLLOUTS != ANY_PASSED && ALL_PASSED != ANY_PASSED
  {
    assert |ROLLOUTS| != |ALL_PASSED| && |ROLLOUTS| != |ANY_PASSED| && ALL_PASSED[1] != ANY_PASSED[1];
  }

  lemma AcceptedByParts(s: State)
    ensures NormalState(s).Ok? <==>
      && Rounds(s) <= 5
      && (Named(s) == [] ==> Rounds(s) == 1)
      && (Named(s) != [] ==> Usable(Trimmed(Named(s))) && JoinFits(s, |Named(s)|))
  {
    TrimmedTwice(Named(s));
    StrategiesAreSolid();
  }

  /** What an accepted state becomes, field by field. */
  lemma StateBecomes(s: State)
    requires NormalState(s).Ok?
    ensures var b := NormalState(s).value;
      var named := if s.agents == [] && TrimSpace(s.agent) != "" then [s.agent] else s.agents;
      var strategy := TrimSpace(s.join.strategy);
      && b.agent == s.agent && b.rest == s.rest
      && b.rollouts == (if s.rollouts <= 0 then 1 else s.rollouts)
      && |b.agents| == |named| && (forall i :: 0 <= i < |named| ==> b.agents[i] == TrimSpace(named[i]))
      && (named == [] ==> b.join == Join("", 0))
      && (named != [] ==>
            && b.join.strategy ==
                 (if strategy != "" then strategy else if b.rollouts > 1 then "rollouts" else "all_passed")
            && b.join.minSuccesses ==
                 (if b.rollouts > 1 && s.join.minSuccesses <= 0 then b.rollouts else s.join.minSuccesses))
  {}

  predicate JoinFits(s: State, agents: nat) {
    if Rounds(s) > 1 then agents == 1 && Strategy(s) == ROLLOUTS && Needed(s) <= Rounds(s)
    else Strategy(s) in {ALL_PASSED, ANY_PASSED} && s.join.minSuccesses == 0
  }

  /** One round of the loop over states; None is a nil state. */
  method NormalizeState(state: Option<State>) returns (r: Result<State>)
    ensures r == NormalEntry(state)
  {
    if state.None? {
      return Err;
    }
    var s := state.value;
    AcceptedByParts(s);
    if |s.agents| == 0 && TrimSpace(s.agent) != "" {
      s := s.(agents := [s.agent]);
    }
    if s.rollouts <= 0 {
      s := s.(rollouts := 1);
    }
    if s.rollouts > 5 {
      return Err;
    }
    if |s.agents| == 0 {
      s := s.(join := Join("", 0));
      if s.rollouts > 1 {
        return Err;
      }
      return Ok(s);
    }
    var join := NormalizeJoin(s);
    if join.Err? {
      return Err;
    }
    var agents := TrimAgents(s.agents);
    if agents.Err? {
      return Err;
    }
    return Ok(s.(join := join.value, agents := agents.value));
  }

  /** The join rules for a state whose agents and rollouts are filled in. */
  method NormalizeJoin(s: State) returns (r: Result<Join>)
    requires s.rollouts >= 1
    ensures r == if JoinFits(s, |s.agents|) then Ok(Join(Strategy(s), Needed(s))) else Err
  {
    var join := TrimSpace(s.join.strategy);
    var min := s.join.minSuccesses;
    if s.rollouts > 1 {
      if join == "" {
        join := ROLLOUTS;
      }
      if |s.agents| != 1 || join != ROLLOUTS {
        return Err;
      }
      if min <= 0 {
        min := s.rollouts;
      }
      if min > s.rollouts {
        return Err;
      }
    } else {
      if join == "" {
        join := ALL_PASSED;
      }
      if join != ALL_PASSED && join != ANY_PASSED {
        return Err;
      }
      if min != 0 {
        return Err;
      }
    }
    return Ok(Join(join, min));
  }

  /** None is a nil state. */
  function NormalEntry(state: Option<State>): Result<State> {
    if state.Some? then NormalState(state.value) else Err
  }

  /** The states in `done` are normalised. */
  ghost predicate DoneSoFar(states: map<string, Option<State>>, done: map<string, State>) {
    forall n :: n in done ==> n in states && NormalEntry(states[n]) == Ok(done[n])
  }

  lemma DoneNext(states: map<string, Option<State>>, done: map<string, State>, name: string, s: State)
    requires DoneSoFar(states, done) && name in states && NormalEntry(states[name]) == Ok(s)
    ensures DoneSoFar(states, done[name := s])
  {}

  /** normalizeWorkflowStates: every state is normalised or the whole workflow is refused. */
  method NormalizeWorkflowStates(states: map<string, Option<State>>) returns (r: Result<map<string, State>>)
    ensures r.Ok? <==> forall n :: n in states ==> NormalEntry(states[n]).Ok?
    ensures r.Ok? ==> r.value.Keys == states.Keys && DoneSoFar(states, r.value)
  {
    var todo, done: map<string, State> := states.Keys, map[];
    while todo != {}
      invariant todo + done.Keys == states.Keys && DoneSoFar(states, done)
      decreases |todo|
    {
      var name :| name in todo;
      var s := NormalizeState(states[name]);
      if s.Err? {
        return Err;
      }
      DoneNext(states, done, name, s.value);
      todo := todo - {name};
      done := done[name := s.value];
    }
    return Ok(done);
  }
}
