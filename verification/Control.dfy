/** The agent control loop: run, observe, compare with the objective, decide. */
module Control {
  import opened Text
  import opened Sorting

  datatype Objective = Objective(branchPushed: bool, prOpen: bool, labelTarget: string, labelNotEqual: string,
                                 issueCommented: bool)

  datatype Observation = Observation(branchPushed: bool, prOpen: bool, prNumber: int, labelCurrent: string,
                                     issueCommented: bool)

  datatype Delta = Delta(missing: seq<string>, met: seq<string>, allMet: bool)

  /** What an objective asks of the world. */
  predicate Satisfies(obj: Objective, obs: Observation) {
    && (obj.branchPushed ==> obs.branchPushed)
    && (obj.prOpen ==> obs.prOpen)
    && (obj.labelTarget != "" ==> obs.labelCurrent == obj.labelTarget)
    && (obj.labelNotEqual != "" ==> obs.labelCurrent != obj.labelNotEqual && obs.labelCurrent != "")
    && (obj.issueCommented ==> obs.issueCommented)
  }

  function Number(n: int): string {
    if n < 0 then "-" + Decimal(-n) else Decimal(n)
  }

  /** One condition of the objective: not wanted, met, or missing. */
  function Check(d: Delta, wanted: bool, ok: bool, met: string, missing: string): (r: Delta)
    ensures r.missing == [] <==> d.missing == [] && (wanted ==> ok)
  {
    if !wanted then d
    else if ok then d.(met := d.met + [met])
    else d.(missing := d.missing + [missing])
  }

  const NOTHING := Delta([], [], false)

  function BranchAndPR(obj: Objective, obs: Observation): (r: Delta)
    ensures r.missing == [] <==> (obj.branchPushed ==> obs.branchPushed) && (obj.prOpen ==> obs.prOpen)
  {
    Check(Check(NOTHING, obj.branchPushed, obs.branchPushed, "branch pushed", "branch not pushed"),
          obj.prOpen, obs.prOpen, "PR open (#" + Number(obs.prNumber) + ")", "PR not open")
  }

  predicate TargetReached(obj: Objective, obs: Observation) {
    obs.labelCurrent == obj.labelTarget
  }

  predicate LabelMoved(obj: Objective, obs: Observation) {
    obs.labelCurrent != obj.labelNotEqual && obs.labelCurrent != ""
  }

  /** `quote` is Go's %q. */
  function Labels(d: Delta, obj: Objective, obs: Observation, quote: string -> string): (r: Delta)
    ensures r.missing == [] <==> d.missing == [] && (obj.labelTarget != "" ==> TargetReached(obj, obs)) &&
                                 (obj.labelNotEqual != "" ==> LabelMoved(obj, obs))
  {
    Check(Check(d, obj.labelTarget != "", TargetReached(obj, obs), "label is " + obs.labelCurrent,
                "label is " + quote(obs.labelCurrent) + ", want " + quote(obj.labelTarget)),
          obj.labelNotEqual != "", LabelMoved(obj, obs),
          "label moved from " + obj.labelNotEqual + " to " + obs.labelCurrent,
          "label is still " + quote(obs.labelCurrent) + ", want any other status")
  }

  /** All met exactly when the objective holds. */
  function FeedbackOf(obj: Objective, obs: Observation, quote: string -> string): (r: Delta)
    ensures r.allMet <==> Satisfies(obj, obs)
  {
    var d := Check(Labels(BranchAndPR(obj, obs), obj, obs, quote),
                   obj.issueCommented, obs.issueCommented, "issue commented", "no comment posted on issue");
    d.(allMet := d.missing == [])
  }

  /** Feedback, appending to the delta condition by condition. */
  method Feedback(obj: Objective, obs: Observation, quote: string -> string) returns (d: Delta)
    ensures d == FeedbackOf(obj, obs, quote)
    ensures d.allMet <==> Satisfies(obj, obs)
  {
    d := NOTHING;
    if obj.branchPushed {
      if obs.branchPushed {
        d := d.(met := d.met + ["branch pushed"]);
      } else {
        d := d.(missing := d.missing + ["branch not pushed"]);
      }
    }
    if obj.prOpen {
      if obs.prOpen {
        d := d.(met := d.met + ["PR open (#" + Number(obs.prNumber) + ")"]);
      } else {
        d := d.(missing := d.missing + ["PR not open"]);
      }
    }
    assert d == BranchAndPR(obj, obs);
    d := AppendLabels(d, obj, obs, quote);
    if obj.issueCommented {
      if obs.issueCommented {
        d := d.(met := d.met + ["issue commented"]);
      } else {
        d := d.(missing := d.missing + ["no comment posted on issue"]);
      }
    }
    d := d.(allMet := |d.missing| == 0);
  }

  method AppendLabels(d0: Delta, obj: Objective, obs: Observation, quote: string -> string) returns (d: Delta)
    ensures d == Labels(d0, obj, obs, quote)
  {
    d := d0;
    if obj.labelTarget != "" {
      if obs.labelCurrent == obj.labelTarget {
        d := d.(met := d.met + ["label is " + obs.labelCurrent]);
      } else {
        d := d.(missing := d.missing + ["label is " + quote(obs.labelCurrent) + ", want " + quote(obj.labelTarget)]);
      }
    }
    if obj.labelNotEqual != "" {
      if obs.labelCurrent != obj.labelNotEqual && obs.labelCurrent != "" {
        d := d.(met := d.met + ["label moved from " + obj.labelNotEqual + " to " + obs.labelCurrent]);
      } else {
        d := d.(missing := d.missing + ["label is still " + quote(obs.labelCurrent) + ", want any other status"]);
      }
    }
  }

  function Lines(prefix: string, items: seq<string>): string {
    if items == [] then "" else Lines(prefix, items[..|items| - 1]) + "  " + prefix + " " + items[|items| - 1] + "\n"
  }

  function Head(repo: string, issue: int, branch: string): string {
    "Post-condition check for " + repo + "#" + Number(issue) + " (branch " + branch + "):\n"
  }

  function Tail(d: Delta): string {
    if d.missing != [] then "\nPlease address the missing conditions above." else ""
  }

  /** Delta.Message. */
  function Message(d: Delta, repo: string, issue: int, branch: string): string {
    Head(repo, issue, branch) + Lines("[ok]", d.met) + Lines("[MISSING]", d.missing) + Tail(d)
  }

  function When(b: bool, text: string): seq<string> {
    if b then [text] else []
  }

  function BranchText(ok: bool): string { if ok then "branch pushed" else "branch not pushed" }
  function PRText(ok: bool, n: int): string { if ok then "PR open (#" + Number(n) + ")" else "PR not open" }
  function CommentText(ok: bool): string { if ok then "issue commented" else "no comment posted on issue" }

  /** Which texts are listed, and in which order: branch, pull request, the two label conditions,
      comment, each if it is wanted and in the list it belongs to. */
  lemma FeedbackLists(obj: Objective, obs: Observation, quote: string -> string)
    ensures var d := FeedbackOf(obj, obs, quote);
            && d.missing == Listed(obj, obs, quote, false) && d.met == Listed(obj, obs, quote, true)
  {
    BranchLists(obj, obs);
    LabelLists(BranchAndPR(obj, obs), obj, obs, quote);
    CheckLists(Labels(BranchAndPR(obj, obs), obj, obs, quote), obj.issueCommented, obs.issueCommented,
               CommentText(true), CommentText(false));
  }

  function Listed(obj: Objective, obs: Observation, quote: string -> string, met: bool): seq<string> {
    FirstListed(obj, obs, met) + LabelsListed(obj, obs, quote, met) +
    When(obj.issueCommented && obs.issueCommented == met, CommentText(met))
  }

  function FirstListed(obj: Objective, obs: Observation, met: bool): seq<string> {
    When(obj.branchPushed && obs.branchPushed == met, BranchText(met)) +
    When(obj.prOpen && obs.prOpen == met, PRText(met, obs.prNumber))
  }

  function LabelsListed(obj: Objective, obs: Observation, quote: string -> string, met: bool): seq<string> {
    var still := obs.labelCurrent == obj.labelNotEqual || obs.labelCurrent == "";
    When(obj.labelTarget != "" && (obs.labelCurrent == obj.labelTarget) == met,
         if met then "label is " + obs.labelCurrent
         else "label is " + quote(obs.labelCurrent) + ", want " + quote(obj.labelTarget)) +
    When(obj.labelNotEqual != "" && !still == met,
         if met then "label moved from " + obj.labelNotEqual + " to " + obs.labelCurrent
         else "label is still " + quote(obs.labelCurrent) + ", want any other status")
  }

  lemma BranchLists(obj: Objective, obs: Observation)
    ensures BranchAndPR(obj, obs).missing == FirstListed(obj, obs, false)
    ensures BranchAndPR(obj, obs).met == FirstListed(obj, obs, true)
  {
    var d1 := Check(NOTHING, obj.branchPushed, obs.branchPushed, BranchText(true), BranchText(false));
    CheckLists(NOTHING, obj.branchPushed, obs.branchPushed, BranchText(true), BranchText(false));
    CheckLists(d1, obj.prOpen, obs.prOpen, PRText(true, obs.prNumber), PRText(false, obs.prNumber));
  }

  lemma CheckLists(d: Delta, wanted: bool, ok: bool, met: string, missing: string)
    ensures var r := Check(d, wanted, ok, met, missing);
            r.missing == d.missing + When(wanted && !ok, missing) && r.met == d.met + When(wanted && ok, met)
  {}

  lemma LabelLists(d: Delta, obj: Objective, obs: Observation, quote: string -> string)
    ensures Labels(d, obj, obs, quote).missing == d.missing + LabelsListed(obj, obs, quote, false)
    ensures Labels(d, obj, obs, quote).met == d.met + LabelsListed(obj, obs, quote, true)
  {
    var met, missing := "label is " + obs.labelCurrent,
                        "label is " + quote(obs.labelCurrent) + ", want " + quote(obj.labelTarget);
    CheckLists(d, obj.labelTarget != "", TargetReached(obj, obs), met, missing);
    CheckLists(Check(d, obj.labelTarget != "", TargetReached(obj, obs), met, missing),
               obj.labelNotEqual != "", LabelMoved(obj, obs),
               "label moved from " + obj.labelNotEqual + " to " + obs.labelCurrent,
               "label is still " + quote(obs.labelCurrent) + ", want any other status");
  }

  ghost predicate Mentions(text: string, part: string) {
    exists a, b :: text == a + part + b
  }

  lemma {:induction false} LinesMention(prefix: string, items: seq<string>, i: nat)
    requires i < |items|
    ensures Mentions(Lines(prefix, items), "  " + prefix + " " + items[i] + "\n")
  {
    var init, last := items[..|items| - 1], items[|items| - 1];
    var line := "  " + prefix + " " + last + "\n";
    assert Lines(prefix, items) == Lines(prefix, init) + line + "";
    if i == |items| - 1 {
    } else {
      LinesMention(prefix, init, i);
      var part := "  " + prefix + " " + items[i] + "\n";
      var a, b :| Lines(prefix, init) == a + part + b;
      assert Lines(prefix, items) == a + part + (b + line);
    }
  }

  /** The message an agent is resumed with names every condition, met or missing, as what it is. */
  lemma MessageMentions(d: Delta, repo: string, issue: int, branch: string, i: nat)
    ensures i < |d.met| ==> Mentions(Message(d, repo, issue, branch), "  " + "[ok]" + " " + d.met[i] + "\n")
    ensures i < |d.missing| ==>
      Mentions(Message(d, repo, issue, branch), "  " + "[MISSING]" + " " + d.missing[i] + "\n")
  {
    var head, tail := Head(repo, issue, branch), Tail(d);
    var oks, misses := Lines("[ok]", d.met), Lines("[MISSING]", d.missing);
    if i < |d.met| {
      LinesMention("[ok]", d.met, i);
      InMiddle(head, oks, misses, tail, "  " + "[ok]" + " " + d.met[i] + "\n");
    }
    if i < |d.missing| {
      LinesMention("[MISSING]", d.missing, i);
      MentionsWithin(head + oks, misses, tail, "  " + "[MISSING]" + " " + d.missing[i] + "\n");
    }
  }

  lemma InMiddle(a: string, b: string, c: string, d: string, part: string)
    requires Mentions(b, part)
    ensures Mentions(a + b + c + d, part)
  {
    MentionsWithin(a, b, c + d, part);
    assert a + b + c + d == a + b + (c + d);
  }

  lemma MentionsWithin(before: string, text: string, after: string, part: string)
    requires Mentions(text, part)
    ensures Mentions(before + text + after, part)
  {
    var a, b :| text == a + part + b;
    assert before + text + after == (before + a) + part + (b + after);
  }

  // ----- the policy -------------------------------------------------------------------

  datatype Action = Resume | Block | Complete

  lemma LessEqIsTotal()
    ensures TotalOrder(LessEq)
  {
    forall a, b ensures LessEq(a, b) || LessEq(b, a) { LessTrichotomy(a, b); }
    forall a, b | LessEq(a, b) && LessEq(b, a) ensures a == b { LessTrichotomy(a, b); }
    forall a, b, c | LessEq(a, b) && LessEq(b, c) ensures LessEq(a, c) {
      if a != b && b != c { LessTransitive(a, b, c); }
    }
  }

  /** Sorted copies compared position by position: equality of multisets. */
  method SameUnmet(a: Delta, b: Delta) returns (same: bool)
    ensures same <==> multiset(a.missing) == multiset(b.missing)
  {
    SortedCopiesDecide(a.missing, b.missing);
    if |a.missing| != |b.missing| {
      return false;
    }
    same := SameStrings(Sort(a.missing, LessEq), Sort(b.missing, LessEq));
  }

  method SameStrings(sa: seq<string>, sb: seq<string>) returns (same: bool)
    requires |sa| == |sb|
    ensures same <==> sa == sb
  {
    var i := 0;
    while i < |sa|
      invariant 0 <= i <= |sa| && sa[..i] == sb[..i]
    {
      if sa[i] != sb[i] {
        return false;
      }
      i := i + 1;
    }
    assert sa == sa[..i] && sb == sb[..i];
    return true;
  }

  lemma SortedCopiesDecide(a: seq<string>, b: seq<string>)
    ensures |Sort(a, LessEq)| == |a| && |Sort(b, LessEq)| == |b|
    ensures Sort(a, LessEq) == Sort(b, LessEq) <==> multiset(a) == multiset(b)
    ensures multiset(a) == multiset(b) ==> |a| == |b|
  {
    LessEqIsTotal();
    SortCanonical(a, b, LessEq);
    SortCorrect(a, LessEq);
    SortCorrect(b, LessEq);
    SameSize(a, Sort(a, LessEq));
    SameSize(b, Sort(b, LessEq));
    if multiset(a) == multiset(b) { SameSize(a, b); }
  }

  lemma SameSize(a: seq<string>, b: seq<string>)
    requires multiset(a) == multiset(b)
    ensures |a| == |b|
  {
    assert |a| == |multiset(a)| && |b| == |multiset(b)|;
  }

  function Budget(maxRounds: int): (m: int)
    ensures m >= 1
  {
    if maxRounds <= 0 then 5 else maxRounds
  }

  /** Stuck: the third round or later, and nothing changed since the previous one. */
  ghost predicate Stuck(deltas: seq<Delta>, i: nat)
    requires i < |deltas|
  {
    i >= 2 && multiset(deltas[i].missing) == multiset(deltas[i - 1].missing)
  }

  /** What round i (counted from 0) of a history of observations must lead to. */
  ghost function Verdict(maxRounds: int, deltas: seq<Delta>, i: nat): Action
    requires i < |deltas|
  {
    if deltas[i].allMet then Complete
    else if i + 1 >= Budget(maxRounds) || Stuck(deltas, i) then Block
    else Resume
  }

  method Decide(maxRounds: int, delta: Delta, round: nat, prev: Option<Delta>, ghost deltas: seq<Delta>)
    returns (action: Action)
    requires 1 <= round == |deltas| && deltas[round - 1] == delta
    requires prev == if round == 1 then None else Some(deltas[round - 2])
    ensures action == Verdict(maxRounds, deltas, round - 1)
  {
    if delta.allMet {
      return Complete;
    }
    if round >= Budget(maxRounds) {
      return Block;
    }
    if prev.Some? {
      var same := SameUnmet(delta, prev.value);
      if same && round >= 3 {
        return Block;
      }
    }
    return Resume;
  }

  /** Round i misses the same conditions as the round before, as multisets. */
  ghost predicate SameMissing(deltas: seq<Delta>, i: int) {
    0 < i < |deltas| && multiset(deltas[i].missing) == multiset(deltas[i - 1].missing)
  }

  // ----- the loop ---------------------------------------------------------------------

  datatype Config = Config(repo: string, issue: int, branch: string, objective: Objective, maxRounds: int)

  datatype Reply<T> = Got(value: T) | Err(message: string)

  datatype Call = Call(prompt: string, resume: string)

  datatype Outcome = Outcome(action: Action, rounds: nat, deltas: seq<Delta>, failed: bool)

  /** Call i starts fresh or resumes the session of call i - 1 with its feedback. */
  ghost predicate CallsOk(agent: (nat, Call) -> Reply<string>, message: Delta -> string, calls: seq<Call>,
                          deltas: seq<Delta>)
  {
    forall i :: 0 <= i < |calls| ==> CallOk(agent, message, calls, deltas, i)
  }

  ghost predicate CallOk(agent: (nat, Call) -> Reply<string>, message: Delta -> string, calls: seq<Call>,
                         deltas: seq<Delta>, i: nat)
    requires i < |calls|
  {
    if i == 0 then calls[0] == Call("", "")
    else
      && i - 1 < |deltas| && calls[i].prompt == message(deltas[i - 1])
      && agent(i - 1, calls[i - 1]) == Got(calls[i].resume)
  }

  /** Every recorded delta is the feedback on what the observer saw in that round. */
  ghost predicate DeltasOk(observe: nat -> Reply<Observation>, feedback: Observation -> Delta, deltas: seq<Delta>)
  {
    forall i :: 0 <= i < |deltas| ==> observe(i).Got? && deltas[i] == feedback(observe(i).value)
  }

  /** Everything a finished run promises about its outcome and its calls. */
  ghost predicate RunOk(maxRounds: int, agent: (nat, Call) -> Reply<string>, observe: nat -> Reply<Observation>,
                        feedback: Observation -> Delta, message: Delta -> string, out: Outcome, calls: seq<Call>)
  {
    && |calls| == out.rounds && 1 <= out.rounds <= Budget(maxRounds)
    && |out.deltas| == (if out.failed then out.rounds - 1 else out.rounds)
    && CallsOk(agent, message, calls, out.deltas) && DeltasOk(observe, feedback, out.deltas)
    && (forall i :: 0 <= i < out.rounds - 1 ==> Verdict(maxRounds, out.deltas, i) == Resume)
    && (!out.failed ==> out.action == Verdict(maxRounds, out.deltas, out.rounds - 1) != Resume)
    && (out.failed ==> out.action == Block)
    && (out.failed <==> agent(out.rounds - 1, calls[out.rounds - 1]).Err? || observe(out.rounds - 1).Err?)
  }

  /** The loop, for every agent, observer, feedback and rendering; the first argument of an agent
      call is its round, so an agent may answer differently each time. */
  method Loop(maxRounds: int, agent: (nat, Call) -> Reply<string>, observe: nat -> Reply<Observation>,
              feedback: Observation -> Delta, message: Delta -> string)
    returns (out: Outcome, calls: seq<Call>)
    ensures RunOk(maxRounds, agent, observe, feedback, message, out, calls)
  {
    var prev: Option<Delta> := None;
    var session := "";
    var deltas: seq<Delta> := [];
    var round := 0;
    calls := [];
    while true
      invariant 0 <= round < Budget(maxRounds) && |deltas| == round
      invariant prev == if round == 0 then None else Some(deltas[round - 1])
      invariant Going(maxRounds, agent, observe, feedback, message, calls, deltas, session)
      decreases Budget(maxRounds) - round
    {
      var prompt := "";
      if round > 0 && prev.Some? {
        prompt := message(prev.value);
      }
      var call := if round == 0 then Call("", "") else Call(prompt, session);
      CallsExtend(agent, message, calls, deltas, call);
      var answer := agent(round, call);
      calls := calls + [call];
      if answer.Err? {
        return Outcome(Block, round + 1, deltas, true), calls;
      }
      session := answer.value;
      var obs := observe(round);
      if obs.Err? {
        return Outcome(Block, round + 1, deltas, true), calls;
      }
      var delta := feedback(obs.value);
      RoundEnds(maxRounds, agent, observe, feedback, message, calls, deltas, session, delta);
      deltas := deltas + [delta];
      var action := Decide(maxRounds, delta, round + 1, prev, deltas);
      if action != Resume {
        return Outcome(action, round + 1, deltas, false), calls;
      }
      prev := Some(delta);
      round := round + 1;
    }
  }

  /** Between two rounds: every round so far was made, observed and told to go on. */
  ghost predicate Going(maxRounds: int, agent: (nat, Call) -> Reply<string>, observe: nat -> Reply<Observation>,
                        feedback: Observation -> Delta, message: Delta -> string, calls: seq<Call>,
                        deltas: seq<Delta>, session: string)
  {
    && |calls| == |deltas|
    && (deltas != [] ==> agent(|deltas| - 1, calls[|deltas| - 1]) == Got(session))
    && CallsOk(agent, message, calls, deltas) && DeltasOk(observe, feedback, deltas)
    && AllResume(maxRounds, deltas, |deltas|)
  }

  ghost predicate AllResume(maxRounds: int, deltas: seq<Delta>, n: int) {
    forall i :: 0 <= i < n && i < |deltas| ==> Verdict(maxRounds, deltas, i) == Resume
  }

  /** A round whose call was answered and whose observation succeeded. */
  lemma RoundEnds(maxRounds: int, agent: (nat, Call) -> Reply<string>, observe: nat -> Reply<Observation>,
                  feedback: Observation -> Delta, message: Delta -> string, calls: seq<Call>,
                  deltas: seq<Delta>, session: string, delta: Delta)
    requires |calls| == |deltas| + 1 && CallsOk(agent, message, calls, deltas) && DeltasOk(observe, feedback, deltas)
    requires agent(|deltas|, calls[|deltas|]) == Got(session) && AllResume(maxRounds, deltas, |deltas|)
    requires observe(|deltas|).Got? && delta == feedback(observe(|deltas|).value)
    ensures CallsOk(agent, message, calls, deltas + [delta]) && DeltasOk(observe, feedback, deltas + [delta])
    ensures AllResume(maxRounds, deltas + [delta], |deltas|)
    ensures Verdict(maxRounds, deltas + [delta], |deltas|) == Resume ==>
              Going(maxRounds, agent, observe, feedback, message, calls, deltas + [delta], session)
  {
    VerdictPrefix(maxRounds, deltas, delta);
    CallsGrow(agent, message, calls, deltas, delta);
  }

  lemma CallsExtend(agent: (nat, Call) -> Reply<string>, message: Delta -> string, calls: seq<Call>,
                    deltas: seq<Delta>, call: Call)
    requires CallsOk(agent, message, calls, deltas) && |calls| == |deltas|
    requires if calls == [] then call == Call("", "")
             else
               && call.prompt == message(deltas[|deltas| - 1])
               && agent(|calls| - 1, calls[|calls| - 1]) == Got(call.resume)
    ensures CallsOk(agent, message, calls + [call], deltas)
  {
    forall i | 0 <= i < |calls + [call]| ensures CallOk(agent, message, calls + [call], deltas, i) {
      if i < |calls| { assert CallOk(agent, message, calls, deltas, i); }
    }
  }

  lemma CallsGrow(agent: (nat, Call) -> Reply<string>, message: Delta -> string, calls: seq<Call>,
                  deltas: seq<Delta>, delta: Delta)
    requires CallsOk(agent, message, calls, deltas)
    ensures CallsOk(agent, message, calls, deltas + [delta])
  {
    forall i | 0 <= i < |calls| ensures CallOk(agent, message, calls, deltas + [delta], i) {
      assert CallOk(agent, message, calls, deltas, i);
    }
  }

  lemma VerdictPrefix(maxRounds: int, deltas: seq<Delta>, delta: Delta)
    ensures forall i :: 0 <= i < |deltas| ==> Verdict(maxRounds, deltas + [delta], i) == Verdict(maxRounds, deltas, i)
  {
    forall i | 0 <= i < |deltas| ensures Verdict(maxRounds, deltas + [delta], i) == Verdict(maxRounds, deltas, i) {
      assert (deltas + [delta])[i] == deltas[i];
      if i > 0 { assert (deltas + [delta])[i - 1] == deltas[i - 1]; }
    }
  }

  function FeedbackFor(cfg: Config, quote: string -> string): Observation -> Delta {
    obs => FeedbackOf(cfg.objective, obs, quote)
  }

  function MessageFor(cfg: Config): Delta -> string {
    d => Message(d, cfg.repo, cfg.issue, cfg.branch)
  }

  /** Run: at most the budget of agent calls; completes exactly when the last observation meets the
      objective and no earlier one did; blocks without an error only at the budget or when stuck. */
  method Run(cfg: Config, agent: (nat, Call) -> Reply<string>, observe: nat -> Reply<Observation>,
             quote: string -> string)
    returns (out: Outcome, calls: seq<Call>)
    ensures RunOk(cfg.maxRounds, agent, observe, FeedbackFor(cfg, quote), MessageFor(cfg), out, calls)
    ensures !out.failed ==> observe(out.rounds - 1).Got?
    ensures !out.failed ==> (out.action == Complete <==> Satisfies(cfg.objective, observe(out.rounds - 1).value))
    ensures forall i :: 0 <= i < out.rounds - 1 ==> observe(i).Got? && !Satisfies(cfg.objective, observe(i).value)
    ensures out.rounds <= if cfg.maxRounds <= 0 then 5 else cfg.maxRounds
    ensures !out.failed && out.action == Block ==>
      || out.rounds == (if cfg.maxRounds <= 0 then 5 else cfg.maxRounds)
      || (out.rounds >= 3 && SameMissing(out.deltas, out.rounds - 1))
    ensures forall i :: 2 <= i < out.rounds - 1 ==> !SameMissing(out.deltas, i)
    ensures !out.failed ==> out.action == Complete || out.action == Block
    ensures out.failed ==> out.action == Block
  {
    out, calls := Loop(cfg.maxRounds, agent, observe, FeedbackFor(cfg, quote), MessageFor(cfg));
    OutcomeMeaning(cfg, agent, observe, quote, out, calls);
    OutcomeStops(cfg.maxRounds, out);
  }

  /** A run that goes on past round i was neither at its budget nor stuck there; one that blocks is. */
  lemma OutcomeStops(maxRounds: int, out: Outcome)
    requires 1 <= out.rounds <= Budget(maxRounds) && |out.deltas| >= out.rounds - 1
    requires !out.failed ==> |out.deltas| == out.rounds && out.action == Verdict(maxRounds, out.deltas, out.rounds - 1)
    requires forall i :: 0 <= i < out.rounds - 1 ==> Verdict(maxRounds, out.deltas, i) == Resume
    ensures out.rounds <= if maxRounds <= 0 then 5 else maxRounds
    ensures !out.failed && out.action == Block ==>
      || out.rounds == (if maxRounds <= 0 then 5 else maxRounds)
      || (out.rounds >= 3 && SameMissing(out.deltas, out.rounds - 1))
    ensures forall i :: 2 <= i < out.rounds - 1 ==> !SameMissing(out.deltas, i)
  {
    forall i | 2 <= i < out.rounds - 1 ensures !SameMissing(out.deltas, i) {
      assert Verdict(maxRounds, out.deltas, i) == Resume;
    }
  }

  lemma DeltaMeaning(cfg: Config, observe: nat -> Reply<Observation>, quote: string -> string, deltas: seq<Delta>,
                     i: nat)
    requires DeltasOk(observe, FeedbackFor(cfg, quote), deltas) && i < |deltas|
    ensures observe(i).Got? && (deltas[i].allMet <==> Satisfies(cfg.objective, observe(i).value))
  {
    assert deltas[i] == FeedbackFor(cfg, quote)(observe(i).value);
  }

  lemma OutcomeMeaning(cfg: Config, agent: (nat, Call) -> Reply<string>, observe: nat -> Reply<Observation>,
                       quote: string -> string,
                       out: Outcome, calls: seq<Call>)
    requires RunOk(cfg.maxRounds, agent, observe, FeedbackFor(cfg, quote), MessageFor(cfg), out, calls)
    ensures !out.failed ==> observe(out.rounds - 1).Got?
    ensures !out.failed ==> (out.action == Complete <==> Satisfies(cfg.objective, observe(out.rounds - 1).value))
    ensures forall i :: 0 <= i < out.rounds - 1 ==> observe(i).Got? && !Satisfies(cfg.objective, observe(i).value)
  {
    if !out.failed { DeltaMeaning(cfg, observe, quote, out.deltas, out.rounds - 1); }
    forall i | 0 <= i < out.rounds - 1 ensures observe(i).Got? && !Satisfies(cfg.objective, observe(i).value) {
      DeltaMeaning(cfg, observe, quote, out.deltas, i);
      assert Verdict(cfg.maxRounds, out.deltas, i) == Resume;
    }
  }
}
