/** The verdict of one issue: cycle membership, per-dependency severities, override label. */
module Verdict {
  import opened Text
  import opened Declaration

  const OVERRIDE_LABEL := "override:force-unblock"
  const STATUS_DONE := "status:done"

  datatype Verdict = Ready | Blocked | NeedsHuman | Override

  /** Severity of a verdict; the override is outside the scale and handled apart. */
  function Level(v: Verdict): int {
    match v case Ready => 0 case Override => 0 case Blocked => 1 case NeedsHuman => 2
  }

  /** What reading an issue from the host reports. */
  datatype Detail = Detail(closed: bool, closedByLinkedPR: bool)

  /** A cached open issue: its labels and, if its body has one, its depends_on block. */
  datatype Issue = Issue(labels: seq<string>, block: Option<seq<string>>)

  /** What one evaluation sees: the open cached issues, and the issues a read succeeds for. */
  datatype World = World(repo: string, open: map<int, Issue>, readable: map<int, Detail>)

  function DepsOf(repo: string, issue: Issue): seq<Dependency> {
    match issue.block
    case None => []
    case Some(entries) => Declared(repo, entries)
  }

  function ReadSeverity(detail: Option<Detail>): int {
    match detail
    case Some(d) => if d.closed && d.closedByLinkedPR then 0 else if d.closed then 1 else 2
    case None => 2
  }

  function Read(w: World, n: int): Option<Detail> {
    if n in w.readable then Some(w.readable[n]) else None
  }

  /** How much one dependency holds its issue back. */
  function Severity(w: World, d: Dependency): int {
    if d.status != Active then 2
    else if d.issue in w.open then (if STATUS_DONE in w.open[d.issue].labels then 0 else 1)
    else ReadSeverity(Read(w, d.issue))
  }

  ghost predicate SomeSeverity(w: World, deps: seq<Dependency>, level: int) {
    exists i :: 0 <= i < |deps| && Severity(w, deps[i]) == level
  }

  /** The verdict as a maximum: independent of the order in which dependencies are met. */
  ghost function Worst(w: World, deps: seq<Dependency>, flagged: bool): Verdict {
    if flagged || SomeSeverity(w, deps, 2) then NeedsHuman
    else if SomeSeverity(w, deps, 1) then Blocked
    else Ready
  }

  ghost function VerdictOf(w: World, issue: Issue, flagged: bool): Verdict {
    if OVERRIDE_LABEL in issue.labels then Override else Worst(w, DepsOf(w.repo, issue), flagged)
  }

  /** The shared cache of closed-issue reads holds nothing but successful reads. */
  ghost predicate CacheOk(w: World, cache: map<int, Detail>) {
    forall n :: n in cache ==> n in w.readable && w.readable[n] == cache[n]
  }

  /** buildResolveResult: a fold over the declared dependencies that shares `cache` with the
      other issues of the same evaluation. */
  method BuildResolveResult(w: World, issue: Issue, deps: seq<Dependency>, cyclePath: seq<int>, cache: map<int, Detail>)
    returns (verdict: Verdict, cache': map<int, Detail>)
    requires CacheOk(w, cache) && forall i :: 0 <= i < |deps| ==> WellFormed(w.repo, deps[i])
    ensures CacheOk(w, cache')
    ensures verdict == if OVERRIDE_LABEL in issue.labels then Override else Worst(w, deps, |cyclePath| > 0)
  {
    verdict, cache' := Ready, cache;
    if |cyclePath| > 0 {
      verdict := NeedsHuman;
    }
    var i := 0;
    while i < |deps|
      invariant 0 <= i <= |deps|
      invariant CacheOk(w, cache')
      invariant verdict == Worst(w, deps[..i], |cyclePath| > 0)
    {
      var sev;
      sev, cache' := Weigh(w, deps[i], cache');
      WorstStep(w, deps, i, |cyclePath| > 0);
      if sev == 2 {
        verdict := NeedsHuman;
      } else if sev == 1 && verdict == Ready {
        verdict := Blocked;
      }
      i := i + 1;
    }
    assert deps[..|deps|] == deps;
    if OVERRIDE_LABEL in issue.labels {
      verdict := Override;
    }
  }

  /** One dependency: statuses first, then the open cache, then the read cache, then a read. */
  method Weigh(w: World, d: Dependency, cache: map<int, Detail>) returns (sev: int, cache': map<int, Detail>)
    requires CacheOk(w, cache) && WellFormed(w.repo, d)
    ensures CacheOk(w, cache') && sev == Severity(w, d)
  {
    cache' := cache;
    if d.status != Active {
      return 2, cache';
    }
    if d.issue in w.open && d.repo == w.repo {
      return if STATUS_DONE in w.open[d.issue].labels then 0 else 1, cache';
    }
    var detail: Option<Detail> := if d.issue in cache then Some(cache[d.issue]) else None;
    if detail.None? && d.repo == w.repo && d.issue in w.readable {
      detail := Some(w.readable[d.issue]);
      cache' := cache[d.issue := w.readable[d.issue]];
    }
    sev := ReadSeverity(detail);
  }

  lemma WorstStep(w: World, deps: seq<Dependency>, i: int, flagged: bool)
    requires 0 <= i < |deps|
    ensures Worst(w, deps[..i + 1], flagged) ==
            if Severity(w, deps[i]) == 2 then NeedsHuman
            else if Severity(w, deps[i]) == 1 && Worst(w, deps[..i], flagged) == Ready then Blocked
            else Worst(w, deps[..i], flagged)
  {
    SomeStep(w, deps, i, 2);
    SomeStep(w, deps, i, 1);
  }

  lemma SomeStep(w: World, deps: seq<Dependency>, i: int, level: int)
    requires 0 <= i < |deps|
    ensures SomeSeverity(w, deps[..i + 1], level) <==>
      SomeSeverity(w, deps[..i], level) || Severity(w, deps[i]) == level
  {
    var p, q := deps[..i + 1], deps[..i];
    if SomeSeverity(w, q, level) {
      var k :| 0 <= k < |q| && Severity(w, q[k]) == level;
      assert p[k] == q[k];
    }
    if SomeSeverity(w, p, level) && Severity(w, deps[i]) != level {
      var k :| 0 <= k < |p| && Severity(w, p[k]) == level;
      assert q[k] == p[k];
    }
    if Severity(w, deps[i]) == level { assert p[i] == deps[i]; }
  }
}
