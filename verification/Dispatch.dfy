/** What the resolver and the dispatch gate guarantee together. */
module Dispatch {
  import opened Text
  import opened Graph
  import opened CycleDetection
  import opened Declaration
  import opened Verdict
  import opened Resolver

  // ----- the gate -------------------------------------------------------------------

  datatype GateResult = GateResult(blocked: bool, verdict: Option<Verdict>, failed: bool)

  /** IsBlocked; `store` is absent when the gate has no store, `readable` is whether the
      query succeeds. */
  function IsBlocked(store: Option<map<int, Row>>, readable: bool, n: int): GateResult {
    if store.None? then GateResult(false, None, false)
    else if !readable then GateResult(false, None, true)
    else if n !in store.value then GateResult(false, None, false)
    else match store.value[n].verdict
         case Blocked => GateResult(true, Some(Blocked), false)
         case NeedsHuman => GateResult(true, Some(NeedsHuman), false)
         case v => GateResult(false, Some(v), false)
  }

  /** A dependency that no longer holds anything back. */
  ghost predicate Resolved(w: World, d: Dependency) {
    && d.status == Active
    && if d.issue in w.open then STATUS_DONE in w.open[d.issue].labels
       else d.issue in w.readable && w.readable[d.issue].closed && w.readable[d.issue].closedByLinkedPR
  }

  ghost predicate EntriesResolved(w: World, issue: Issue) {
    issue.block.Some? ==> forall e :: e in issue.block.value ==> Resolved(w, NormalizeDependency(w.repo, e))
  }

  lemma SeverityZero(w: World, d: Dependency)
    ensures Severity(w, d) in {0, 1, 2} && (Severity(w, d) == 0 <==> Resolved(w, d))
  {}

  lemma WorstIsReady(w: World, deps: seq<Dependency>, flagged: bool)
    ensures Worst(w, deps, flagged) == Ready <==> !flagged && AllResolved(w, deps)
  {
    forall d ensures Severity(w, d) in {0, 1, 2} && (Severity(w, d) == 0 <==> Resolved(w, d)) { SeverityZero(w, d); }
    if !AllResolved(w, deps) {
      var d :| d in deps && !Resolved(w, d);
      var i :| 0 <= i < |deps| && deps[i] == d;
    }
  }

  lemma ResolvedByMeaning(w: World, a: Dependency, b: Dependency)
    requires SameMeaning(a, b)
    ensures Resolved(w, a) <==> Resolved(w, b)
    ensures Severity(w, a) == Severity(w, b)
  {}

  ghost predicate AllResolved(w: World, deps: seq<Dependency>) {
    forall d :: d in deps ==> Resolved(w, d)
  }

  lemma DeclaredFromEntries(w: World, entries: seq<string>, d: Dependency)
    requires forall e :: e in entries ==> Resolved(w, NormalizeDependency(w.repo, e))
    requires d in Declared(w.repo, entries)
    ensures Resolved(w, d)
  {
    DeclaredComesFromEntry(w.repo, entries, d);
  }

  lemma EntryFromDeclared(w: World, entries: seq<string>, e: string)
    requires AllResolved(w, Declared(w.repo, entries)) && e in entries
    ensures Resolved(w, NormalizeDependency(w.repo, e))
  {
    var k := EntryIsDeclared(w.repo, entries, e);
    ResolvedByMeaning(w, k, NormalizeDependency(w.repo, e));
  }

  /** De-duplication and sorting lose no condition. */
  lemma DeclaredResolvedIff(w: World, issue: Issue)
    ensures AllResolved(w, DepsOf(w.repo, issue)) <==> EntriesResolved(w, issue)
  {
    if issue.block.Some? {
      var entries := issue.block.value;
      if EntriesResolved(w, issue) {
        forall d | d in DepsOf(w.repo, issue) ensures Resolved(w, d) { DeclaredFromEntries(w, entries, d); }
      }
      if AllResolved(w, DepsOf(w.repo, issue)) {
        forall e | e in entries ensures Resolved(w, NormalizeDependency(w.repo, e)) {
          EntryFromDeclared(w, entries, e);
        }
      }
    }
  }

  lemma NoBlockNoCycle(w: World, n: int)
    requires n in w.open && w.open[n].block.None?
    ensures n !in Cycles(GraphOf(w))
  {
    if n in Cycles(GraphOf(w)) {
      CyclesSound(GraphOf(w), n);
      var c := Cycles(GraphOf(w))[n];
      CycleNodesAreKeys(GraphOf(w), c);
    }
  }

  /** After a completed evaluation the gate is open for an issue exactly when it carries the
      override label, or it is on no recorded cycle and every entry it declares is resolved. */
  lemma GateOpenIff(w: World, version: int, rows: map<int, Row>, n: int)
    requires n in w.open
    ensures !IsBlocked(Some(After(w, version, rows, w.open.Keys)), true, n).blocked <==>
            OVERRIDE_LABEL in w.open[n].labels || (n !in Cycles(GraphOf(w)) && EntriesResolved(w, w.open[n]))
  {
    GateFollowsVerdict(w, version, rows, n);
    WorstIsReady(w, DepsOf(w.repo, w.open[n]), n in Cycles(GraphOf(w)));
    DeclaredResolvedIff(w, w.open[n]);
  }

  lemma GateFollowsVerdict(w: World, version: int, rows: map<int, Row>, n: int)
    requires n in w.open
    ensures IsBlocked(Some(After(w, version, rows, w.open.Keys)), true, n).blocked <==> IsGated(NewVerdict(w, n))
  {
    var after := After(w, version, rows, w.open.Keys);
    if n in after {
      assert after[n] == Verdicts(w, version)[n];
    } else {
      assert n !in Blocks(w);
      NoBlockNoCycle(w, n);
    }
  }

  // ----- each verdict, from the entries and what is known of the issues they name -------

  /** Not a reference to an issue of this repository, or to one that is neither open nor read as
      closed. */
  ghost predicate Alarming(w: World, d: Dependency) {
    || d.status != Active
    || (d.issue !in w.open && !(d.issue in w.readable && w.readable[d.issue].closed))
  }

  /** A reference to an open issue that is not done, or to one closed without a linked pull request. */
  ghost predicate Holding(w: World, d: Dependency) {
    && d.status == Active
    && if d.issue in w.open then STATUS_DONE !in w.open[d.issue].labels
       else d.issue in w.readable && w.readable[d.issue].closed && !w.readable[d.issue].closedByLinkedPR
  }

  ghost predicate SomeAlarming(w: World, issue: Issue) {
    issue.block.Some? && exists e :: e in issue.block.value && Alarming(w, NormalizeDependency(w.repo, e))
  }

  ghost predicate SomeHolding(w: World, issue: Issue) {
    issue.block.Some? && exists e :: e in issue.block.value && Holding(w, NormalizeDependency(w.repo, e))
  }

  lemma SeverityMeans(w: World, d: Dependency)
    ensures Severity(w, d) == 2 <==> Alarming(w, d)
    ensures Severity(w, d) == 1 <==> Holding(w, d)
  {}

  /** Some declared dependency has a severity exactly if some entry's own meaning has it. */
  lemma EntrySeverity(w: World, issue: Issue, level: int)
    ensures SomeSeverity(w, DepsOf(w.repo, issue), level) <==>
            && issue.block.Some?
            && exists e :: e in issue.block.value && Severity(w, NormalizeDependency(w.repo, e)) == level
  {
    if issue.block.Some? {
      var entries, deps := issue.block.value, DepsOf(w.repo, issue);
      if SomeSeverity(w, deps, level) {
        var i :| 0 <= i < |deps| && Severity(w, deps[i]) == level;
        DeclaredComesFromEntry(w.repo, entries, deps[i]);
      }
      forall e | e in entries && Severity(w, NormalizeDependency(w.repo, e)) == level
        ensures SomeSeverity(w, deps, level)
      {
        var k := EntryIsDeclared(w.repo, entries, e);
        ResolvedByMeaning(w, k, NormalizeDependency(w.repo, e));
        var j :| 0 <= j < |deps| && deps[j] == k;
      }
    }
  }

  lemma SomeAlarmingIff(w: World, issue: Issue)
    ensures SomeAlarming(w, issue) <==> SomeSeverity(w, DepsOf(w.repo, issue), 2)
    ensures SomeHolding(w, issue) <==> SomeSeverity(w, DepsOf(w.repo, issue), 1)
  {
    EntrySeverity(w, issue, 2);
    EntrySeverity(w, issue, 1);
    forall d ensures (Severity(w, d) == 2 <==> Alarming(w, d)) && (Severity(w, d) == 1 <==> Holding(w, d)) {
      SeverityMeans(w, d);
    }
  }

  /** needs_human: no override, and a recorded cycle or an alarming entry. */
  lemma NeedsHumanIff(w: World, n: int)
    requires n in w.open
    ensures NewVerdict(w, n) == NeedsHuman <==>
            OVERRIDE_LABEL !in w.open[n].labels && (n in Cycles(GraphOf(w)) || SomeAlarming(w, w.open[n]))
  {
    SomeAlarmingIff(w, w.open[n]);
  }

  /** blocked: no override, none of that, and an entry that holds the issue back. */
  lemma BlockedIff(w: World, n: int)
    requires n in w.open
    ensures NewVerdict(w, n) == Blocked <==>
            && OVERRIDE_LABEL !in w.open[n].labels && n !in Cycles(GraphOf(w))
            && !SomeAlarming(w, w.open[n]) && SomeHolding(w, w.open[n])
  {
    SomeAlarmingIff(w, w.open[n]);
  }

  /** override: the label; ready: nothing of all this. */
  lemma OverrideAndReadyIff(w: World, n: int)
    requires n in w.open
    ensures NewVerdict(w, n) == Override <==> OVERRIDE_LABEL in w.open[n].labels
    ensures NewVerdict(w, n) == Ready <==>
            && OVERRIDE_LABEL !in w.open[n].labels && n !in Cycles(GraphOf(w))
            && !SomeAlarming(w, w.open[n]) && !SomeHolding(w, w.open[n])
  {
    SomeAlarmingIff(w, w.open[n]);
  }

  /** The edges of the graph are the active references to issues of the repository. */
  lemma GraphEdgeIff(w: World, a: int, b: int)
    requires w.repo != ""
    ensures Edge(GraphOf(w), a, b) <==>
            && a in w.open && w.open[a].block.Some?
            && exists e :: e in w.open[a].block.value && Names(w.repo, e, b)
  {
    if a in w.open && w.open[a].block.Some? {
      DeclaredEdgeIff(w.repo, w.open[a].block.value, b);
      assert b in EdgesOf(w, a) <==> Edge(GraphOf(w), a, b);
    }
  }

  ghost predicate Names(repo: string, e: string, b: int) {
    var d := NormalizeDependency(repo, e);
    d.status == Active && d.issue == b
  }

  lemma DeclaredEdgeIff(repo: string, entries: seq<string>, b: int)
    requires repo != ""
    ensures b in Edges(Declared(repo, entries), repo) <==> exists e :: e in entries && Names(repo, e, b)
  {
    var deps := Declared(repo, entries);
    EdgesMembers(deps, repo, b);
    if b in Edges(deps, repo) {
      var d :| d in deps && IsEdge(d, repo) && d.issue == b;
      DeclaredComesFromEntry(repo, entries, d);
      var e :| e in entries && NormalizeDependency(repo, e) == d;
      assert Names(repo, e, b);
    }
    forall e | e in entries && Names(repo, e, b) ensures b in Edges(deps, repo) {
      var k := EntryIsDeclared(repo, entries, e);
      DeclaredIsOrdered(repo, entries);
      var j :| 0 <= j < |deps| && deps[j] == k;
      assert WellFormed(repo, deps[j]);
      assert IsEdge(k, repo);
    }
  }

  // ----- what is stored ----------------------------------------------------------------

  /** After a completed evaluation an open issue has a row exactly if it has a block or had a row; the
      row holds its new verdict, whether its override label is set, and the version. Other rows stay. */
  lemma StoredRows(w: World, version: int, rows: map<int, Row>, n: int)
    ensures var after := After(w, version, rows, w.open.Keys);
            && (n in w.open ==> (n in after <==> n in rows || w.open[n].block.Some?))
            && (n in w.open && n in after ==>
                  after[n] == Row(NewVerdict(w, n), OVERRIDE_LABEL in w.open[n].labels, version))
            && (n !in w.open ==> (n in after <==> n in rows) && (n in after ==> after[n] == rows[n]))
  {}

  /** The gate passes on a stored verdict; without a store or a row it is open, and a failing query
      is reported as a failure. */
  lemma GateAnswers(store: Option<map<int, Row>>, readable: bool, n: int)
    ensures var r := IsBlocked(store, readable, n);
            && (r.failed <==> store.Some? && !readable)
            && (r.verdict.Some? <==> store.Some? && readable && n in store.value)
            && (r.verdict.Some? ==> r.verdict.value == store.value[n].verdict)
            && (r.blocked <==> r.verdict == Some(Blocked) || r.verdict == Some(NeedsHuman))
  {}

  // ----- no silent deadlock ---------------------------------------------------------

  /** n declares an active same-repository dependency on a member of s. */
  ghost predicate WaitsOn(w: World, n: int, s: set<int>) {
    n in w.open && SomeWait(DepsOf(w.repo, w.open[n]), s)
  }

  ghost predicate SomeWait(deps: seq<Dependency>, s: set<int>) {
    exists i :: 0 <= i < |deps| && deps[i].status == Active && deps[i].issue in s
  }

  lemma WaitingIsEdge(w: World, n: int, s: set<int>)
    requires WaitsOn(w, n, s) && w.repo != ""
    ensures HasSuccessorIn(GraphOf(w), s, n)
  {
    var deps := DepsOf(w.repo, w.open[n]);
    var i :| 0 <= i < |deps| && deps[i].status == Active && deps[i].issue in s;
    DepsWellFormed(w.repo, w.open[n]);
    assert deps[i] in deps && IsEdge(deps[i], w.repo);
    EdgesMembers(deps, w.repo, deps[i].issue);
    assert deps[i].issue in EdgesOf(w, n);
    assert Edge(GraphOf(w), n, deps[i].issue);
  }

  /** However a set of open issues waits on itself, one of them is put in front of a human or
      is overridden: they are never all merely blocked on each other. */
  lemma NoSilentDeadlock(w: World, s: set<int>) returns (n: int)
    requires w.repo != "" && s != {}
    requires forall m :: m in s ==> WaitsOn(w, m, s)
    ensures n in s && n in w.open && NewVerdict(w, n) in {NeedsHuman, Override}
  {
    var g := GraphOf(w);
    forall m | m in s ensures HasSuccessorIn(g, s, m) {
      WaitingIsEdge(w, m, s);
    }
    n := TrappedSetIsFlagged(g, s);
    assert WaitsOn(w, n, s);
  }

  /** An open issue still to be done. */
  ghost predicate Pending(w: World, n: int) {
    n in w.open && STATUS_DONE !in w.open[n].labels
  }

  /** A dependency on an issue that was closed by hand, without a linked pull request. */
  ghost predicate ClosedByHand(w: World, d: Dependency) {
    d.status == Active && d.issue !in w.open && d.issue in w.readable &&
    w.readable[d.issue].closed && !w.readable[d.issue].closedByLinkedPR
  }

  ghost predicate HasClosedByHand(w: World, n: int) {
    n in w.open && exists i :: 0 <= i < |DepsOf(w.repo, w.open[n])| && ClosedByHand(w, DepsOf(w.repo, w.open[n])[i])
  }

  lemma BlockedWaits(w: World, n: int, pending: set<int>)
    requires n in w.open && NewVerdict(w, n) == Blocked && !HasClosedByHand(w, n)
    requires forall m :: Pending(w, m) ==> m in pending
    ensures WaitsOn(w, n, pending)
  {
    var deps := DepsOf(w.repo, w.open[n]);
    assert SomeSeverity(w, deps, 1);
    var i :| 0 <= i < |deps| && Severity(w, deps[i]) == 1;
    assert !ClosedByHand(w, deps[i]);
    assert deps[i].status == Active && Pending(w, deps[i].issue);
  }

  /** If every issue still to be done is merely blocked, some of them waits for an issue that
      was closed by hand; the queue never stops for any other unreported reason. */
  lemma StalledQueueHasClosedByHand(w: World, pending: set<int>)
    requires w.repo != ""
    requires pending == (set n | n in w.open && Pending(w, n)) && pending != {}
    requires forall n :: n in pending ==> NewVerdict(w, n) == Blocked
    ensures exists n :: n in pending && HasClosedByHand(w, n)
  {
    if forall n :: n in pending ==> !HasClosedByHand(w, n) {
      forall n | n in pending ensures WaitsOn(w, n, pending) {
        BlockedWaits(w, n, pending);
      }
      var m := NoSilentDeadlock(w, pending);
    }
  }

  // ----- the graph -------------------------------------------------------------------

  lemma EdgesOfAscend(w: World, n: int)
    requires w.repo != "" && n in w.open
    ensures Ascending(w.repo, EdgesOf(w, n))
  {
    if w.open[n].block.Some? {
      DeclaredIsOrdered(w.repo, w.open[n].block.value);
    }
    DepsWellFormed(w.repo, w.open[n]);
    EdgesAscending(w.repo, DepsOf(w.repo, w.open[n]));
  }

  lemma SuccessorsAscend(w: World, n: int)
    requires w.repo != ""
    ensures Ascending(w.repo, Successors(GraphOf(w), n))
  {
    if n in GraphOf(w) {
      EdgesOfAscend(w, n);
    }
  }

  /** The lists detectCycles receives are sorted, so its input, and with it what it flags, depends on
      the edges alone. */
  lemma EdgesDetermineGraph(v: World, w: World)
    requires v.repo == w.repo != "" && forall a, b :: Edge(GraphOf(v), a, b) <==> Edge(GraphOf(w), a, b)
    ensures GraphOf(v) == GraphOf(w)
  {
    forall n ensures Successors(GraphOf(v), n) == Successors(GraphOf(w), n) {
      SuccessorsAscend(v, n);
      SuccessorsAscend(w, n);
      forall b ensures b in Successors(GraphOf(v), n) <==> b in Successors(GraphOf(w), n) {
        assert Edge(GraphOf(v), n, b) <==> Edge(GraphOf(w), n, b);
      }
      AscendingUnique(v.repo, Successors(GraphOf(v), n), Successors(GraphOf(w), n));
    }
    SameSuccessors(GraphOf(v), GraphOf(w));
  }

  lemma SameSuccessors(g: Adjacency, h: Adjacency)
    requires forall n :: Successors(g, n) == Successors(h, n)
    requires (forall n :: n in g ==> g[n] != []) && (forall n :: n in h ==> h[n] != [])
    ensures g == h
  {
    forall n ensures n in g <==> n in h {
      assert Successors(g, n) == Successors(h, n);
    }
    forall n | n in g ensures g[n] == h[n] {
      assert Successors(g, n) == Successors(h, n);
    }
  }

  // ----- what a verdict does not depend on ------------------------------------------

  ghost predicate SameIssue(a: Issue, b: Issue) {
    && a.labels == b.labels && a.block.Some? == b.block.Some?
    && (a.block.Some? ==> SameEntries(a.block.value, b.block.value))
  }

  /** Two worlds that differ only in the order and repetition of depends_on entries. */
  ghost predicate SameUpToEntryOrder(v: World, w: World) {
    && v.repo == w.repo && v.readable == w.readable && v.open.Keys == w.open.Keys
    && forall n :: n in v.open ==> SameIssue(v.open[n], w.open[n])
  }

  lemma SameGraph(v: World, w: World)
    requires SameUpToEntryOrder(v, w)
    ensures GraphOf(v) == GraphOf(w)
  {
    forall n | n in v.open ensures EdgesOf(v, n) == EdgesOf(w, n) {
      assert SameIssue(v.open[n], w.open[n]);
      if v.open[n].block.Some? {
        EdgesStable(v.repo, v.open[n].block.value, w.open[n].block.value);
      }
    }
  }

  lemma SameSeverity(v: World, w: World, d: Dependency)
    requires SameUpToEntryOrder(v, w)
    ensures Severity(v, d) == Severity(w, d)
  {
    if d.issue in v.open { assert SameIssue(v.open[d.issue], w.open[d.issue]); }
  }

  lemma SomeSeverityStable(v: World, w: World, n: int, level: int)
    requires SameUpToEntryOrder(v, w) && n in v.open
    requires SomeSeverity(v, DepsOf(v.repo, v.open[n]), level)
    ensures SomeSeverity(w, DepsOf(w.repo, w.open[n]), level)
  {
    assert SameIssue(v.open[n], w.open[n]);
    var deps := DepsOf(v.repo, v.open[n]);
    var i :| 0 <= i < |deps| && Severity(v, deps[i]) == level;
    var k := DeclaredMeaningStable(v.repo, v.open[n].block.value, w.open[n].block.value, deps[i]);
    var other := DepsOf(w.repo, w.open[n]);
    var j :| 0 <= j < |other| && other[j] == k;
    SameSeverity(v, w, deps[i]);
    ResolvedByMeaning(w, k, deps[i]);
  }

  lemma SameUpToEntryOrderSymmetric(v: World, w: World)
    requires SameUpToEntryOrder(v, w)
    ensures SameUpToEntryOrder(w, v)
  {
    forall n | n in w.open ensures SameIssue(w.open[n], v.open[n]) {
      assert SameIssue(v.open[n], w.open[n]);
    }
  }

  /** Reordering or repeating entries anywhere changes no verdict. */
  lemma EntryOrderIrrelevant(v: World, w: World, n: int)
    requires SameUpToEntryOrder(v, w) && n in v.open
    ensures NewVerdict(v, n) == NewVerdict(w, n)
  {
    SameGraph(v, w);
    SameUpToEntryOrderSymmetric(v, w);
    assert SameIssue(v.open[n], w.open[n]);
    forall level
      ensures SomeSeverity(v, DepsOf(v.repo, v.open[n]), level) <==> SomeSeverity(w, DepsOf(w.repo, w.open[n]), level)
    {
      if SomeSeverity(v, DepsOf(v.repo, v.open[n]), level) { SomeSeverityStable(v, w, n, level); }
      if SomeSeverity(w, DepsOf(w.repo, w.open[n]), level) { SomeSeverityStable(w, v, n, level); }
    }
  }

  lemma {:induction false} FreedMembers(rows: map<int, Row>, news: map<int, Row>, order: seq<int>, n: int)
    ensures n in Freed(rows, news, order) <==> n in order && Released(rows, news, n)
  {
    if order == [] {
    } else {
      FreedMembers(rows, news, order[..|order| - 1], n);
      assert order == order[..|order| - 1] + [order[|order| - 1]];
    }
  }

  lemma {:induction false} FreedOnce(rows: map<int, Row>, news: map<int, Row>, order: seq<int>)
    requires NoRepeats(order)
    ensures NoRepeats(Freed(rows, news, order))
  {
    if order == [] {
    } else {
      var rest, n := order[..|order| - 1], order[|order| - 1];
      FreedOnce(rows, news, rest);
      assert n !in rest;
      FreedMembers(rows, news, rest, n);
    }
  }

  /** Whatever order the map iteration takes, the same issues are reported, each once. */
  lemma IterationOrderIrrelevant(rows: map<int, Row>, news: map<int, Row>, a: seq<int>, b: seq<int>)
    requires NoRepeats(a) && NoRepeats(b) && Elements(a) == Elements(b)
    ensures Elements(Freed(rows, news, a)) == Elements(Freed(rows, news, b))
    ensures NoRepeats(Freed(rows, news, a)) && NoRepeats(Freed(rows, news, b))
  {
    FreedOnce(rows, news, a);
    FreedOnce(rows, news, b);
    forall n ensures n in Freed(rows, news, a) <==> n in Freed(rows, news, b) {
      FreedMembers(rows, news, a, n);
      FreedMembers(rows, news, b, n);
      assert n in Elements(a) <==> n in Elements(b);
    }
    ElementsAre(Freed(rows, news, a), Elements(Freed(rows, news, b)));
  }

  // ----- progress never makes another issue worse -----------------------------------

  function MarkedDone(w: World, x: int): World
    requires x in w.open
  {
    w.(open := w.open[x := w.open[x].(labels := w.open[x].labels + [STATUS_DONE])])
  }

  function ClosedByPR(w: World, x: int): World {
    w.(open := w.open - {x}, readable := w.readable[x := Detail(true, true)])
  }

  ghost predicate NoWorse(w: World, w': World, deps: seq<Dependency>) {
    forall i :: 0 <= i < |deps| ==> Severity(w', deps[i]) <= Severity(w, deps[i])
  }

  lemma WorstIsMonotone(w: World, w': World, deps: seq<Dependency>, flagged: bool)
    requires NoWorse(w, w', deps)
    ensures Level(Worst(w', deps, flagged)) <= Level(Worst(w, deps, flagged))
  {
    forall d ensures Severity(w, d) in {0, 1, 2} { SeverityZero(w, d); }
    forall d ensures Severity(w', d) in {0, 1, 2} { SeverityZero(w', d); }
    if SomeSeverity(w', deps, 2) {
      var i :| 0 <= i < |deps| && Severity(w', deps[i]) == 2;
      assert Severity(w, deps[i]) == 2;
    } else if SomeSeverity(w', deps, 1) {
      var i :| 0 <= i < |deps| && Severity(w', deps[i]) == 1;
      assert Severity(w, deps[i]) == 1 || Severity(w, deps[i]) == 2;
    }
  }

  /** Labelling an issue done: true of every graph, cyclic or not. */
  lemma DoneNeverWorsens(w: World, x: int, y: int)
    requires x in w.open && y in w.open && x != y
    ensures Level(NewVerdict(MarkedDone(w, x), y)) <= Level(NewVerdict(w, y))
  {
    MarkingKeepsGraph(w, x);
    MarkingLowersSeverities(w, x, DepsOf(w.repo, w.open[y]));
    WorstIsMonotone(w, MarkedDone(w, x), DepsOf(w.repo, w.open[y]), y in Cycles(GraphOf(w)));
  }

  lemma MarkingKeepsGraph(w: World, x: int)
    requires x in w.open
    ensures GraphOf(MarkedDone(w, x)) == GraphOf(w)
  {
    forall n | n in w.open ensures EdgesOf(MarkedDone(w, x), n) == EdgesOf(w, n) { }
  }

  lemma MarkingLowersSeverities(w: World, x: int, deps: seq<Dependency>)
    requires x in w.open
    ensures NoWorse(w, MarkedDone(w, x), deps)
  {}

  lemma ClosingLowersSeverities(w: World, x: int, deps: seq<Dependency>)
    ensures NoWorse(w, ClosedByPR(w, x), deps)
  {}

  ghost predicate Worsens(w: World, x: int, y: int)
    requires y in w.open && x != y
  {
    Level(NewVerdict(ClosedByPR(w, x), y)) > Level(NewVerdict(w, y))
  }

  /** Closing x by a linked pull request makes y worse exactly when y is only blocked or ready now
      and the search on the present graph without x flags y. */
  lemma ClosingWorsensIff(w: World, x: int, y: int)
    requires y in w.open && x != y
    ensures Worsens(w, x, y) <==>
            y in Cycles(GraphOf(w) - {x}) && OVERRIDE_LABEL !in w.open[y].labels && NewVerdict(w, y) != NeedsHuman
  {
    var w' := ClosedByPR(w, x);
    var deps := DepsOf(w.repo, w.open[y]);
    ClosingCutsGraph(w, x);
    assert w'.open[y] == w.open[y] && w'.repo == w.repo;
    ClosingLowersSeverities(w, x, deps);
    WorseOnlyByFlag(w, w', deps, y in Cycles(GraphOf(w)), y in Cycles(GraphOf(w')));
  }

  /** With no severity raised, only a new flag makes the maximum larger. */
  lemma WorseOnlyByFlag(w: World, w': World, deps: seq<Dependency>, flagged: bool, flagged': bool)
    requires NoWorse(w, w', deps)
    ensures Level(Worst(w', deps, flagged')) > Level(Worst(w, deps, flagged)) <==>
            flagged' && Worst(w, deps, flagged) != NeedsHuman
  {
    WorstIsMonotone(w, w', deps, flagged');
    LevelOfUnflagged(w, deps, flagged);
  }

  /** So it never worsens an issue that is flagged already or is on no cycle avoiding x. */
  lemma ClosingWorsensOnlyOnCycle(w: World, x: int, y: int)
    requires y in w.open && x != y && Worsens(w, x, y)
    ensures y !in Cycles(GraphOf(w)) && OnCycle(GraphOf(w) - {x}, y)
  {
    ClosingWorsensIff(w, x, y);
    CyclesSound(GraphOf(w) - {x}, y);
    VerdictByFlag(w, y);
  }

  /** And for an issue that no smaller one reaches without x, being on such a cycle is enough. */
  lemma ClosingWorsensUnreachedIff(w: World, x: int, y: int)
    requires y in w.open && x != y
    requires forall k :: k in GraphOf(w) - {x} && k < y ==> !Reaches(GraphOf(w) - {x}, k, y)
    ensures Worsens(w, x, y) <==>
            OnCycle(GraphOf(w) - {x}, y) && OVERRIDE_LABEL !in w.open[y].labels && NewVerdict(w, y) != NeedsHuman
  {
    ClosingWorsensIff(w, x, y);
    UnreachedFromBelowFlaggedIff(GraphOf(w) - {x}, y);
  }

  lemma LevelOfUnflagged(w: World, deps: seq<Dependency>, flagged: bool)
    ensures Level(Worst(w, deps, false)) <= Level(Worst(w, deps, flagged)) <= 2
    ensures Level(Worst(w, deps, flagged)) == 2 <==> Worst(w, deps, flagged) == NeedsHuman
  {}

  lemma CutStaysAcyclic(g: Adjacency, x: int)
    requires Acyclic(g)
    ensures Acyclic(g - {x})
  {
    assert SubGraph(g - {x}, g);
    SubGraphAcyclic(g - {x}, g);
  }

  /** In an acyclic declared graph progress never makes another issue's verdict worse. */
  lemma AcyclicProgressIsMonotone(w: World, x: int, y: int)
    requires Acyclic(GraphOf(w)) && y in w.open && x != y
    ensures Level(NewVerdict(ClosedByPR(w, x), y)) <= Level(NewVerdict(w, y))
    ensures x in w.open ==> Level(NewVerdict(MarkedDone(w, x), y)) <= Level(NewVerdict(w, y))
  {
    if x in w.open { DoneNeverWorsens(w, x, y); }
    CutStaysAcyclic(GraphOf(w), x);
    if Worsens(w, x, y) {
      ClosingWorsensOnlyOnCycle(w, x, y);
    }
  }

  // ----- a cyclic graph where closing an issue makes another one worse ---------------

  lemma {:induction false} LessAfterPrefix(p: string, a: string, b: string)
    requires Less(a, b)
    ensures Less(p + a, p + b)
  {
    if p == [] {
      assert p + a == a && p + b == b;
    } else {
      LessAfterPrefix(p[1..], a, b);
      assert (p + a)[1..] == p[1..] + a && (p + b)[1..] == p[1..] + b;
    }
  }

  lemma ReferencesParse(repo: string, n: nat)
    requires IsSlug(repo) && 0 < n < 10
    ensures IsEdge(NormalizeDependency(repo, Reference(repo, n)), repo)
    ensures NormalizeDependency(repo, Reference(repo, n)).issue == n
  {
    SlugReferenceParses(repo, repo, n);
    SlugHasNoHash(repo);
  }

  function References(repo: string, ns: seq<nat>): seq<string> {
    if ns == [] then [] else [Reference(repo, ns[0])] + References(repo, ns[1..])
  }

  lemma {:induction false} ReferencesMember(repo: string, ns: seq<nat>, e: string)
    ensures e in References(repo, ns) <==> exists n :: n in ns && e == Reference(repo, n)
  {
    if ns == [] {
    } else {
      ReferencesMember(repo, ns[1..], e);
      if n :| n in ns && e == Reference(repo, n) {
        if n != ns[0] { assert n in ns[1..]; }
      }
      if e in References(repo, ns[1..]) {
        var n :| n in ns[1..] && e == Reference(repo, n);
        assert n in ns;
      } else if e == Reference(repo, ns[0]) {
        assert ns[0] in ns;
      }
    }
  }

  /** An issue that declares one-digit references in ascending order has those edges. */
  lemma EdgesOfReferences(repo: string, ns: seq<nat>)
    requires IsSlug(repo)
    requires forall i :: 0 <= i < |ns| ==> 0 < ns[i] < 10
    requires forall i, j :: 0 <= i < j < |ns| ==> ns[i] < ns[j]
    ensures Edges(Declared(repo, References(repo, ns)), repo) == ns
  {
    var refs := References(repo, ns);
    SlugHasNoHash(repo);
    DeclaredIsOrdered(repo, refs);
    EdgesAscending(repo, Declared(repo, refs));
    forall i, j | 0 <= i < j < |ns| ensures Less(Reference(repo, ns[i]), Reference(repo, ns[j])) {
      DigitOrder(repo, ns[i], ns[j]);
    }
    forall n ensures n in Edges(Declared(repo, refs), repo) <==> n in ns {
      EdgeOfReferences(repo, ns, n);
    }
    AscendingUnique(repo, Edges(Declared(repo, refs), repo), ns);
  }

  lemma DigitOrder(repo: string, m: nat, n: nat)
    requires m < n < 10
    ensures Less(Reference(repo, m), Reference(repo, n))
  {
    LessAfterPrefix(repo + "#", Decimal(m), Decimal(n));
  }

  lemma EdgeOfReferences(repo: string, ns: seq<nat>, n: int)
    requires IsSlug(repo) && forall i :: 0 <= i < |ns| ==> 0 < ns[i] < 10
    ensures n in Edges(Declared(repo, References(repo, ns)), repo) <==> n in ns
  {
    var refs := References(repo, ns);
    var decl := Declared(repo, refs);
    EdgesMembers(decl, repo, n);
    if n in ns {
      ReferencesMember(repo, ns, Reference(repo, n));
      ReferencesParse(repo, n);
      var k := EntryIsDeclared(repo, refs, Reference(repo, n));
    }
    if n in Edges(decl, repo) {
      var d :| d in decl && IsEdge(d, repo) && d.issue == n;
      DeclaredComesFromEntry(repo, refs, d);
      var e :| e in refs && NormalizeDependency(repo, e) == d;
      ReferencesMember(repo, ns, e);
      var m :| m in ns && e == Reference(repo, m);
      ReferencesParse(repo, m);
    }
  }

  function Waiting(repo: string, ns: seq<nat>): Issue {
    Issue([], Some(References(repo, ns)))
  }

  /** a waits on c and d, both wait on b, and b waits on a. */
  ghost predicate ShortcutWorld(w: World, a: nat, b: nat, c: nat, d: nat) {
    && IsSlug(w.repo) && 0 < a < b < c < d < 10
    && w.open.Keys == {a, b, c, d}
    && w.open[a] == Waiting(w.repo, [c, d]) && w.open[b] == Waiting(w.repo, [a])
    && w.open[c] == Waiting(w.repo, [b]) && w.open[d] == Waiting(w.repo, [b])
  }

  lemma ShortcutEdges(w: World, a: nat, b: nat, c: nat, d: nat)
    requires ShortcutWorld(w, a, b, c, d)
    ensures EdgesOf(w, a) == [c, d] && EdgesOf(w, b) == [a] && EdgesOf(w, c) == [b] && EdgesOf(w, d) == [b]
  {
    EdgesOfReferences(w.repo, [c, d]);
    EdgesOfReferences(w.repo, [a]);
    EdgesOfReferences(w.repo, [b]);
  }

  lemma GraphOfEdges(w: World, g: Adjacency)
    requires g.Keys <= w.open.Keys
    requires forall n :: n in w.open ==> if n in g then g[n] == EdgesOf(w, n) != [] else EdgesOf(w, n) == []
    ensures GraphOf(w) == g
  {}

  lemma ShortcutGraph(w: World, a: nat, b: nat, c: nat, d: nat)
    requires ShortcutWorld(w, a, b, c, d)
    ensures GraphOf(w) == Shortcut(a, b, c, d)
  {
    ShortcutEdges(w, a, b, c, d);
    FourEdges(w, a, b, c, d, EdgesOf(w, a), EdgesOf(w, b), EdgesOf(w, c), EdgesOf(w, d));
  }

  lemma FourEdges(w: World, a: int, b: int, c: int, d: int, p: seq<int>, q: seq<int>, r: seq<int>, t: seq<int>)
    requires w.open.Keys == {a, b, c, d} && Distinct4(a, b, c, d)
    requires p == EdgesOf(w, a) != [] && q == EdgesOf(w, b) != [] && r == EdgesOf(w, c) != []
    requires t == EdgesOf(w, d) != []
    ensures GraphOf(w) == map[a := p, b := q, c := r, d := t]
  {
    GraphOfEdges(w, map[a := p, b := q, c := r, d := t]);
  }

  lemma ClosingCutsGraph(w: World, x: int)
    ensures GraphOf(ClosedByPR(w, x)) == GraphOf(w) - {x}
  {
    var w' := ClosedByPR(w, x);
    var g := GraphOf(w) - {x};
    forall n | n in w'.open ensures if n in g then g[n] == EdgesOf(w', n) != [] else EdgesOf(w', n) == [] {
      assert w'.open[n] == w.open[n];
      assert EdgesOf(w', n) == EdgesOf(w, n);
    }
    GraphOfEdges(w', g);
  }

  lemma VerdictByFlag(w: World, n: int)
    requires n in w.open && OVERRIDE_LABEL !in w.open[n].labels
    ensures n in Cycles(GraphOf(w)) ==> NewVerdict(w, n) == NeedsHuman
    ensures n !in Cycles(GraphOf(w)) ==> NewVerdict(w, n) == Worst(w, DepsOf(w.repo, w.open[n]), false)
  {}

  /** Closing c by a pull request turns d from blocked to needs_human: the acyclicity that
      monotonicity asks for cannot be dropped. */
  lemma ClosingCanWorsen(w: World, a: nat, b: nat, c: nat, d: nat)
    requires ShortcutWorld(w, a, b, c, d)
    ensures NewVerdict(w, d) == Blocked && NewVerdict(ClosedByPR(w, c), d) == NeedsHuman
  {
    ShortcutGraph(w, a, b, c, d);
    BlockedUnflagged(w, a, b, c, d);
    FlaggedWithout(w, a, b, c, d);
  }

  lemma BlockedUnflagged(w: World, a: nat, b: nat, c: nat, d: nat)
    requires ShortcutWorld(w, a, b, c, d) && GraphOf(w) == Shortcut(a, b, c, d)
    ensures NewVerdict(w, d) == Blocked
  {
    UnflaggedOnCycle(a, b, c, d);
    BlockedOnOpen(w, b);
    VerdictByFlag(w, d);
  }

  lemma FlaggedWithout(w: World, a: nat, b: nat, c: nat, d: nat)
    requires ShortcutWorld(w, a, b, c, d) && GraphOf(w) == Shortcut(a, b, c, d)
    ensures NewVerdict(ClosedByPR(w, c), d) == NeedsHuman
  {
    ClosingCutsGraph(w, c);
    FlaggedAfterCut(a, b, c, d);
    VerdictByFlag(ClosedByPR(w, c), d);
  }

  lemma BlockedOnOpen(w: World, b: nat)
    requires IsSlug(w.repo) && 0 < b < 10 && b in w.open && STATUS_DONE !in w.open[b].labels
    ensures Worst(w, DepsOf(w.repo, Waiting(w.repo, [b])), false) == Blocked
  {
    var deps := Declared(w.repo, References(w.repo, [b]));
    forall i | 0 <= i < |deps| ensures Severity(w, deps[i]) == 1 {
      OnlyReference(w.repo, b, deps[i]);
    }
    var k := DeclaresReference(w.repo, b);
    AllOneIsBlocked(w, deps, k);
  }

  lemma AllOneIsBlocked(w: World, deps: seq<Dependency>, k: Dependency)
    requires k in deps && forall i :: 0 <= i < |deps| ==> Severity(w, deps[i]) == 1
    ensures Worst(w, deps, false) == Blocked
  {
    var j :| 0 <= j < |deps| && deps[j] == k;
    assert Severity(w, deps[j]) == 1;
  }

  lemma DeclaresReference(repo: string, b: nat) returns (k: Dependency)
    requires IsSlug(repo) && 0 < b < 10
    ensures k in Declared(repo, References(repo, [b]))
  {
    ReferencesMember(repo, [b], Reference(repo, b));
    k := EntryIsDeclared(repo, References(repo, [b]), Reference(repo, b));
  }

  lemma OnlyReference(repo: string, b: nat, k: Dependency)
    requires IsSlug(repo) && 0 < b < 10 && k in Declared(repo, References(repo, [b]))
    ensures k.status == Active && k.issue == b
  {
    DeclaredComesFromEntry(repo, References(repo, [b]), k);
    var e :| e in References(repo, [b]) && NormalizeDependency(repo, e) == k;
    ReferencesMember(repo, [b], e);
    ReferencesParse(repo, b);
  }

  // ----- unblocking is edge-triggered -----------------------------------------------

  /** One call: it visits the open issues in `order` and stops early when `stop` is in range. */
  datatype Evaluation = Evaluation(w: World, version: int, order: seq<int>, stop: nat)

  ghost predicate Legal(e: Evaluation) {
    NoRepeats(e.order) && Elements(e.order) == e.w.open.Keys
  }

  ghost predicate Completed(e: Evaluation) {
    e.stop >= |e.order|
  }

  ghost function NextRows(rows: map<int, Row>, e: Evaluation): map<int, Row> {
    After(e.w, e.version, rows, if Completed(e) then e.w.open.Keys else Elements(e.order[..e.stop]))
  }

  /** The stored rows before, between and after the evaluations of a run. */
  ghost predicate IsRun(states: seq<map<int, Row>>, run: seq<Evaluation>) {
    && |states| == |run| + 1
    && (forall k :: 0 <= k < |run| ==> Legal(run[k]))
    && forall k {:trigger NextRows(states[k], run[k])} :: 0 <= k < |run| ==>
      states[k + 1] == NextRows(states[k], run[k])
  }

  ghost predicate GatedIn(rows: map<int, Row>, n: int) {
    n in rows && IsGated(rows[n].verdict)
  }

  /** The call returns n among the unblocked issues. */
  ghost predicate Reports(rows: map<int, Row>, e: Evaluation, n: int) {
    Completed(e) && n in Freed(rows, Verdicts(e.w, e.version), e.order)
  }

  lemma MergeReleases(rows: map<int, Row>, news: map<int, Row>, blocks: set<int>, done: set<int>, n: int)
    ensures GatedIn(rows, n) && !GatedIn(Merge(rows, news, blocks, done), n) <==> n in done && Released(rows, news, n)
  {}

  /** A report is exactly an opening stored by an evaluation that ran to its end. */
  lemma ReportIffOpening(rows: map<int, Row>, e: Evaluation, n: int)
    requires Legal(e)
    ensures Reports(rows, e, n) <==> Completed(e) && GatedIn(rows, n) && !GatedIn(NextRows(rows, e), n)
  {
    var news := Verdicts(e.w, e.version);
    FreedMembers(rows, news, e.order, n);
    MergeReleases(rows, news, Blocks(e.w), e.w.open.Keys, n);
    assert n in e.order <==> n in Elements(e.order);
  }

  lemma ReportOpens(states: seq<map<int, Row>>, run: seq<Evaluation>, k: nat, n: int)
    requires IsRun(states, run) && k < |run|
    ensures Reports(states[k], run[k], n) <==> Completed(run[k]) && GatedIn(states[k], n) && !GatedIn(states[k + 1], n)
  {
    ReportIffOpening(states[k], run[k], n);
  }

  /** Evaluation m gates n. */
  ghost predicate Gates(states: seq<map<int, Row>>, n: int, m: int) {
    0 <= m < |states| - 1 && !GatedIn(states[m], n) && GatedIn(states[m + 1], n)
  }

  /** Between two reports of one issue some evaluation stored a gating verdict for it. */
  lemma ReportsAlternate(states: seq<map<int, Row>>, run: seq<Evaluation>, i: nat, j: nat, n: int)
    requires IsRun(states, run) && i < j < |run|
    requires Reports(states[i], run[i], n) && Reports(states[j], run[j], n)
    ensures exists m :: i < m < j && Gates(states, n, m)
  {
    ReportedOpens(states, run, i, n);
    ReportedOpens(states, run, j, n);
    var m := FirstRise(states, n, i + 1, j);
  }

  lemma ReportedOpens(states: seq<map<int, Row>>, run: seq<Evaluation>, k: nat, n: int)
    requires IsRun(states, run) && k < |run| && Reports(states[k], run[k], n)
    ensures k + 1 < |states| && GatedIn(states[k], n) && !GatedIn(states[k + 1], n)
  {
    ReportOpens(states, run, k, n);
  }

  lemma FirstRise(states: seq<map<int, Row>>, n: int, lo: nat, hi: nat) returns (m: nat)
    requires lo <= hi < |states| && !GatedIn(states[lo], n) && GatedIn(states[hi], n)
    ensures lo <= m < hi && Gates(states, n, m)
  {
    m := lo;
    while !GatedIn(states[m + 1], n)
      invariant lo <= m < hi && !GatedIn(states[m], n)
      decreases hi - m
    {
      m := m + 1;
    }
  }

  /** An opening stored by an evaluation that fails later on is reported by no evaluation
      until the issue has been gated again: the caller never learns of it. */
  lemma FailedEvaluationLosesOpening(states: seq<map<int, Row>>, run: seq<Evaluation>, k: nat, j: nat, n: int)
    requires IsRun(states, run) && k <= j < |run|
    requires GatedIn(states[k], n) && !GatedIn(states[k + 1], n) && !Completed(run[k])
    requires forall m :: k < m <= j ==> !GatedIn(states[m], n)
    ensures !Reports(states[j], run[j], n)
  {
    ReportOpens(states, run, j, n);
  }

  /** Such a loss needs nothing special: any evaluation that stops just after a released issue. */
  lemma StoppingAfterReleaseLosesIt(rows: map<int, Row>, e: Evaluation, i: nat)
    requires Legal(e) && i < |e.order| && Released(rows, Verdicts(e.w, e.version), e.order[i])
    requires i < e.stop < |e.order|
    ensures GatedIn(rows, e.order[i]) && !GatedIn(NextRows(rows, e), e.order[i]) && !Reports(rows, e, e.order[i])
  {
    assert e.order[i] == e.order[..e.stop][i];
    assert e.order[i] in Elements(e.order[..e.stop]);
    MergeReleases(rows, Verdicts(e.w, e.version), Blocks(e.w), Elements(e.order[..e.stop]), e.order[i]);
  }
}
