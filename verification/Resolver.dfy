/** EvaluateOpenIssues over the whole open cache, and the dispatch gate over what it stores. */
module Resolver {
  import opened Text
  import opened Graph
  import opened CycleDetection
  import opened Declaration
  import opened Verdict

  /** A row of issue_dependency_state. */
  datatype Row = Row(verdict: Verdict, overrideActive: bool, version: int)

  function EdgesOf(w: World, n: int): seq<int>
    requires n in w.open
  {
    Edges(DepsOf(w.repo, w.open[n]), w.repo)
  }

  /** The declared graph: a key exists only once something was appended to it. */
  function GraphOf(w: World): Adjacency {
    map n | n in w.open && EdgesOf(w, n) != [] :: EdgesOf(w, n)
  }

  ghost function NewVerdict(w: World, n: int): Verdict
    requires n in w.open
  {
    VerdictOf(w, w.open[n], n in Cycles(GraphOf(w)))
  }

  /** The rows of one evaluation, given what the cycle search returned. */
  ghost function RowsGiven(w: World, version: int, cycles: map<int, seq<int>>): (news: map<int, Row>)
    ensures news.Keys == w.open.Keys
  {
    map n | n in w.open :: Row(VerdictOf(w, w.open[n], n in cycles), OVERRIDE_LABEL in w.open[n].labels, version)
  }

  ghost function Verdicts(w: World, version: int): (news: map<int, Row>)
    ensures news.Keys == w.open.Keys
  {
    RowsGiven(w, version, Cycles(GraphOf(w)))
  }

  function Blocks(w: World): set<int> {
    set n | n in w.open && w.open[n].block.Some?
  }

  /** The rows once the issues in `done` have been evaluated, in whatever order: an issue
      without a block and without an earlier row is skipped. */
  ghost function Merge(rows: map<int, Row>, news: map<int, Row>, blocks: set<int>, done: set<int>): map<int, Row> {
    rows + map n | n in news && n in done && (n in rows || n in blocks) :: news[n]
  }

  ghost function After(w: World, version: int, rows: map<int, Row>, done: set<int>): map<int, Row> {
    Merge(rows, Verdicts(w, version), Blocks(w), done)
  }

  predicate IsGated(v: Verdict) {
    v == Blocked || v == NeedsHuman
  }

  /** The stored verdict leaves the gated ones. */
  ghost predicate Released(rows: map<int, Row>, news: map<int, Row>, n: int) {
    n in news && n in rows && IsGated(rows[n].verdict) && !IsGated(news[n].verdict)
  }

  ghost function Freed(rows: map<int, Row>, news: map<int, Row>, order: seq<int>): seq<int> {
    if order == [] then []
    else
      var n := order[|order| - 1];
      Freed(rows, news, order[..|order| - 1]) + if Released(rows, news, n) then [n] else []
  }

  /** What has been stored and reported once the issues in `prefix` have been visited. */
  ghost predicate Progress(rows: map<int, Row>, freed: seq<int>, recorder: bool,
                           before: map<int, Row>, news: map<int, Row>, blocks: set<int>, prefix: seq<int>)
  {
    && rows == Merge(before, news, blocks, Elements(prefix))
    && freed == if recorder then Freed(before, news, prefix) else []
  }

  lemma NoProgress(rows: map<int, Row>, recorder: bool, news: map<int, Row>, blocks: set<int>, prefix: seq<int>)
    requires prefix == []
    ensures Progress(rows, [], recorder, rows, news, blocks, prefix)
  {}

  // ----- the evaluation as the source runs it ---------------------------------------

  function Elements(s: seq<int>): (r: set<int>)
    ensures forall n :: n in r <==> n in s
  {
    set n | n in s
  }

  lemma ElementsAre(order: seq<int>, s: set<int>)
    requires forall n :: n in order <==> n in s
    ensures Elements(order) == s
  {
    forall n ensures n in Elements(order) <==> n in s {
      assert n in order <==> n in s;
    }
  }

  method ParseBody(repo: string, issue: Issue) returns (deps: seq<Dependency>)
    ensures deps == DepsOf(repo, issue)
  {
    deps := [];
    if issue.block.Some? {
      deps := ParseDeclaration(repo, issue.block.value);
    }
  }

  /** The graph a set of parsed declarations gives rise to. */
  function GraphFrom(decls: map<int, seq<Dependency>>, repo: string): Adjacency {
    map n | n in decls && Edges(decls[n], repo) != [] :: Edges(decls[n], repo)
  }

  /** The parsed declarations of all open issues. */
  ghost predicate Parsed(w: World, decls: map<int, seq<Dependency>>) {
    decls.Keys == w.open.Keys && forall n :: n in decls ==> decls[n] == DepsOf(w.repo, w.open[n])
  }

  method BuildGraph(w: World, order: seq<int>) returns (decls: map<int, seq<Dependency>>, graph: Adjacency)
    requires Elements(order) == w.open.Keys
    ensures graph == GraphOf(w)
    ensures Parsed(w, decls)
  {
    decls, graph := map[], map[];
    var i := 0;
    while i < |order|
      invariant 0 <= i <= |order|
      invariant decls.Keys == Elements(order[..i]) <= w.open.Keys
      invariant forall n :: n in decls ==> decls[n] == DepsOf(w.repo, w.open[n])
      invariant graph == GraphFrom(decls, w.repo)
    {
      assert order[i] in Elements(order) && order[..i + 1] == order[..i] + [order[i]];
      decls, graph := AddIssue(w.repo, order[i], w.open[order[i]], decls, graph);
      i := i + 1;
    }
    assert order[..|order|] == order;
    GraphFromWorld(w, decls);
  }

  method AddIssue(repo: string, n: int, issue: Issue, decls: map<int, seq<Dependency>>, graph: Adjacency)
    returns (decls': map<int, seq<Dependency>>, graph': Adjacency)
    requires n in decls ==> decls[n] == DepsOf(repo, issue)
    requires graph == GraphFrom(decls, repo)
    ensures decls' == decls[n := DepsOf(repo, issue)] && graph' == GraphFrom(decls', repo)
  {
    var deps := ParseBody(repo, issue);
    var edges := CollectEdges(deps, repo);
    GraphExtends(decls, repo, n, deps);
    decls' := decls[n := deps];
    graph' := graph;
    if edges != [] {
      graph' := graph[n := edges];
    }
  }

  lemma GraphExtends(decls: map<int, seq<Dependency>>, repo: string, n: int, deps: seq<Dependency>)
    requires n in decls ==> decls[n] == deps
    ensures GraphFrom(decls[n := deps], repo) ==
            if Edges(deps, repo) != [] then GraphFrom(decls, repo)[n := Edges(deps, repo)] else GraphFrom(decls, repo)
  {}

  lemma GraphFromWorld(w: World, decls: map<int, seq<Dependency>>)
    requires Parsed(w, decls)
    ensures GraphFrom(decls, w.repo) == GraphOf(w)
  {}

  method CollectEdges(deps: seq<Dependency>, repo: string) returns (edges: seq<int>)
    ensures edges == Edges(deps, repo)
  {
    edges := [];
    var i := 0;
    while i < |deps|
      invariant 0 <= i <= |deps|
      invariant edges + Edges(deps[i..], repo) == Edges(deps, repo)
    {
      EdgesFrom(deps, repo, i, edges);
      if IsEdge(deps[i], repo) {
        edges := edges + [deps[i].issue];
      }
      i := i + 1;
    }
  }

  lemma EdgesFrom(deps: seq<Dependency>, repo: string, i: nat, edges: seq<int>)
    requires i < |deps|
    ensures edges + Edges(deps[i..], repo) ==
            (if IsEdge(deps[i], repo) then edges + [deps[i].issue] else edges) + Edges(deps[i + 1..], repo)
  {
    assert deps[i..][0] == deps[i] && deps[i..][1..] == deps[i + 1..];
  }

  class Evaluator {
    var rows: map<int, Row>
    const recorder: bool

    constructor (recorder: bool)
      ensures this.recorder == recorder && rows == map[]
    {
      this.recorder := recorder;
      rows := map[];
    }

    /** `order` is the map iteration order over the open issues; `stop` is the iteration at
        which a store error or a cancelled context ends the call, if it is in range. */
    method EvaluateOpenIssues(w: World, version: int, order: seq<int>, keys: seq<int>, stop: nat)
      returns (unblocked: Option<seq<int>>)
      requires NoRepeats(order) && Elements(order) == w.open.Keys
      requires multiset(keys) == multiset(GraphOf(w).Keys)
      modifies this`rows
      ensures unblocked.Some? <==> stop >= |order|
      ensures unblocked.Some? ==> rows == After(w, version, old(rows), w.open.Keys)
      ensures unblocked.Some? ==>
                unblocked.value == if recorder then Freed(old(rows), Verdicts(w, version), order) else []
      ensures unblocked.None? ==> rows == After(w, version, old(rows), Elements(order[..stop]))
    {
      var decls, graph := BuildGraph(w, order);
      var detector := new Detector(graph);
      detector.DetectCycles(keys);
      forall i | 0 <= i < |order| ensures order[i] in w.open {
        assert order[i] in Elements(order);
      }
      forall n | n in detector.out ensures detector.out[n] != [] {
        CyclesSound(graph, n);
      }
      var freed, done := PersistAll(w, version, order, decls, detector.out, stop,
        RowsGiven(w, version, detector.out), Blocks(w));
      assert order[..|order|] == order;
      unblocked := if done == |order| then Some(freed) else None;
    }

    method PersistAll(w: World, version: int, order: seq<int>, decls: map<int, seq<Dependency>>,
                      cycles: map<int, seq<int>>, stop: nat, ghost news: map<int, Row>, ghost blocks: set<int>)
      returns (freed: seq<int>, done: nat)
      requires NoRepeats(order) && forall i :: 0 <= i < |order| ==> order[i] in w.open
      requires Parsed(w, decls) && news == RowsGiven(w, version, cycles) && blocks == Blocks(w)
      requires forall n :: n in cycles ==> cycles[n] != []
      modifies this`rows
      ensures done == (if stop < |order| then stop else |order|)
      ensures Progress(rows, freed, recorder, old(rows), news, blocks, order[..done])
    {
      var cache := map[];
      freed, done := [], 0;
      NoProgress(rows, recorder, news, blocks, order[..0]);
      while done < |order| && done != stop
        invariant 0 <= done <= |order| && done <= stop
        invariant CacheOk(w, cache) && Progress(rows, freed, recorder, old(rows), news, blocks, order[..done])
      {
        freed, cache := EvaluateAt(w, version, order, done, decls, cycles, cache, freed, old(rows), news, blocks);
        done := done + 1;
      }
    }

    /** One iteration of the loop; `before` is what was stored when the loop began. */
    method EvaluateAt(w: World, version: int, order: seq<int>, i: nat, decls: map<int, seq<Dependency>>,
                      cycles: map<int, seq<int>>, cache: map<int, Detail>, freed: seq<int>,
                      ghost before: map<int, Row>, ghost news: map<int, Row>, ghost blocks: set<int>)
      returns (freed': seq<int>, cache': map<int, Detail>)
      requires NoRepeats(order) && i < |order| && order[i] in w.open && Parsed(w, decls) && CacheOk(w, cache)
      requires forall m :: m in cycles ==> cycles[m] != []
      requires news == RowsGiven(w, version, cycles) && blocks == Blocks(w)
      requires Progress(rows, freed, recorder, before, news, blocks, order[..i])
      modifies this`rows
      ensures CacheOk(w, cache') && Progress(rows, freed', recorder, before, news, blocks, order[..i + 1])
    {
      assert order[i] in w.open.Keys && order[i] in decls.Keys;
      MergeStep(before, news, blocks, order, i);
      var gone;
      gone, cache' := EvaluateOne(w, version, order[i], decls[order[i]], cycles, cache);
      freed' := if gone then freed + [order[i]] else freed;
    }

    method EvaluateOne(w: World, version: int, n: int, deps: seq<Dependency>, cycles: map<int, seq<int>>,
                       cache: map<int, Detail>)
      returns (gone: bool, cache': map<int, Detail>)
      requires n in w.open && deps == DepsOf(w.repo, w.open[n]) && CacheOk(w, cache)
      requires forall m :: m in cycles ==> cycles[m] != []
      modifies this`rows
      ensures CacheOk(w, cache')
      ensures var news := RowsGiven(w, version, cycles);
              && (rows == if n in Blocks(w) || n in old(rows) then old(rows)[n := news[n]] else old(rows))
              && (gone <==> recorder && Released(old(rows), news, n))
    {
      var verdict;
      verdict, cache' := Judge(w, n, deps, cycles, cache);
      gone := Persist(n, w.open[n], verdict, version);
    }

    /** Upsert one verdict and say whether it is to be reported as unblocked. */
    method Persist(n: int, issue: Issue, verdict: Verdict, version: int) returns (gone: bool)
      modifies this`rows
      ensures var row := Row(verdict, OVERRIDE_LABEL in issue.labels, version);
              rows == if issue.block.Some? || n in old(rows) then old(rows)[n := row] else old(rows)
      ensures gone <==> recorder && n in old(rows) && IsGated(old(rows)[n].verdict) && !IsGated(verdict)
    {
      gone := false;
      if issue.block.Some? || n in rows {
        var overrideActive := OVERRIDE_LABEL in issue.labels;
        var prev := if n in rows then Some(rows[n]) else None;
        rows := rows[n := Row(verdict, overrideActive, version)];
        var changed := prev.None? || prev.value.verdict != verdict || prev.value.overrideActive != overrideActive;
        if changed && recorder {
          gone := prev.Some? && IsGated(prev.value.verdict) && !IsGated(verdict);
        }
      }
    }
  }

  method Judge(w: World, n: int, deps: seq<Dependency>, cycles: map<int, seq<int>>, cache: map<int, Detail>)
    returns (verdict: Verdict, cache': map<int, Detail>)
    requires n in w.open && deps == DepsOf(w.repo, w.open[n]) && CacheOk(w, cache)
    requires forall m :: m in cycles ==> cycles[m] != []
    ensures verdict == VerdictOf(w, w.open[n], n in cycles) && CacheOk(w, cache')
  {
    var path := if n in cycles then cycles[n] else [];
    DepsWellFormed(w.repo, w.open[n]);
    verdict, cache' := BuildResolveResult(w, w.open[n], deps, path, cache);
  }

  lemma DepsWellFormed(repo: string, issue: Issue)
    ensures forall i :: 0 <= i < |DepsOf(repo, issue)| ==> WellFormed(repo, DepsOf(repo, issue)[i])
  {
    if issue.block.Some? { DeclaredIsOrdered(repo, issue.block.value); }
  }

  /** Each issue is visited once, so its own iteration sees the row from before the call. */
  lemma MergeStep(rows: map<int, Row>, news: map<int, Row>, blocks: set<int>, order: seq<int>, i: int)
    requires 0 <= i < |order| && NoRepeats(order) && order[i] in news
    ensures var n := order[i];
            var now := Merge(rows, news, blocks, Elements(order[..i]));
            && (n in now <==> n in rows)
            && (n in rows ==> now[n] == rows[n])
            && Merge(rows, news, blocks, Elements(order[..i + 1])) ==
               (if n in blocks || n in rows then now[n := news[n]] else now)
            && Freed(rows, news, order[..i + 1]) ==
               Freed(rows, news, order[..i]) + if Released(rows, news, n) then [n] else []
  {
    var n := order[i];
    assert order[..i + 1] == order[..i] + [n] && order[..i + 1][..i] == order[..i];
    assert n !in order[..i];
    ElementsAre(order[..i + 1], Elements(order[..i]) + {n});
    MergeOne(rows, news, blocks, Elements(order[..i]), n);
  }

  lemma MergeOne(rows: map<int, Row>, news: map<int, Row>, blocks: set<int>, done: set<int>, n: int)
    requires n !in done && n in news
    ensures var now := Merge(rows, news, blocks, done);
            && (n in now <==> n in rows)
            && (n in rows ==> now[n] == rows[n])
            && Merge(rows, news, blocks, done + {n}) == if n in blocks || n in rows then now[n := news[n]] else now
  {}
}
