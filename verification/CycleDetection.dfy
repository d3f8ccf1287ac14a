/** detectCycles: a three-colour depth-first search over the dependency graph. */
module CycleDetection {
  import opened Graph
  import opened Sorting

  /** Absence from the colour map is white, as for a Go map of zero values. */
  datatype Color = Gray | Black

  /** The three variables the recursive closure shares. */
  datatype Search = Search(colors: map<int, Color>, stack: seq<int>, out: map<int, seq<int>>)

  const START := Search(map[], [], map[])

  // ----- specification: the search as a function -----------------------------------

  /** The part of the stack from the target on, closed by the target; the whole stack
      when the target is not on it. */
  function CyclePath(stack: seq<int>, target: int): seq<int> {
    (if target in stack then stack[Located(stack, target)..] else stack) + [target]
  }

  function Located(stack: seq<int>, target: int): (i: nat)
    requires target in stack
    ensures i < |stack| && stack[i] == target && target !in stack[..i]
  {
    if stack[0] == target then 0
    else
      var i := Located(stack[1..], target);
      assert stack[..1 + i] == [stack[0]] + stack[1..][..i];
      1 + i
  }

  function Record(out: map<int, seq<int>>, path: seq<int>): map<int, seq<int>> {
    out + map n | n in path :: path
  }

  function Opened(s: Search, node: int): Search {
    Search(s.colors[node := Gray], s.stack + [node], s.out)
  }

  function Closed(s: Search, node: int): Search
    requires s.stack != []
  {
    Search(s.colors[node := Black], s.stack[..|s.stack| - 1], s.out)
  }

  function Visit(g: Adjacency, s: Search, node: int): (r: Search)
    requires node in Nodes(g) && node !in s.colors
    ensures s.colors.Keys + {node} <= r.colors.Keys
    ensures r.stack == s.stack
    decreases Nodes(g) - s.colors.Keys, 0
  {
    SuccessorsAreNodes(g, node);
    var s1 := Opened(s, node);
    assert node in Nodes(g) - s.colors.Keys && node !in Nodes(g) - s1.colors.Keys;
    Closed(Scan(g, s1, Successors(g, node)), node)
  }

  function Scan(g: Adjacency, s: Search, nexts: seq<int>): (r: Search)
    requires forall i :: 0 <= i < |nexts| ==> nexts[i] in Nodes(g)
    ensures s.colors.Keys <= r.colors.Keys
    ensures r.stack == s.stack
    decreases Nodes(g) - s.colors.Keys, |nexts|
  {
    if nexts == [] then s
    else
      var next := nexts[0];
      if next !in s.colors then
        Scan(g, Visit(g, s, next), nexts[1..])
      else if s.colors[next] == Gray then
        Scan(g, s.(out := Record(s.out, CyclePath(s.stack, next))), nexts[1..])
      else
        Scan(g, s, nexts[1..])
  }

  function VisitAll(g: Adjacency, s: Search, keys: seq<int>): (r: Search)
    requires forall i :: 0 <= i < |keys| ==> keys[i] in Nodes(g)
    ensures r.stack == s.stack
    decreases |keys|
  {
    if keys == [] then s
    else VisitAll(g, if keys[0] !in s.colors then Visit(g, s, keys[0]) else s, keys[1..])
  }

  predicate IntLeq(a: int, b: int) {
    a <= b
  }

  lemma {:induction false} LeastExists(s: set<int>)
    requires s != {}
    ensures exists x :: x in s && forall y :: y in s ==> x <= y
  {
    var a := Member(s);
    if s != {a} {
      LeastExists(s - {a});
      var b :| b in s - {a} && forall y :: y in s - {a} ==> b <= y;
      var x := if a <= b then a else b;
      forall y | y in s ensures x <= y {
        if y != a { assert y in s - {a}; }
      }
      assert x in s;
    }
  }

  function Least(s: set<int>): (x: int)
    requires s != {}
    ensures x in s && forall y :: y in s ==> x <= y
  {
    LeastExists(s);
    var x :| x in s && forall y :: y in s ==> x <= y;
    x
  }

  /** The keys in the order sort.Ints leaves them. */
  function SortedKeys(s: set<int>): (r: seq<int>)
    ensures forall n :: n in r <==> n in s
  {
    if s == {} then [] else [Least(s)] + SortedKeys(s - {Least(s)})
  }

  /** What detectCycles returns: for each flagged node, the cycle recorded for it last. */
  function Cycles(g: Adjacency): map<int, seq<int>> {
    VisitAll(g, START, SortedKeys(g.Keys)).out
  }

  // ----- what every step of the search keeps ---------------------------------------

  /** Gray nodes are exactly the stack, which is a repetition-free walk. */
  ghost predicate StackOk(g: Adjacency, s: Search) {
    && (forall n :: n in s.colors && s.colors[n] == Gray <==> n in s.stack)
    && NoRepeats(s.stack)
    && (s.stack != [] ==> IsWalk(g, s.stack))
  }

  ghost predicate RecordsOk(g: Adjacency, out: map<int, seq<int>>) {
    forall n :: n in out ==> n in out[n] && IsSimpleCycle(g, out[n]) && PathRecorded(out, out[n])
  }

  ghost predicate PathRecorded(out: map<int, seq<int>>, path: seq<int>) {
    forall i :: 0 <= i < |path| ==> path[i] in out
  }

  /** The edge a -> b is settled: b is finished, or the edge was recorded as a back edge. */
  ghost predicate Settled(s: Search, a: int, b: int) {
    b in s.colors && (s.colors[b] == Black || (a in s.out && b in s.out))
  }

  ghost predicate BlackOk(g: Adjacency, s: Search) {
    forall a, b {:trigger Edge(g, a, b)} :: a in s.colors && s.colors[a] == Black && Edge(g, a, b) ==> Settled(s, a, b)
  }

  ghost predicate BothFlagged(out: map<int, seq<int>>, c: seq<int>, i: int) {
    0 <= i < |c| - 1 && c[i] in out && c[i + 1] in out
  }

  /** Some edge of the walk has both ends recorded. */
  ghost predicate FlaggedEdge(out: map<int, seq<int>>, c: seq<int>) {
    exists i :: BothFlagged(out, c, i)
  }

  lemma FlaggedEdgeGrows(out: map<int, seq<int>>, more: map<int, seq<int>>, c: seq<int>)
    requires FlaggedEdge(out, c) && out.Keys <= more.Keys
    ensures FlaggedEdge(more, c)
  {
    var i :| BothFlagged(out, c, i);
    assert BothFlagged(more, c, i);
  }

  ghost predicate AllBlack(s: Search, c: seq<int>) {
    forall i :: 0 <= i < |c| ==> c[i] in s.colors && s.colors[c[i]] == Black
  }

  ghost predicate CyclesFlagged(g: Adjacency, s: Search) {
    forall c :: IsCycle(g, c) && AllBlack(s, c) ==> FlaggedEdge(s.out, c)
  }

  ghost predicate Inv(g: Adjacency, s: Search) {
    StackOk(g, s) && RecordsOk(g, s.out) && BlackOk(g, s) && CyclesFlagged(g, s) && s.out.Keys <= s.colors.Keys
  }

  /** Colours never revert and records never disappear while the stack is as it was. */
  ghost predicate Grows(s: Search, r: Search) {
    && r.stack == s.stack
    && (forall n :: n in s.colors ==> n in r.colors && r.colors[n] == s.colors[n])
    && s.out.Keys <= r.out.Keys
  }

  lemma BackEdgeIsCycle(g: Adjacency, s: Search, next: int)
    requires StackOk(g, s) && next in s.stack && Edge(g, s.stack[|s.stack| - 1], next)
    ensures IsSimpleCycle(g, CyclePath(s.stack, next))
    ensures next in CyclePath(s.stack, next) && s.stack[|s.stack| - 1] in CyclePath(s.stack, next)
  {
    var k := Located(s.stack, next);
    var c := CyclePath(s.stack, next);
    assert c == s.stack[k..] + [next];
    forall i | 0 <= i < |c| - 1 ensures Edge(g, c[i], c[i + 1]) {
      assert c[i] == s.stack[k + i];
      if i < |c| - 2 { assert c[i + 1] == s.stack[k + i + 1]; }
    }
    assert c[..|c| - 1] == s.stack[k..];
    assert c[|c| - 2] == s.stack[|s.stack| - 1];
  }

  lemma RecordKeepsRecords(g: Adjacency, out: map<int, seq<int>>, path: seq<int>)
    requires RecordsOk(g, out) && IsSimpleCycle(g, path)
    ensures RecordsOk(g, Record(out, path))
  {
    var r := Record(out, path);
    forall n | n in r ensures n in r[n] && IsSimpleCycle(g, r[n]) && PathRecorded(r, r[n]) {
      if n !in path {
        assert r[n] == out[n] && PathRecorded(out, out[n]);
      }
    }
  }

  lemma RecordKeepsInv(g: Adjacency, s: Search, next: int) returns (r: Search)
    requires Inv(g, s) && next in s.stack && Edge(g, s.stack[|s.stack| - 1], next)
    ensures r == s.(out := Record(s.out, CyclePath(s.stack, next)))
    ensures Inv(g, r) && Grows(s, r) && Settled(r, s.stack[|s.stack| - 1], next)
  {
    var path := CyclePath(s.stack, next);
    BackEdgeIsCycle(g, s, next);
    RecordKeepsRecords(g, s.out, path);
    forall n | n in path ensures n in s.colors {
      assert n in s.stack;
    }
    r := s.(out := Record(s.out, path));
    assert BlackOk(g, r) by {
      forall a, b | a in r.colors && r.colors[a] == Black && Edge(g, a, b) ensures Settled(r, a, b) {
        assert Settled(s, a, b);
      }
    }
    forall c | IsCycle(g, c) && AllBlack(r, c) ensures FlaggedEdge(r.out, c) {
      assert AllBlack(s, c);
      FlaggedEdgeGrows(s.out, r.out, c);
    }
  }

  /** Opening a node: it turns gray and goes on the stack. */
  lemma OpenKeepsInv(g: Adjacency, s: Search, node: int)
    requires Inv(g, s) && node !in s.colors
    requires s.stack == [] || Edge(g, s.stack[|s.stack| - 1], node)
    ensures Inv(g, Opened(s, node))
  {
    var r := Opened(s, node);
    assert node !in s.stack;
    forall i | 0 <= i < |r.stack| - 1 ensures Edge(g, r.stack[i], r.stack[i + 1]) {
      if i < |s.stack| - 1 { assert Edge(g, s.stack[i], s.stack[i + 1]); }
    }
    forall a, b | a in r.colors && r.colors[a] == Black && Edge(g, a, b) ensures Settled(r, a, b) {
      assert Settled(s, a, b);
    }
    forall c | IsCycle(g, c) && AllBlack(r, c) ensures FlaggedEdge(r.out, c) {
      assert AllBlack(s, c);
    }
  }

  /** Closing a node whose edges are all settled: a new all-black cycle must enter it by an
      edge that was recorded while it was still on the stack. */
  lemma CloseKeepsInv(g: Adjacency, s: Search, node: int)
    requires Inv(g, s) && s.stack != [] && s.stack[|s.stack| - 1] == node
    requires forall i :: 0 <= i < |Successors(g, node)| ==> Settled(s, node, Successors(g, node)[i])
    ensures Inv(g, Closed(s, node))
  {
    var r := Closed(s, node);
    assert s.stack == r.stack + [node];
    assert node !in r.stack;
    forall i | 0 <= i < |r.stack| - 1 ensures Edge(g, r.stack[i], r.stack[i + 1]) {
      assert Edge(g, s.stack[i], s.stack[i + 1]);
    }
    forall a, b | a in r.colors && r.colors[a] == Black && Edge(g, a, b) ensures Settled(r, a, b) {
      assert Settled(s, a, b);
    }
    forall c | IsCycle(g, c) && AllBlack(r, c) ensures FlaggedEdge(r.out, c) {
      if AllBlack(s, c) {
      } else {
        var k :| 0 <= k < |c| && !(c[k] in s.colors && s.colors[c[k]] == Black);
        assert c[k] == node;
        var j := if k == 0 then |c| - 1 else k;
        assert c[j] == node && Edge(g, c[j - 1], c[j]);
        assert Settled(s, c[j - 1], node);
        assert BothFlagged(r.out, c, j - 1);
      }
    }
  }

  lemma GrowsTransitive(s: Search, m: Search, r: Search)
    requires Grows(s, m) && Grows(m, r)
    ensures Grows(s, r)
  {}

  lemma CloseGrows(s: Search, node: int, m: Search)
    requires node !in s.colors && Grows(Opened(s, node), m)
    ensures Grows(s, Closed(m, node)) && Closed(m, node).colors[node] == Black
  {
    assert m.stack == s.stack + [node];
  }

  lemma {:induction false} VisitKeepsInv(g: Adjacency, s: Search, node: int)
    requires Inv(g, s) && node in Nodes(g) && node !in s.colors
    requires s.stack == [] || Edge(g, s.stack[|s.stack| - 1], node)
    ensures Inv(g, Visit(g, s, node)) && Grows(s, Visit(g, s, node))
    ensures node in Visit(g, s, node).colors && Visit(g, s, node).colors[node] == Black
    decreases Nodes(g) - s.colors.Keys, 0
  {
    SuccessorsAreNodes(g, node);
    OpenKeepsInv(g, s, node);
    var s1 := Opened(s, node);
    assert node in Nodes(g) - s.colors.Keys && node !in Nodes(g) - s1.colors.Keys;
    assert s1.stack[|s1.stack| - 1] == node;
    ScanKeepsInv(g, s1, Successors(g, node));
    var s2 := Scan(g, s1, Successors(g, node));
    CloseKeepsInv(g, s2, node);
    CloseGrows(s, node, s2);
  }

  lemma {:induction false} ScanKeepsInv(g: Adjacency, s: Search, nexts: seq<int>)
    requires forall i :: 0 <= i < |nexts| ==> nexts[i] in Nodes(g)
    requires Inv(g, s) && s.stack != []
    requires forall i :: 0 <= i < |nexts| ==> Edge(g, s.stack[|s.stack| - 1], nexts[i])
    ensures Inv(g, Scan(g, s, nexts)) && Grows(s, Scan(g, s, nexts))
    ensures forall i :: 0 <= i < |nexts| ==> Settled(Scan(g, s, nexts), s.stack[|s.stack| - 1], nexts[i])
    decreases Nodes(g) - s.colors.Keys, 2 + |nexts|
  {
    if nexts == [] {
    } else {
      var top, next := s.stack[|s.stack| - 1], nexts[0];
      var m := EdgeKeepsInv(g, s, next);
      ScanStep(g, s, nexts);
      ScanKeepsInv(g, m, nexts[1..]);
      var r := Scan(g, m, nexts[1..]);
      GrowsTransitive(s, m, r);
      SettledPersists(m, r, top, next);
      forall i | 0 <= i < |nexts| ensures Settled(r, top, nexts[i]) {
        if i > 0 { assert nexts[i] == nexts[1..][i - 1]; }
      }
    }
  }

  /** Following one edge out of the top of the stack. */
  function Followed(g: Adjacency, s: Search, next: int): (r: Search)
    requires next in Nodes(g)
    ensures s.colors.Keys <= r.colors.Keys
  {
    if next !in s.colors then Visit(g, s, next)
    else if s.colors[next] == Gray then s.(out := Record(s.out, CyclePath(s.stack, next)))
    else s
  }

  lemma ScanStep(g: Adjacency, s: Search, nexts: seq<int>)
    requires nexts != [] && forall i :: 0 <= i < |nexts| ==> nexts[i] in Nodes(g)
    ensures Scan(g, s, nexts) == Scan(g, Followed(g, s, nexts[0]), nexts[1..])
  {}

  lemma {:induction false} EdgeKeepsInv(g: Adjacency, s: Search, next: int) returns (m: Search)
    requires Inv(g, s) && s.stack != [] && Edge(g, s.stack[|s.stack| - 1], next) && next in Nodes(g)
    ensures m == Followed(g, s, next) && Inv(g, m) && Grows(s, m) && Settled(m, s.stack[|s.stack| - 1], next)
    decreases Nodes(g) - s.colors.Keys, 1
  {
    if next !in s.colors {
      VisitKeepsInv(g, s, next);
      m := Visit(g, s, next);
    } else if s.colors[next] == Gray {
      m := RecordKeepsInv(g, s, next);
    } else {
      m := s;
    }
  }

  lemma SettledPersists(s: Search, r: Search, a: int, b: int)
    requires Settled(s, a, b) && Grows(s, r)
    ensures Settled(r, a, b)
  {}

  lemma {:induction false} VisitAllKeepsInv(g: Adjacency, s: Search, keys: seq<int>)
    requires forall i :: 0 <= i < |keys| ==> keys[i] in Nodes(g)
    requires Inv(g, s) && s.stack == []
    ensures var r := VisitAll(g, s, keys);
            Inv(g, r) && Grows(s, r) && forall n :: n in keys ==> n in r.colors
    decreases |keys|
  {
    if keys == [] {
    } else {
      var m := s;
      if keys[0] !in s.colors {
        VisitKeepsInv(g, s, keys[0]);
        m := Visit(g, s, keys[0]);
      }
      VisitAllKeepsInv(g, m, keys[1..]);
      GrowsTransitive(s, m, VisitAll(g, m, keys[1..]));
    }
  }

  lemma SearchEndsInInv(g: Adjacency) returns (r: Search)
    ensures r == VisitAll(g, START, SortedKeys(g.Keys)) && Inv(g, r) && r.stack == []
    ensures forall n :: n in g ==> n in r.colors && r.colors[n] == Black
  {
    r := VisitAll(g, START, SortedKeys(g.Keys));
    VisitAllKeepsInv(g, START, SortedKeys(g.Keys));
  }

  // ----- main results --------------------------------------------------------------

  /** Soundness: what is recorded for a node is a simple cycle of the graph through it. */
  lemma CyclesSound(g: Adjacency, n: int)
    requires n in Cycles(g)
    ensures IsSimpleCycle(g, Cycles(g)[n]) && n in Cycles(g)[n]
  {
    var r := SearchEndsInInv(g);
  }

  /** Completeness: every cycle has an edge with both ends flagged. */
  lemma CyclesComplete(g: Adjacency, c: seq<int>)
    requires IsCycle(g, c)
    ensures FlaggedEdge(Cycles(g), c)
  {
    var r := SearchEndsInInv(g);
    CycleNodesAreKeys(g, c);
    assert AllBlack(r, c);
    assert FlaggedEdge(r.out, c);
  }

  lemma EmptyIffAcyclic(g: Adjacency)
    ensures Cycles(g) == map[] <==> Acyclic(g)
  {
    if Cycles(g) == map[] {
      forall c ensures !IsCycle(g, c) {
        if IsCycle(g, c) {
          CyclesComplete(g, c);
        }
      }
    }
    if Acyclic(g) {
      forall n ensures n !in Cycles(g) {
        if n in Cycles(g) { CyclesSound(g, n); }
      }
    }
  }

  /** Every trapped set of issues has a flagged member. */
  lemma TrappedSetIsFlagged(g: Adjacency, s: set<int>) returns (n: int)
    requires Trapped(g, s) && s != {}
    ensures n in s && n in Cycles(g)
  {
    var c := TrappedHasCycle(g, s);
    CyclesComplete(g, c);
    var i :| BothFlagged(Cycles(g), c, i);
    n := c[i];
  }

  // ----- which nodes of a cycle are flagged -----------------------------------------

  /** Only one edge out of a is part of a cycle. */
  ghost predicate SoleCyclicEdge(g: Adjacency, a: int) {
    forall b, d :: CyclicEdge(g, a, b) && CyclicEdge(g, a, d) ==> b == d
  }

  ghost predicate SoleCycle(g: Adjacency, c: seq<int>) {
    IsCycle(g, c) && forall k :: 0 <= k < |c| ==> SoleCyclicEdge(g, c[k])
  }

  lemma NextOnCycle(g: Adjacency, p: seq<int>, a: int) returns (k: nat)
    requires IsCycle(g, p) && a in p
    ensures k < |p| && CyclicEdge(g, a, p[k])
  {
    var q :| 0 <= q < |p| && p[q] == a;
    k := if q == |p| - 1 then 1 else q + 1;
    assert Takes(p, k - 1, a, p[k]);
  }

  /** A flagged node has a flagged successor on a cycle: the next one on its recorded path. */
  lemma FlaggedSuccessor(g: Adjacency, out: map<int, seq<int>>, a: int) returns (b: int)
    requires RecordsOk(g, out) && a in out
    ensures b in out && CyclicEdge(g, a, b)
  {
    var k := NextOnCycle(g, out[a], a);
    assert PathRecorded(out, out[a]);
    b := out[a][k];
  }

  ghost predicate FlagsFollow(flagged: set<int>, c: seq<int>) {
    forall k :: 0 <= k < |c| - 1 && c[k] in flagged ==> c[k + 1] in flagged
  }

  lemma SoleEdgesFollow(g: Adjacency, out: map<int, seq<int>>, c: seq<int>)
    requires RecordsOk(g, out) && SoleCycle(g, c)
    ensures FlagsFollow(out.Keys, c)
  {
    forall k | 0 <= k < |c| - 1 && c[k] in out ensures c[k + 1] in out {
      var b := FlaggedSuccessor(g, out, c[k]);
      assert Takes(c, k, c[k], c[k + 1]);
      assert CyclicEdge(g, c[k], c[k + 1]) && SoleCyclicEdge(g, c[k]);
    }
  }

  lemma {:induction false} FlagMovesTo(flagged: set<int>, c: seq<int>, i: nat, j: nat)
    requires FlagsFollow(flagged, c) && i <= j < |c| && c[i] in flagged
    ensures c[j] in flagged
    decreases j - i
  {
    if i == j {
    } else {
      FlagMovesTo(flagged, c, i + 1, j);
    }
  }

  lemma FlagsGoRound(flagged: set<int>, c: seq<int>, i: nat, j: nat)
    requires FlagsFollow(flagged, c) && i < |c| && c[i] in flagged && c[0] == c[|c| - 1] && j < |c|
    ensures c[j] in flagged
  {
    FlagMovesTo(flagged, c, i, |c| - 1);
    FlagMovesTo(flagged, c, 0, j);
  }

  /** A cycle none of whose nodes has a second edge on a cycle is flagged entirely. */
  lemma SoleCycleIsFlagged(g: Adjacency, c: seq<int>, j: nat)
    requires SoleCycle(g, c) && j < |c|
    ensures c[j] in Cycles(g)
  {
    var r := SearchEndsInInv(g);
    SoleEdgesFollow(g, r.out, c);
    CyclesComplete(g, c);
    var i :| BothFlagged(Cycles(g), c, i);
    FlagsGoRound(r.out.Keys, c, i, j);
  }

  /** Where no node has two edges on cycles, exactly the nodes on cycles are flagged. */
  lemma DisjointCyclesFlaggedIff(g: Adjacency, n: int)
    requires forall a :: SoleCyclicEdge(g, a)
    ensures n in Cycles(g) <==> OnCycle(g, n)
  {
    if n in Cycles(g) {
      CyclesSound(g, n);
    }
    if OnCycle(g, n) {
      var c :| IsCycle(g, c) && n in c;
      var j :| 0 <= j < |c| && c[j] == n;
      assert SoleCycle(g, c);
      SoleCycleIsFlagged(g, c, j);
    }
  }

  /** Cycles of one or two nodes are flagged entirely, whatever else the graph holds. */
  lemma ShortCycleIsFlagged(g: Adjacency, a: int, b: int)
    requires Edge(g, a, b) && Edge(g, b, a)
    ensures a in Cycles(g) && b in Cycles(g)
  {
    var c := [a, b, a];
    assert Edge(g, c[0], c[1]) && Edge(g, c[1], c[2]);
    CyclesComplete(g, c);
  }

  /** The search from a node colours only what the node reaches. */
  lemma {:induction false} VisitColoursReached(g: Adjacency, s: Search, node: int, n: int)
    requires node in Nodes(g) && node !in s.colors && n in Visit(g, s, node).colors && n !in s.colors
    ensures Reaches(g, node, n)
    decreases Nodes(g) - s.colors.Keys, 0
  {
    if n == node {
      ReachesSelf(g, node);
    } else {
      SuccessorsAreNodes(g, node);
      var s1 := Opened(s, node);
      assert node in Nodes(g) - s.colors.Keys && node !in Nodes(g) - s1.colors.Keys;
      var m := ScanColoursReached(g, s1, Successors(g, node), n);
      ReachesFurther(g, node, m, n);
    }
  }

  lemma {:induction false} ScanColoursReached(g: Adjacency, s: Search, nexts: seq<int>, n: int) returns (m: int)
    requires forall i :: 0 <= i < |nexts| ==> nexts[i] in Nodes(g)
    requires n in Scan(g, s, nexts).colors && n !in s.colors
    ensures m in nexts && Reaches(g, m, n)
    decreases Nodes(g) - s.colors.Keys, |nexts|
  {
    m := nexts[0];
    if m in s.colors {
      var s' := if s.colors[m] == Gray then s.(out := Record(s.out, CyclePath(s.stack, m))) else s;
      assert Scan(g, s, nexts) == Scan(g, s', nexts[1..]);
      m := ScanColoursReached(g, s', nexts[1..], n);
    } else if n in Visit(g, s, m).colors {
      VisitColoursReached(g, s, m, n);
    } else {
      m := ScanColoursReached(g, Visit(g, s, m), nexts[1..], n);
    }
  }

  ghost predicate ColouredClosed(g: Adjacency, s: Search) {
    forall a, b {:trigger Edge(g, a, b)} :: a in s.colors && Edge(g, a, b) ==> b in s.colors
  }

  lemma {:induction false} WalkIsColoured(g: Adjacency, s: Search, c: seq<int>, i: nat)
    requires ColouredClosed(g, s) && IsWalk(g, c) && c[0] in s.colors && i < |c|
    ensures c[i] in s.colors
  {
    if i == 0 {
    } else {
      WalkIsColoured(g, s, c, i - 1);
      assert Edge(g, c[i - 1], c[i]);
    }
  }

  /** With node alone on the stack and its edges scanned, no edge leaves the coloured nodes, and
      every edge into node from another coloured node has been recorded. */
  lemma RootScanned(g: Adjacency, s: Search, node: int)
    requires Inv(g, s) && s.stack == [node]
    requires forall k :: 0 <= k < |Successors(g, node)| ==> Settled(s, node, Successors(g, node)[k])
    ensures node in s.colors && ColouredClosed(g, s)
    ensures forall p {:trigger Edge(g, p, node)} :: p in s.colors && Edge(g, p, node) ==> node in s.out
  {
    assert node in s.stack;
    forall a, b | a in s.colors && Edge(g, a, b) ensures Settled(s, a, b) {
      if s.colors[a] == Gray {
        assert a in s.stack && a == node;
      }
    }
  }

  /** A search started at the top level flags its start if that lies on a cycle. */
  lemma RootVisitFlags(g: Adjacency, s: Search, node: int, c: seq<int>)
    requires Inv(g, s) && s.stack == [] && node in Nodes(g) && node !in s.colors && IsCycle(g, c) && c[0] == node
    ensures node in Visit(g, s, node).out
  {
    SuccessorsAreNodes(g, node);
    OpenKeepsInv(g, s, node);
    var s1 := Opened(s, node);
    assert s1.stack[|s1.stack| - 1] == node;
    ScanKeepsInv(g, s1, Successors(g, node));
    var s2 := Scan(g, s1, Successors(g, node));
    RootScanned(g, s2, node);
    WalkIsColoured(g, s2, c, |c| - 2);
    assert Edge(g, c[|c| - 2], c[|c| - 1]);
  }

  /** The state after the first key's turn. */
  ghost function FirstTurn(g: Adjacency, s: Search, first: int): Search
    requires first in Nodes(g)
  {
    if first !in s.colors then Visit(g, s, first) else s
  }

  lemma FirstTurnKeeps(g: Adjacency, s: Search, first: int)
    requires first in Nodes(g) && Inv(g, s) && s.stack == []
    ensures Inv(g, FirstTurn(g, s, first)) && FirstTurn(g, s, first).stack == []
    ensures forall n :: n in FirstTurn(g, s, first).colors && n !in s.colors ==> Reaches(g, first, n)
  {
    if first !in s.colors {
      VisitKeepsInv(g, s, first);
      forall n | n in Visit(g, s, first).colors && n !in s.colors ensures Reaches(g, first, n) {
        VisitColoursReached(g, s, first, n);
      }
    }
  }

  lemma FirstIsFlagged(g: Adjacency, s: Search, keys: seq<int>, c: seq<int>)
    requires Inv(g, s) && s.stack == [] && keys != [] && forall k :: 0 <= k < |keys| ==> keys[k] in Nodes(g)
    requires keys[0] !in s.colors && IsCycle(g, c) && c[0] == keys[0]
    ensures keys[0] in VisitAll(g, s, keys).out
  {
    RootVisitFlags(g, s, keys[0], c);
    VisitKeepsInv(g, s, keys[0]);
    VisitAllKeepsInv(g, Visit(g, s, keys[0]), keys[1..]);
  }

  ghost predicate NoneReaches(g: Adjacency, keys: seq<int>, n: int) {
    forall k :: 0 <= k < |keys| ==> !Reaches(g, keys[k], n)
  }

  lemma StillWhite(g: Adjacency, s: Search, first: int, n: int)
    requires first in Nodes(g) && Inv(g, s) && s.stack == [] && n !in s.colors && !Reaches(g, first, n)
    ensures Inv(g, FirstTurn(g, s, first)) && FirstTurn(g, s, first).stack == [] && n !in FirstTurn(g, s, first).colors
  {
    FirstTurnKeeps(g, s, first);
  }

  lemma NoneReachesTail(g: Adjacency, keys: seq<int>, i: nat)
    requires 0 < i < |keys| && NoneReaches(g, keys[..i], keys[i])
    ensures !Reaches(g, keys[0], keys[i]) && NoneReaches(g, keys[1..][..i - 1], keys[i]) && keys[1..][i - 1] == keys[i]
  {
    assert keys[..i][0] == keys[0] && keys[1..][..i - 1] == keys[..i][1..];
  }

  lemma TurnsAfter(g: Adjacency, s: Search, keys: seq<int>)
    requires keys != [] && forall k :: 0 <= k < |keys| ==> keys[k] in Nodes(g)
    ensures forall k :: 0 <= k < |keys[1..]| ==> keys[1..][k] in Nodes(g)
    ensures VisitAll(g, s, keys) == VisitAll(g, FirstTurn(g, s, keys[0]), keys[1..])
  {}

  lemma {:induction false} RootIsFlagged(g: Adjacency, s: Search, keys: seq<int>, i: nat, c: seq<int>)
    requires Inv(g, s) && s.stack == [] && forall k :: 0 <= k < |keys| ==> keys[k] in Nodes(g)
    requires i < |keys| && keys[i] !in s.colors && NoneReaches(g, keys[..i], keys[i])
    requires IsCycle(g, c) && c[0] == keys[i]
    ensures keys[i] in VisitAll(g, s, keys).out
    decreases i
  {
    if i == 0 {
      FirstIsFlagged(g, s, keys, c);
    } else {
      NoneReachesTail(g, keys, i);
      StillWhite(g, s, keys[0], keys[i]);
      TurnsAfter(g, s, keys);
      RootIsFlagged(g, FirstTurn(g, s, keys[0]), keys[1..], i - 1, c);
    }
  }

  lemma KeysBelow(g: Adjacency, n: int) returns (i: nat)
    requires n in g
    ensures i < |SortedKeys(g.Keys)| && SortedKeys(g.Keys)[i] == n
    ensures forall k :: 0 <= k < i ==> SortedKeys(g.Keys)[k] in g && SortedKeys(g.Keys)[k] < n
  {
    var keys := SortedKeys(g.Keys);
    i := Located(keys, n);
    SortedKeysOrdered(g.Keys);
    forall k | 0 <= k < i ensures keys[k] in g && keys[k] < n {
      assert keys[k] in keys && keys[k] in keys[..i];
      assert IntLeq(keys[k], keys[i]);
    }
  }

  /** A node that no smaller key reaches is flagged exactly when it lies on a cycle. */
  lemma UnreachedFromBelowFlaggedIff(g: Adjacency, n: int)
    requires forall k :: k in g && k < n ==> !Reaches(g, k, n)
    ensures n in Cycles(g) <==> OnCycle(g, n)
  {
    if n in Cycles(g) {
      CyclesSound(g, n);
    }
    if OnCycle(g, n) {
      var c :| IsCycle(g, c) && n in c;
      var d := CycleFrom(g, c, n);
      StartIsFlagged(g, d);
    }
  }

  lemma StartIsFlagged(g: Adjacency, c: seq<int>)
    requires IsCycle(g, c) && forall k :: k in g && k < c[0] ==> !Reaches(g, k, c[0])
    ensures c[0] in Cycles(g)
  {
    CycleNodesAreKeys(g, c);
    var i := KeysBelow(g, c[0]);
    RootIsFlagged(g, START, SortedKeys(g.Keys), i, c);
  }

  // ----- the search as the source runs it ------------------------------------------

  /** The index loop of extractCyclePath. */
  method ExtractCyclePath(stack: seq<int>, target: int) returns (path: seq<int>)
    ensures path == CyclePath(stack, target)
  {
    var start := 0;
    var i := 0;
    while i < |stack|
      invariant 0 <= i <= |stack| && start == 0 && target !in stack[..i]
    {
      if stack[i] == target {
        start := i;
        break;
      }
      i := i + 1;
    }
    if i < |stack| {
      assert Located(stack, target) == i;
    }
    path := stack[start..] + [target];
  }

  class Detector {
    const graph: Adjacency
    var colors: map<int, Color>
    var stack: seq<int>
    var out: map<int, seq<int>>

    ghost function State(): Search
      reads this
    {
      Search(colors, stack, out)
    }

    constructor (graph: Adjacency)
      ensures this.graph == graph && State() == START
    {
      this.graph := graph;
      colors, stack, out := map[], [], map[];
    }

    method VisitNode(node: int)
      requires node in Nodes(graph) && node !in colors
      modifies this
      ensures State() == Visit(graph, old(State()), node)
      decreases Nodes(graph) - colors.Keys, 0
    {
      colors := colors[node := Gray];
      stack := stack + [node];
      SuccessorsAreNodes(graph, node);
      var nexts := Successors(graph, node);
      ghost var entered := State();
      var i := 0;
      while i < |nexts|
        invariant 0 <= i <= |nexts|
        invariant entered.colors.Keys <= colors.Keys && stack == entered.stack
        invariant Scan(graph, State(), nexts[i..]) == Scan(graph, entered, nexts)
      {
        assert nexts[i..][0] == nexts[i] && nexts[i..][1..] == nexts[i + 1..];
        assert node in Nodes(graph) - old(colors).Keys && node !in Nodes(graph) - colors.Keys;
        ScanStep(graph, State(), nexts[i..]);
        FollowEdge(nexts[i]);
        i := i + 1;
      }
      stack := stack[..|stack| - 1];
      colors := colors[node := Black];
    }

    /** The switch on the colour of one successor. */
    method FollowEdge(next: int)
      requires next in Nodes(graph)
      modifies this
      ensures State() == Followed(graph, old(State()), next) && stack == old(stack)
      decreases Nodes(graph) - colors.Keys, 1
    {
      if next !in colors {
        VisitNode(next);
      } else if colors[next] == Gray {
        var path := ExtractCyclePath(stack, next);
        out := out + map n | n in path :: path;
      }
    }

    method VisitKeys(keys: seq<int>)
      requires forall i :: 0 <= i < |keys| ==> keys[i] in Nodes(graph)
      modifies this
      ensures State() == VisitAll(graph, old(State()), keys)
    {
      var i := 0;
      while i < |keys|
        invariant 0 <= i <= |keys|
        invariant VisitAll(graph, State(), keys[i..]) == VisitAll(graph, old(State()), keys)
      {
        assert keys[i..][0] == keys[i] && keys[i..][1..] == keys[i + 1..];
        if keys[i] !in colors {
          VisitNode(keys[i]);
        }
        i := i + 1;
      }
    }

    /** `keys` is the graph's keys in whatever order the map iteration produced them. */
    method DetectCycles(keys: seq<int>)
      requires State() == START && multiset(keys) == multiset(graph.Keys)
      modifies this
      ensures out == Cycles(graph)
    {
      SortedKeysUnique(keys, graph.Keys);
      VisitKeys(Sort(keys, IntLeq));
    }
  }

  lemma {:induction false} SortedKeysMultiset(s: set<int>)
    ensures multiset(SortedKeys(s)) == multiset(s)
  {
    if s == {} {
    } else {
      var m := Least(s);
      SortedKeysMultiset(s - {m});
      assert SortedKeys(s) == [m] + SortedKeys(s - {m});
      assert multiset(s) == multiset(s - {m}) + multiset{m};
    }
  }

  lemma {:induction false} SortedKeysOrdered(s: set<int>)
    ensures Sorted(SortedKeys(s), IntLeq)
  {
    if s == {} {
    } else {
      var rest := SortedKeys(s - {Least(s)});
      SortedKeysOrdered(s - {Least(s)});
      forall i | 0 <= i < |rest| ensures Least(s) <= rest[i] {
        assert rest[i] in rest;
      }
    }
  }

  /** Any enumeration of the keys sorts to the same sequence. */
  lemma SortedKeysUnique(keys: seq<int>, s: set<int>)
    requires multiset(keys) == multiset(s)
    ensures Sort(keys, IntLeq) == SortedKeys(s)
  {
    assert TotalOrder(IntLeq);
    SortCorrect(keys, IntLeq);
    SortedKeysOrdered(s);
    SortedKeysMultiset(s);
    SortedUnique(Sort(keys, IntLeq), SortedKeys(s), IntLeq);
  }

  // ----- a cycle can have unflagged members ----------------------------------------

  lemma VisitSingle(g: Adjacency, s: Search, node: int, next: int)
    requires node in g && g[node] == [next] && node !in s.colors && next in s.colors
    requires next in s.stack <==> s.colors[next] == Gray
    ensures Visit(g, s, node) ==
            s.(colors := s.colors[node := Black],
               out := if s.colors[next] == Gray then Record(s.out, CyclePath(s.stack + [node], next)) else s.out)
  {
    SuccessorsAreNodes(g, node);
    var s1 := Opened(s, node);
    var s2 := if s1.colors[next] == Gray then s1.(out := Record(s1.out, CyclePath(s1.stack, next))) else s1;
    assert Scan(g, s1, [next]) == Scan(g, s2, [next][1..]) == s2;
    assert Closed(s2, node).stack == s.stack;
    assert Closed(s2, node).colors == s.colors[node := Black];
  }

  /** When the first visited key reaches every other key, the search ends there. */
  lemma FirstKeyDecides(g: Adjacency, first: int)
    requires first in g && forall n :: n in g ==> first <= n
    requires g.Keys <= Visit(g, START, first).colors.Keys
    ensures Cycles(g) == Visit(g, START, first).out
  {
    var r := Visit(g, START, first);
    var keys := SortedKeys(g.Keys);
    assert Least(g.Keys) == first;
    assert keys[0] == first && keys[1..] == SortedKeys(g.Keys - {first});
    forall i | 0 <= i < |keys[1..]| ensures keys[1..][i] in Nodes(g) && keys[1..][i] in r.colors {
      assert keys[1..][i] in SortedKeys(g.Keys - {first});
    }
    VisitAllColoured(g, r, keys[1..]);
  }

  lemma {:induction false} VisitAllColoured(g: Adjacency, s: Search, keys: seq<int>)
    requires forall i :: 0 <= i < |keys| ==> keys[i] in Nodes(g) && keys[i] in s.colors
    ensures VisitAll(g, s, keys) == s
  {
    if keys == [] {
    } else {
      VisitAllColoured(g, s, keys[1..]);
    }
  }

  lemma VisitLeaf(g: Adjacency, s: Search, node: int)
    requires node in Nodes(g) && node !in g && node !in s.colors
    ensures Visit(g, s, node) == s.(colors := s.colors[node := Black])
  {
    assert Opened(s, node).stack[..|s.stack|] == s.stack;
    assert Closed(Opened(s, node), node).colors == s.colors[node := Black];
  }

  /** Entering node, whose only successor is the white node next. */
  lemma VisitThrough(g: Adjacency, s: Search, node: int, next: int)
    requires node in g && g[node] == [next] && node !in s.colors && next !in s.colors && next != node
    requires next in Nodes(g)
    ensures Visit(g, s, node) == Closed(Visit(g, Opened(s, node), next), node)
  {
    var s1 := Opened(s, node);
    var s2 := Visit(g, s1, next);
    assert Scan(g, s1, [next]) == Scan(g, s2, [next][1..]) == s2;
  }

  /** first -> [c, d] with c and d white when their turn comes. */
  lemma VisitFork(g: Adjacency, s: Search, first: int, c: int, d: int)
    requires first in g && g[first] == [c, d] && c in Nodes(g) && d in Nodes(g)
    requires first !in s.colors && c != first && d != first && c !in s.colors
    requires d !in Visit(g, Opened(s, first), c).colors
    ensures Visit(g, s, first) == Closed(Visit(g, Visit(g, Opened(s, first), c), d), first)
  {
    var s1 := Opened(s, first);
    var s2 := Visit(g, s1, c);
    var s3 := Visit(g, s2, d);
    assert [c, d][1..] == [d];
    assert Scan(g, s1, [c, d]) == Scan(g, s2, [d]);
    assert Scan(g, s2, [d]) == Scan(g, s3, [d][1..]) == s3;
  }

  function Shortcut(a: int, b: int, c: int, d: int): Adjacency {
    map[a := [c, d], b := [a], c := [b], d := [b]]
  }

  ghost predicate Distinct4(a: int, b: int, c: int, d: int) {
    a != b && a != c && a != d && b != c && b != d && c != d
  }

  lemma TriangleRecord(a: int, x: int, b: int)
    requires a != x && a != b && x != b
    ensures CyclePath([a, x] + [b], a) == [a, x, b, a]
    ensures Record(map[], [a, x, b, a]).Keys == {a, x, b}
  {}

  /** Following x -> b -> a while a is on the stack records the triangle a, x, b. */
  lemma VisitTriangle(g: Adjacency, s: Search, a: int, x: int, b: int)
    requires a != x && a != b && x != b
    requires x in g && g[x] == [b] && b in g && g[b] == [a]
    requires s.stack == [a] && s.out == map[] && a in s.colors && s.colors[a] == Gray
    requires x !in s.colors && b !in s.colors && b in Nodes(g)
    ensures x in Nodes(g) && Visit(g, s, x).out.Keys == {a, x, b}
    ensures Visit(g, s, x).colors == s.colors[x := Black][b := Black] && Visit(g, s, x).stack == [a]
  {
    VisitSingle(g, Opened(s, x), b, a);
    VisitThrough(g, s, x, b);
    TriangleClosed(s, a, x, b, Visit(g, Opened(s, x), b));
  }

  lemma TriangleClosed(s: Search, a: int, x: int, b: int, t: Search)
    requires a != x && a != b && x != b
    requires s.stack == [a] && s.out == map[]
    requires t == Search(s.colors[x := Gray][b := Black], [a, x], Record(map[], CyclePath([a, x] + [b], a)))
    ensures Closed(t, x).out.Keys == {a, x, b}
    ensures Closed(t, x).colors == s.colors[x := Black][b := Black] && Closed(t, x).stack == [a]
  {
    TriangleRecord(a, x, b);
    assert t.stack[..1] == [a];
  }

  lemma UnflaggedSearch(g: Adjacency, a: int, b: int, c: int, d: int)
    requires Distinct4(a, b, c, d) && g.Keys == {a, b, c, d}
    requires g[a] == [c, d] && g[b] == [a] && g[c] == [b] && g[d] == [b]
    ensures Visit(g, START, a).colors.Keys == {a, b, c, d} && Visit(g, START, a).out.Keys == {a, b, c}
  {
    var s1 := Opened(START, a);
    assert s1.stack == [a];
    VisitTriangle(g, s1, a, c, b);
    VisitSingle(g, Visit(g, s1, c), d, b);
    VisitFork(g, START, a, c, d);
  }

  lemma FlaggedSearch(g: Adjacency, a: int, b: int, c: int, d: int)
    requires Distinct4(a, b, c, d) && g.Keys == {a, b, d}
    requires g[a] == [c, d] && g[b] == [a] && g[d] == [b]
    ensures Visit(g, START, a).colors.Keys == {a, b, c, d} && Visit(g, START, a).out.Keys == {a, b, d}
  {
    var s1 := Opened(START, a);
    assert s1.stack == [a];
    CutNodes(g, a, b, c, d);
    VisitLeaf(g, s1, c);
    VisitTriangle(g, s1.(colors := s1.colors[c := Black]), a, d, b);
    VisitFork(g, START, a, c, d);
  }

  lemma CutNodes(g: Adjacency, a: int, b: int, c: int, d: int)
    requires g.Keys == {a, b, d} && g[a] == [c, d] && g[b] == [a] && g[d] == [b]
    ensures {a, b, c, d} <= Nodes(g)
  {
    assert g[a][0] == c && g[d][0] == b;
  }

  /** Both a -> c -> b -> a and a -> d -> b -> a are cycles, yet d is not flagged: its
      successor b was finished through c before d was reached. */
  lemma UnflaggedOnCycle(a: int, b: int, c: int, d: int)
    requires Distinct4(a, b, c, d) && a < b && a < c && a < d
    ensures IsCycle(Shortcut(a, b, c, d), [a, d, b, a])
    ensures Cycles(Shortcut(a, b, c, d)).Keys == {a, b, c}
  {
    var g := Shortcut(a, b, c, d);
    UnflaggedSearch(g, a, b, c, d);
    FirstKeyDecides(g, a);
    var cyc := [a, d, b, a];
    assert Edge(g, cyc[0], cyc[1]) && Edge(g, cyc[1], cyc[2]) && Edge(g, cyc[2], cyc[3]);
  }

  /** Once c has no dependencies of its own the search flags d instead. */
  lemma FlaggedAfterCut(a: int, b: int, c: int, d: int)
    requires Distinct4(a, b, c, d) && a < b && a < c && a < d
    ensures Cycles(Shortcut(a, b, c, d) - {c}).Keys == {a, b, d}
  {
    var g := Shortcut(a, b, c, d) - {c};
    assert g.Keys == {a, b, d};
    FlaggedSearch(g, a, b, c, d);
    FirstKeyDecides(g, a);
  }
}
