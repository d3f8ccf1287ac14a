/** Finite directed graphs given by adjacency lists, as the resolver builds them:
    the key is an issue, the list its active same-repo dependencies. */
module Graph {

  type Adjacency = map<int, seq<int>>

  /** Reading an absent key of a Go map yields the nil slice. */
  function Successors(g: Adjacency, n: int): seq<int> {
    if n in g then g[n] else []
  }

  predicate Edge(g: Adjacency, a: int, b: int) {
    b in Successors(g, a)
  }

  /** Every node the graph mentions. */
  function Nodes(g: Adjacency): set<int> {
    g.Keys + set a, i | a in g && 0 <= i < |g[a]| :: g[a][i]
  }

  lemma Member<T>(s: set<T>) returns (x: T)
    requires s != {}
    ensures x in s
  {
    x :| x in s;
  }

  lemma SuccessorsAreNodes(g: Adjacency, n: int)
    ensures forall i :: 0 <= i < |Successors(g, n)| ==> Successors(g, n)[i] in Nodes(g)
  {}

  ghost predicate IsWalk(g: Adjacency, p: seq<int>) {
    && p != []
    && forall i :: 0 <= i < |p| - 1 ==> Edge(g, p[i], p[i + 1])
  }

  /** A closed walk, with its endpoint written at both ends. */
  ghost predicate IsCycle(g: Adjacency, c: seq<int>) {
    |c| >= 2 && IsWalk(g, c) && c[0] == c[|c| - 1]
  }

  lemma CycleNodesAreKeys(g: Adjacency, c: seq<int>)
    requires IsCycle(g, c)
    ensures forall i :: 0 <= i < |c| ==> c[i] in g
  {
    forall i | 0 <= i < |c| ensures c[i] in g {
      var k := if i == |c| - 1 then 0 else i;
      assert Edge(g, c[k], c[k + 1]);
    }
  }

  ghost predicate OnCycle(g: Adjacency, n: int) {
    exists c :: IsCycle(g, c) && n in c
  }

  /** The edge a -> b is part of a cycle. */
  ghost predicate CyclicEdge(g: Adjacency, a: int, b: int) {
    exists c, i :: IsCycle(g, c) && Takes(c, i, a, b)
  }

  /** The walk goes from a to b at position i. */
  ghost predicate Takes(c: seq<int>, i: int, a: int, b: int) {
    0 <= i < |c| - 1 && c[i] == a && c[i + 1] == b
  }

  ghost predicate Reaches(g: Adjacency, a: int, b: int) {
    exists p :: IsWalk(g, p) && p[0] == a && p[|p| - 1] == b
  }

  lemma ReachesSelf(g: Adjacency, a: int)
    ensures Reaches(g, a, a)
  {
    assert IsWalk(g, [a]);
  }

  lemma ReachesFurther(g: Adjacency, a: int, b: int, c: int)
    requires Edge(g, a, b) && Reaches(g, b, c)
    ensures Reaches(g, a, c)
  {
    var p :| IsWalk(g, p) && p[0] == b && p[|p| - 1] == c;
    var q := [a] + p;
    forall i | 0 <= i < |q| - 1 ensures Edge(g, q[i], q[i + 1]) {
      if i > 0 { assert Edge(g, p[i - 1], p[i]); }
    }
    assert IsWalk(g, q);
  }

  /** A cycle can be written from any of its nodes. */
  lemma CycleFrom(g: Adjacency, c: seq<int>, n: int) returns (d: seq<int>)
    requires IsCycle(g, c) && n in c
    ensures IsCycle(g, d) && d[0] == n
  {
    var k :| 0 <= k < |c| && c[k] == n;
    d := c[k..] + c[1..k + 1];
    forall i | 0 <= i < |d| - 1 ensures Edge(g, d[i], d[i + 1]) {
      if i < |c| - k - 1 {
        assert Edge(g, c[k + i], c[k + i + 1]);
      } else {
        var j := i - (|c| - k) + 1;
        assert d[i] == c[j] && d[i + 1] == c[j + 1];
        assert Edge(g, c[j], c[j + 1]);
      }
    }
    assert d[|d| - 1] == c[k];
  }

  ghost predicate NoRepeats(s: seq<int>) {
    forall i, j :: 0 <= i < j < |s| ==> s[i] != s[j]
  }

  /** A cycle that meets no node twice apart from its shared endpoint. */
  ghost predicate IsSimpleCycle(g: Adjacency, c: seq<int>) {
    IsCycle(g, c) && NoRepeats(c[..|c| - 1])
  }

  ghost predicate Acyclic(g: Adjacency) {
    forall c :: !IsCycle(g, c)
  }

  ghost predicate SubGraph(g: Adjacency, h: Adjacency) {
    forall a, b :: Edge(g, a, b) ==> Edge(h, a, b)
  }

  lemma SubGraphAcyclic(g: Adjacency, h: Adjacency)
    requires SubGraph(g, h) && Acyclic(h)
    ensures Acyclic(g)
  {
    forall c | IsCycle(g, c) ensures false {
      assert IsCycle(h, c);
    }
  }

  /** A finite non-empty set in which every node has a successor inside the set. */
  ghost predicate Trapped(g: Adjacency, s: set<int>) {
    forall n {:trigger HasSuccessorIn(g, s, n)} :: n in s ==> HasSuccessorIn(g, s, n)
  }

  ghost predicate HasSuccessorIn(g: Adjacency, s: set<int>, n: int) {
    exists m :: m in s && Edge(g, n, m)
  }

  ghost predicate WalkInside(g: Adjacency, s: set<int>, p: seq<int>) {
    IsWalk(g, p) && forall i :: 0 <= i < |p| ==> p[i] in s
  }

  lemma {:induction false} LongWalkInside(g: Adjacency, s: set<int>, start: int, n: nat) returns (p: seq<int>)
    requires Trapped(g, s) && start in s
    ensures WalkInside(g, s, p) && |p| == n + 1
  {
    if n == 0 {
      p := [start];
    } else {
      var q := LongWalkInside(g, s, start, n - 1);
      var last := q[|q| - 1];
      assert HasSuccessorIn(g, s, last);
      var m :| m in s && Edge(g, last, m);
      p := q + [m];
      forall i | 0 <= i < |p| - 1 ensures Edge(g, p[i], p[i + 1]) {
        if i < |q| - 1 { assert Edge(g, q[i], q[i + 1]); }
      }
    }
  }

  lemma {:induction false} DistinctFit(s: set<int>, p: seq<int>)
    requires NoRepeats(p) && forall i :: 0 <= i < |p| ==> p[i] in s
    ensures |p| <= |s|
  {
    if p == [] {
    } else {
      var q := p[1..];
      forall i | 0 <= i < |q| ensures q[i] in s - {p[0]} {
        assert q[i] == p[i + 1];
      }
      DistinctFit(s - {p[0]}, q);
    }
  }

  /** A trapped set contains a cycle. */
  lemma TrappedHasCycle(g: Adjacency, s: set<int>) returns (c: seq<int>)
    requires Trapped(g, s) && s != {}
    ensures IsCycle(g, c) && forall i :: 0 <= i < |c| ==> c[i] in s
  {
    var start := Member(s);
    var p := LongWalkInside(g, s, start, |s|);
    if NoRepeats(p) {
      DistinctFit(s, p);
      assert false;
    }
    var i, j :| 0 <= i < j < |p| && p[i] == p[j];
    c := p[i..j + 1];
    forall k | 0 <= k < |c| - 1 ensures Edge(g, c[k], c[k + 1]) {
      assert Edge(g, p[i + k], p[i + k + 1]);
    }
  }
}
