/** Which nodes of a cycle the search flags: exactly those that can get back to the path they were
    entered by through nodes the search had not entered before. */
module Flagging {
  import opened Text
  import opened Graph
  import opened CycleDetection

  /** The stack up to a node that has just been entered, and the nodes entered before it. */
  datatype Frame = Frame(base: seq<int>, before: set<int>)

  function FrameOf(s: Search, node: int): Frame {
    Frame(s.stack + [node], s.colors.Keys)
  }

  function Node(f: Frame): int
    requires f.base != []
  {
    f.base[|f.base| - 1]
  }

  /** A walk from the frame's node back into its stack, through nodes not entered before it. */
  ghost predicate IsReturn(g: Adjacency, f: Frame, p: seq<int>)
    requires f.base != []
  {
    && IsWalk(g, p) && |p| >= 2 && p[0] == Node(f) && p[|p| - 1] in f.base
    && forall i :: 0 < i < |p| - 1 ==> p[i] !in f.before
  }

  ghost predicate Returns(g: Adjacency, f: Frame)
    requires f.base != []
  {
    exists p :: IsReturn(g, f, p)
  }

  // ----- what the search below a frame's node keeps ---------------------------------

  /** The search is still below the frame's node. */
  ghost predicate Below(f: Frame, s: Search) {
    && f.base != [] && f.base <= s.stack && f.before <= s.colors.Keys
    && forall i :: |f.base| <= i < |s.stack| ==> s.stack[i] !in f.before
  }

  ghost predicate FlagReturns(g: Adjacency, f: Frame, s: Search)
    requires f.base != []
  {
    Node(f) in s.out ==> Returns(g, f)
  }

  /** An edge from a node finished since into the frame's stack has flagged the frame's node. */
  ghost predicate ReturnFlags(g: Adjacency, f: Frame, s: Search)
    requires f.base != []
  {
    forall q, v {:trigger Edge(g, q, v)} ::
      q in s.colors && s.colors[q] == Black && q !in f.before && Edge(g, q, v) && v in f.base ==> Node(f) in s.out
  }

  ghost predicate Tracks(g: Adjacency, f: Frame, s: Search) {
    Below(f, s) && FlagReturns(g, f, s) && ReturnFlags(g, f, s)
  }

  lemma PathCrossesFrame(f: Frame, s: Search, next: int)
    requires Below(f, s) && NoRepeats(s.stack) && next in s.stack
    ensures Node(f) in CyclePath(s.stack, next) <==> next in f.base
  {
    var b, k := |f.base| - 1, Located(s.stack, next);
    assert s.stack[b] == Node(f);
    if next in f.base {
      var j :| 0 <= j < |f.base| && f.base[j] == next;
      assert s.stack[j] == next && k == j;
      assert s.stack[k..][b - k] == Node(f);
    }
    if Node(f) in CyclePath(s.stack, next) && next != Node(f) {
      var i :| k <= i < |s.stack| && s.stack[i] == Node(f);
      assert i == b;
      assert f.base[k] == next;
    }
  }

  lemma RestOfStackReturns(g: Adjacency, f: Frame, s: Search, next: int)
    requires Below(f, s) && IsWalk(g, s.stack) && Edge(g, s.stack[|s.stack| - 1], next) && next in f.base
    ensures Returns(g, f)
  {
    var b := |f.base| - 1;
    var p := s.stack[b..] + [next];
    assert s.stack[b] == Node(f);
    forall i | 0 <= i < |p| - 1 ensures Edge(g, p[i], p[i + 1]) {
      assert p[i] == s.stack[b + i];
      if i < |p| - 2 { assert p[i + 1] == s.stack[b + i + 1]; }
    }
    forall i | 0 < i < |p| - 1 ensures p[i] !in f.before {
      assert p[i] == s.stack[b + i];
    }
    assert IsReturn(g, f, p);
  }

  lemma RecordTracks(g: Adjacency, f: Frame, s: Search, next: int)
    requires Inv(g, s) && Tracks(g, f, s) && next in s.stack && Edge(g, s.stack[|s.stack| - 1], next)
    ensures var r := s.(out := Record(s.out, CyclePath(s.stack, next)));
            Tracks(g, f, r) && (next in f.base ==> Node(f) in r.out)
  {
    PathCrossesFrame(f, s, next);
    if next in f.base {
      RestOfStackReturns(g, f, s, next);
    }
  }

  lemma OpenTracks(g: Adjacency, f: Frame, s: Search, node: int)
    requires Tracks(g, f, s) && node !in s.colors
    ensures Tracks(g, f, Opened(s, node))
  {
  }

  lemma CloseTracks(g: Adjacency, f: Frame, s: Search, node: int)
    requires Tracks(g, f, s) && |s.stack| > |f.base| && s.stack[|s.stack| - 1] == node
    requires forall i :: 0 <= i < |Successors(g, node)| && Successors(g, node)[i] in f.base ==> Node(f) in s.out
    ensures Tracks(g, f, Closed(s, node))
  {
  }

  lemma {:induction false} VisitTracks(g: Adjacency, f: Frame, s: Search, node: int)
    requires Inv(g, s) && Tracks(g, f, s) && node in Nodes(g) && node !in s.colors
    requires Edge(g, s.stack[|s.stack| - 1], node)
    ensures Tracks(g, f, Visit(g, s, node))
    decreases Nodes(g) - s.colors.Keys, 0
  {
    SuccessorsAreNodes(g, node);
    OpenKeepsInv(g, s, node);
    OpenTracks(g, f, s, node);
    var s1 := Opened(s, node);
    assert node in Nodes(g) - s.colors.Keys && node !in Nodes(g) - s1.colors.Keys;
    assert s1.stack[|s1.stack| - 1] == node;
    ScanTracks(g, f, s1, Successors(g, node));
    CloseTracks(g, f, Scan(g, s1, Successors(g, node)), node);
  }

  lemma {:induction false} FollowTracks(g: Adjacency, f: Frame, s: Search, next: int)
    requires Inv(g, s) && Tracks(g, f, s) && next in Nodes(g) && Edge(g, s.stack[|s.stack| - 1], next)
    ensures Tracks(g, f, Followed(g, s, next)) && (next in f.base ==> Node(f) in Followed(g, s, next).out)
    decreases Nodes(g) - s.colors.Keys, 1
  {
    assert next in f.base ==> next in s.stack;
    if next !in s.colors {
      VisitTracks(g, f, s, next);
    } else if s.colors[next] == Gray {
      RecordTracks(g, f, s, next);
    }
  }

  /** A frame's node is flagged if one of the successors is on the frame's stack. */
  ghost predicate Caught(f: Frame, nexts: seq<int>, out: map<int, seq<int>>)
    requires f.base != []
  {
    forall i :: 0 <= i < |nexts| && nexts[i] in f.base ==> Node(f) in out
  }

  lemma CaughtCons(f: Frame, nexts: seq<int>, m: map<int, seq<int>>, out: map<int, seq<int>>)
    requires f.base != [] && nexts != [] && m.Keys <= out.Keys
    requires (nexts[0] in f.base ==> Node(f) in m) && Caught(f, nexts[1..], out)
    ensures Caught(f, nexts, out)
  {
    forall i | 0 <= i < |nexts| && nexts[i] in f.base ensures Node(f) in out {
      if i > 0 { assert nexts[i] == nexts[1..][i - 1]; }
    }
  }

  ghost predicate EdgesFrom(g: Adjacency, a: int, nexts: seq<int>) {
    forall i :: 0 <= i < |nexts| ==> nexts[i] in Nodes(g) && Edge(g, a, nexts[i])
  }

  lemma {:induction false} ScanTracks(g: Adjacency, f: Frame, s: Search, nexts: seq<int>)
    requires Inv(g, s) && Tracks(g, f, s) && EdgesFrom(g, s.stack[|s.stack| - 1], nexts)
    ensures Tracks(g, f, Scan(g, s, nexts)) && Caught(f, nexts, Scan(g, s, nexts).out)
    decreases Nodes(g) - s.colors.Keys, 2 + |nexts|
  {
    if nexts == [] {
    } else {
      FollowTracks(g, f, s, nexts[0]);
      var m := EdgeKeepsInv(g, s, nexts[0]);
      ScanStep(g, s, nexts);
      assert EdgesFrom(g, m.stack[|m.stack| - 1], nexts[1..]);
      ScanTracks(g, f, m, nexts[1..]);
      ScanOutGrows(g, m, nexts[1..]);
      CaughtCons(f, nexts, m.out, Scan(g, m, nexts[1..]).out);
    }
  }

  lemma ScanOutGrows(g: Adjacency, s: Search, nexts: seq<int>)
    requires Inv(g, s) && s.stack != [] && EdgesFrom(g, s.stack[|s.stack| - 1], nexts)
    ensures s.out.Keys <= Scan(g, s, nexts).out.Keys
  {
    ScanKeepsInv(g, s, nexts);
  }

  // ----- a node at its entry ----------------------------------------------------------

  ghost predicate FinishedOr(s: Search, n: int, a: int) {
    a == n || (a in s.colors && s.colors[a] == Black)
  }

  /** The frame's node has been entered and all its edges have been scanned. */
  ghost predicate Scanned(g: Adjacency, f: Frame, s: Search) {
    && Inv(g, s) && Tracks(g, f, s) && s.stack == f.base && Node(f) !in f.before
    && (forall k :: 0 <= k < |f.base| - 1 ==> f.base[k] in f.before)
    && (forall k :: 0 <= k < |Successors(g, Node(f))| ==> Settled(s, Node(f), Successors(g, Node(f))[k]))
    && Caught(f, Successors(g, Node(f)), s.out)
  }

  lemma ReturnStep(g: Adjacency, f: Frame, s: Search, a: int, b: int)
    requires Scanned(g, f, s) && FinishedOr(s, Node(f), a) && Edge(g, a, b) && b !in f.before
    ensures FinishedOr(s, Node(f), b)
  {
    FinishedSettled(g, f, s, a, b);
    OnlyNodeIsNew(f, s, b);
    assert s.colors[b] == Gray ==> b in s.stack;
  }

  lemma FinishedSettled(g: Adjacency, f: Frame, s: Search, a: int, b: int)
    requires Scanned(g, f, s) && FinishedOr(s, Node(f), a) && Edge(g, a, b)
    ensures b in s.colors
  {
    if a == Node(f) {
      var k :| 0 <= k < |Successors(g, a)| && Successors(g, a)[k] == b;
      assert Settled(s, a, Successors(g, a)[k]);
    } else {
      assert Settled(s, a, b);
    }
  }

  lemma OnlyNodeIsNew(f: Frame, s: Search, b: int)
    requires f.base != [] && s.stack == f.base && b !in f.before
    requires forall k :: 0 <= k < |f.base| - 1 ==> f.base[k] in f.before
    ensures b in s.stack ==> b == Node(f)
  {}

  /** The nodes of a return walk are finished by then, or the frame's node itself. */
  lemma {:induction false} ReturnIsFinished(g: Adjacency, f: Frame, s: Search, p: seq<int>, i: nat)
    requires Scanned(g, f, s) && IsReturn(g, f, p) && i < |p| - 1
    ensures FinishedOr(s, Node(f), p[i])
  {
    if i == 0 {
    } else {
      ReturnIsFinished(g, f, s, p, i - 1);
      assert Edge(g, p[i - 1], p[i - 1 + 1]);
      ReturnStep(g, f, s, p[i - 1], p[i]);
    }
  }

  /** A node is flagged by the search that enters it exactly if it can return. */
  lemma FlaggedAtEntryIff(g: Adjacency, s: Search, n: int)
    requires Inv(g, s) && n in Nodes(g) && n !in s.colors
    requires s.stack == [] || Edge(g, s.stack[|s.stack| - 1], n)
    ensures n in Visit(g, s, n).out <==> Returns(g, FrameOf(s, n))
  {
    var f, s2 := FrameOf(s, n), Scan(g, Opened(s, n), Successors(g, n));
    EntryScanned(g, s, n);
    if p :| IsReturn(g, f, p) {
      ReturnFlagsNode(g, f, s2, p);
    }
  }

  lemma EntryScanned(g: Adjacency, s: Search, n: int)
    requires Inv(g, s) && n in Nodes(g) && n !in s.colors
    requires s.stack == [] || Edge(g, s.stack[|s.stack| - 1], n)
    ensures EdgesFrom(g, n, Successors(g, n)) && Scanned(g, FrameOf(s, n), Scan(g, Opened(s, n), Successors(g, n)))
  {
    var f, s1 := FrameOf(s, n), Opened(s, n);
    SuccessorsAreNodes(g, n);
    OpenKeepsInv(g, s, n);
    assert s1.stack[|s1.stack| - 1] == n;
    assert Tracks(g, f, s1);
    forall k | 0 <= k < |f.base| - 1 ensures f.base[k] in f.before {
      assert f.base[k] in s.stack;
    }
    ScanTracks(g, f, s1, Successors(g, n));
    ScanKeepsInv(g, s1, Successors(g, n));
  }

  lemma ReturnFlagsNode(g: Adjacency, f: Frame, s: Search, p: seq<int>)
    requires Scanned(g, f, s) && IsReturn(g, f, p)
    ensures Node(f) in s.out
  {
    var q, v := p[|p| - 2], p[|p| - 1];
    ReturnIsFinished(g, f, s, p, |p| - 2);
    assert Edge(g, q, p[|p| - 2 + 1]);
    if q == Node(f) {
      var k :| 0 <= k < |Successors(g, q)| && Successors(g, q)[k] == v;
    } else {
      assert q !in f.before;
    }
  }

  // ----- the state at which the search enters a node ----------------------------------

  /** The state in which a visit enters n, if it does. */
  function EnterVisit(g: Adjacency, s: Search, node: int, n: int): Option<Search>
    requires node in Nodes(g) && node !in s.colors
    decreases Nodes(g) - s.colors.Keys, 0
  {
    SuccessorsAreNodes(g, node);
    var s1 := Opened(s, node);
    assert node in Nodes(g) - s.colors.Keys && node !in Nodes(g) - s1.colors.Keys;
    if node == n then Some(s) else EnterScan(g, s1, Successors(g, node), n)
  }

  function EnterScan(g: Adjacency, s: Search, nexts: seq<int>, n: int): Option<Search>
    requires forall i :: 0 <= i < |nexts| ==> nexts[i] in Nodes(g)
    decreases Nodes(g) - s.colors.Keys, 1 + |nexts|
  {
    if nexts == [] then None
    else
      var e := if nexts[0] !in s.colors then EnterVisit(g, s, nexts[0], n) else None;
      if e.Some? then e else EnterScan(g, Followed(g, s, nexts[0]), nexts[1..], n)
  }

  function EnterAll(g: Adjacency, s: Search, keys: seq<int>, n: int): Option<Search>
    requires forall i :: 0 <= i < |keys| ==> keys[i] in Nodes(g)
    decreases |keys|
  {
    if keys == [] then None
    else if keys[0] in s.colors then EnterAll(g, s, keys[1..], n)
    else
      var e := EnterVisit(g, s, keys[0], n);
      if e.Some? then e else EnterAll(g, Visit(g, s, keys[0]), keys[1..], n)
  }

  /** The state in which detectCycles enters n. */
  function Entry(g: Adjacency, n: int): Option<Search> {
    EnterAll(g, START, SortedKeys(g.Keys), n)
  }

  // ----- a finished node is flagged no more ---------------------------------------------

  ghost predicate Finished(s: Search, m: int) {
    m in s.colors && m !in s.stack
  }

  lemma {:induction false} VisitLeaves(g: Adjacency, s: Search, node: int, m: int)
    requires Inv(g, s) && node in Nodes(g) && node !in s.colors && Finished(s, m)
    requires s.stack == [] || Edge(g, s.stack[|s.stack| - 1], node)
    ensures Finished(Visit(g, s, node), m) && (m in Visit(g, s, node).out <==> m in s.out)
    decreases Nodes(g) - s.colors.Keys, 0
  {
    SuccessorsAreNodes(g, node);
    OpenKeepsInv(g, s, node);
    var s1 := Opened(s, node);
    assert node in Nodes(g) - s.colors.Keys && node !in Nodes(g) - s1.colors.Keys;
    assert s1.stack[|s1.stack| - 1] == node;
    ScanLeaves(g, s1, Successors(g, node), m);
  }

  lemma {:induction false} FollowLeaves(g: Adjacency, s: Search, next: int, m: int)
    requires Inv(g, s) && s.stack != [] && next in Nodes(g) && Edge(g, s.stack[|s.stack| - 1], next) && Finished(s, m)
    ensures Finished(Followed(g, s, next), m) && (m in Followed(g, s, next).out <==> m in s.out)
    decreases Nodes(g) - s.colors.Keys, 1
  {
    if next !in s.colors {
      VisitLeaves(g, s, next, m);
    } else if s.colors[next] == Gray {
      assert m !in CyclePath(s.stack, next);
    }
  }

  lemma {:induction false} ScanLeaves(g: Adjacency, s: Search, nexts: seq<int>, m: int)
    requires Inv(g, s) && s.stack != [] && EdgesFrom(g, s.stack[|s.stack| - 1], nexts) && Finished(s, m)
    ensures Finished(Scan(g, s, nexts), m) && (m in Scan(g, s, nexts).out <==> m in s.out)
    decreases Nodes(g) - s.colors.Keys, 2 + |nexts|
  {
    if nexts == [] {
    } else {
      FollowLeaves(g, s, nexts[0], m);
      var r := EdgeKeepsInv(g, s, nexts[0]);
      ScanStep(g, s, nexts);
      assert EdgesFrom(g, r.stack[|r.stack| - 1], nexts[1..]);
      ScanLeaves(g, r, nexts[1..], m);
    }
  }

  lemma {:induction false} VisitAllLeaves(g: Adjacency, s: Search, keys: seq<int>, m: int)
    requires Inv(g, s) && s.stack == [] && m in s.colors && forall i :: 0 <= i < |keys| ==> keys[i] in Nodes(g)
    ensures m in VisitAll(g, s, keys).colors && (m in VisitAll(g, s, keys).out <==> m in s.out)
    decreases |keys|
  {
    if keys == [] {
    } else if keys[0] in s.colors {
      VisitAllLeaves(g, s, keys[1..], m);
    } else {
      VisitLeaves(g, s, keys[0], m);
      VisitKeepsInv(g, s, keys[0]);
      VisitAllLeaves(g, Visit(g, s, keys[0]), keys[1..], m);
    }
  }

  // ----- from a node's entry to the end of the search -----------------------------------

  /** n is coloured by r exactly if it was entered at e, and flagged then exactly if it can return. */
  ghost predicate Decided(g: Adjacency, e: Option<Search>, r: Search, n: int) {
    && (e.Some? <==> n in r.colors)
    && (e.Some? ==> (n in r.out <==> Returns(g, FrameOf(e.value, n))))
  }

  lemma {:induction false} VisitDecides(g: Adjacency, s: Search, node: int, n: int)
    requires Inv(g, s) && node in Nodes(g) && node !in s.colors && n !in s.colors
    requires s.stack == [] || Edge(g, s.stack[|s.stack| - 1], node)
    ensures Decided(g, EnterVisit(g, s, node, n), Visit(g, s, node), n)
    decreases Nodes(g) - s.colors.Keys, 0
  {
    if node == n {
      FlaggedAtEntryIff(g, s, n);
    } else {
      SuccessorsAreNodes(g, node);
      OpenKeepsInv(g, s, node);
      var s1 := Opened(s, node);
      assert node in Nodes(g) - s.colors.Keys && node !in Nodes(g) - s1.colors.Keys;
      assert s1.stack[|s1.stack| - 1] == node;
      ScanDecides(g, s1, Successors(g, node), n);
    }
  }

  lemma {:induction false} ScanDecides(g: Adjacency, s: Search, nexts: seq<int>, n: int)
    requires Inv(g, s) && s.stack != [] && EdgesFrom(g, s.stack[|s.stack| - 1], nexts) && n !in s.colors
    ensures Decided(g, EnterScan(g, s, nexts, n), Scan(g, s, nexts), n)
    decreases Nodes(g) - s.colors.Keys, 1 + |nexts|
  {
    if nexts == [] {
    } else {
      var next := nexts[0];
      var r := EdgeKeepsInv(g, s, next);
      ScanStep(g, s, nexts);
      assert EdgesFrom(g, r.stack[|r.stack| - 1], nexts[1..]);
      if next !in s.colors {
        VisitDecides(g, s, next, n);
      }
      if n in r.colors {
        assert n !in r.stack;
        ScanLeaves(g, r, nexts[1..], n);
      } else {
        ScanDecides(g, r, nexts[1..], n);
      }
    }
  }

  lemma {:induction false} VisitAllDecides(g: Adjacency, s: Search, keys: seq<int>, n: int)
    requires Inv(g, s) && s.stack == [] && n !in s.colors && forall i :: 0 <= i < |keys| ==> keys[i] in Nodes(g)
    ensures Decided(g, EnterAll(g, s, keys, n), VisitAll(g, s, keys), n)
    decreases |keys|
  {
    if keys == [] {
    } else if keys[0] in s.colors {
      VisitAllDecides(g, s, keys[1..], n);
    } else {
      VisitDecides(g, s, keys[0], n);
      VisitKeepsInv(g, s, keys[0]);
      var r := Visit(g, s, keys[0]);
      if n in r.colors {
        VisitAllLeaves(g, r, keys[1..], n);
      } else {
        VisitAllDecides(g, r, keys[1..], n);
      }
    }
  }

  // ----- main result ----------------------------------------------------------------------

  /** A node is flagged exactly if it is entered and can, from there, get back to itself or to a node
      it was entered through by way of nodes the search had not entered before. */
  lemma FlaggedIff(g: Adjacency, n: int)
    ensures Entry(g, n).Some? <==> n in Nodes(g)
    ensures n in Cycles(g) <==> Entry(g, n).Some? && Returns(g, FrameOf(Entry(g, n).value, n))
  {
    VisitAllDecides(g, START, SortedKeys(g.Keys), n);
    var r := SearchEndsInInv(g);
    EnteredIff(g, r, n);
  }

  lemma EnteredIff(g: Adjacency, r: Search, n: int)
    requires Inv(g, r) && r == VisitAll(g, START, SortedKeys(g.Keys))
    requires forall k :: k in g ==> k in r.colors && r.colors[k] == Black
    ensures n in r.colors <==> n in Nodes(g)
  {
    if n in Nodes(g) && n !in g {
      var a, i :| a in g && 0 <= i < |g[a]| && g[a][i] == n;
      assert Edge(g, a, n);
    }
    if n in r.colors {
      VisitAllColoursNodes(g, START, SortedKeys(g.Keys), n);
    }
  }

  lemma {:induction false} VisitAllColoursNodes(g: Adjacency, s: Search, keys: seq<int>, n: int)
    requires forall i :: 0 <= i < |keys| ==> keys[i] in Nodes(g)
    requires n in VisitAll(g, s, keys).colors && n !in s.colors
    ensures n in Nodes(g)
    decreases |keys|
  {
    if keys[0] in s.colors {
      VisitAllColoursNodes(g, s, keys[1..], n);
    } else if n in Visit(g, s, keys[0]).colors {
      VisitColoursReached(g, s, keys[0], n);
      ReachedIsNode(g, keys[0], n);
    } else {
      VisitAllColoursNodes(g, Visit(g, s, keys[0]), keys[1..], n);
    }
  }

  lemma ReachedIsNode(g: Adjacency, a: int, b: int)
    requires a in Nodes(g) && Reaches(g, a, b)
    ensures b in Nodes(g)
  {
    var p :| IsWalk(g, p) && p[0] == a && p[|p| - 1] == b;
    if |p| > 1 {
      assert Edge(g, p[|p| - 2], p[|p| - 2 + 1]);
      SuccessorsAreNodes(g, p[|p| - 2]);
    }
  }

  // ----- which of several cycles is recorded --------------------------------------------

  /** The paths of the back edges a search meets, in the order in which it meets them. */
  function VisitPaths(g: Adjacency, s: Search, node: int): seq<seq<int>>
    requires node in Nodes(g) && node !in s.colors
    decreases Nodes(g) - s.colors.Keys, 0
  {
    SuccessorsAreNodes(g, node);
    var s1 := Opened(s, node);
    assert node in Nodes(g) - s.colors.Keys && node !in Nodes(g) - s1.colors.Keys;
    ScanPaths(g, s1, Successors(g, node))
  }

  function ScanPaths(g: Adjacency, s: Search, nexts: seq<int>): seq<seq<int>>
    requires forall i :: 0 <= i < |nexts| ==> nexts[i] in Nodes(g)
    decreases Nodes(g) - s.colors.Keys, 1 + |nexts|
  {
    if nexts == [] then []
    else EdgePaths(g, s, nexts[0]) + ScanPaths(g, Followed(g, s, nexts[0]), nexts[1..])
  }

  function EdgePaths(g: Adjacency, s: Search, next: int): seq<seq<int>>
    requires next in Nodes(g)
    decreases Nodes(g) - s.colors.Keys, 1
  {
    if next !in s.colors then VisitPaths(g, s, next)
    else if s.colors[next] == Gray then [CyclePath(s.stack, next)]
    else []
  }

  function AllPaths(g: Adjacency, s: Search, keys: seq<int>): seq<seq<int>>
    requires forall i :: 0 <= i < |keys| ==> keys[i] in Nodes(g)
    decreases |keys|
  {
    if keys == [] then []
    else if keys[0] in s.colors then AllPaths(g, s, keys[1..])
    else VisitPaths(g, s, keys[0]) + AllPaths(g, Visit(g, s, keys[0]), keys[1..])
  }

  /** Path k is the last one through n. */
  ghost predicate LastThrough(paths: seq<seq<int>>, n: int, k: int) {
    0 <= k < |paths| && n in paths[k] && forall j :: k < j < |paths| ==> n !in paths[j]
  }

  /** Each path takes over from the earlier ones and from what was recorded before. */
  ghost predicate LastWins(before: map<int, seq<int>>, paths: seq<seq<int>>, out: map<int, seq<int>>) {
    && (forall n, k :: LastThrough(paths, n, k) ==> n in out && out[n] == paths[k])
    && (forall n :: (forall k :: 0 <= k < |paths| ==> n !in paths[k]) ==>
          (n in out <==> n in before) && (n in before ==> out[n] == before[n]))
  }

  lemma LastWinsNone(out: map<int, seq<int>>)
    ensures LastWins(out, [], out)
  {}

  lemma LastWinsOne(out: map<int, seq<int>>, path: seq<int>)
    ensures LastWins(out, [path], Record(out, path))
  {
    assert [path][0] == path;
  }

  lemma LastThroughConcat(a: seq<seq<int>>, b: seq<seq<int>>, n: int, k: int)
    requires LastThrough(a + b, n, k)
    ensures k < |a| ==> LastThrough(a, n, k) && forall j :: 0 <= j < |b| ==> n !in b[j]
    ensures k >= |a| ==> LastThrough(b, n, k - |a|)
  {
    var all := a + b;
    forall j | 0 <= j < |b| && k < |a| ensures n !in b[j] {
      assert all[|a| + j] == b[j];
    }
    forall j | 0 <= j < |a| ensures all[j] == a[j] {}
    forall j | 0 <= j < |b| ensures all[|a| + j] == b[j] {}
  }

  lemma LastWinsConcat(before: map<int, seq<int>>, a: seq<seq<int>>, mid: map<int, seq<int>>, b: seq<seq<int>>,
                       out: map<int, seq<int>>)
    requires LastWins(before, a, mid) && LastWins(mid, b, out)
    ensures LastWins(before, a + b, out)
  {
    var all := a + b;
    forall n, k | LastThrough(all, n, k) ensures n in out && out[n] == all[k] {
      LastThroughConcat(a, b, n, k);
    }
    forall n | forall k :: 0 <= k < |all| ==> n !in all[k]
      ensures (n in out <==> n in before) && (n in before ==> out[n] == before[n])
    {
      forall j | 0 <= j < |a| ensures n !in a[j] { assert all[j] == a[j]; }
      forall j | 0 <= j < |b| ensures n !in b[j] { assert all[|a| + j] == b[j]; }
    }
  }

  lemma {:induction false} VisitLastWins(g: Adjacency, s: Search, node: int)
    requires node in Nodes(g) && node !in s.colors
    ensures LastWins(s.out, VisitPaths(g, s, node), Visit(g, s, node).out)
    decreases Nodes(g) - s.colors.Keys, 0
  {
    SuccessorsAreNodes(g, node);
    var s1 := Opened(s, node);
    assert node in Nodes(g) - s.colors.Keys && node !in Nodes(g) - s1.colors.Keys;
    ScanLastWins(g, s1, Successors(g, node));
  }

  lemma {:induction false} EdgeLastWins(g: Adjacency, s: Search, next: int)
    requires next in Nodes(g)
    ensures LastWins(s.out, EdgePaths(g, s, next), Followed(g, s, next).out)
    decreases Nodes(g) - s.colors.Keys, 1
  {
    if next !in s.colors {
      VisitLastWins(g, s, next);
    } else if s.colors[next] == Gray {
      LastWinsOne(s.out, CyclePath(s.stack, next));
    } else {
      LastWinsNone(s.out);
    }
  }

  lemma {:induction false} ScanLastWins(g: Adjacency, s: Search, nexts: seq<int>)
    requires forall i :: 0 <= i < |nexts| ==> nexts[i] in Nodes(g)
    ensures LastWins(s.out, ScanPaths(g, s, nexts), Scan(g, s, nexts).out)
    decreases Nodes(g) - s.colors.Keys, 2 + |nexts|
  {
    if nexts == [] {
      LastWinsNone(s.out);
    } else {
      var m := Followed(g, s, nexts[0]);
      EdgeLastWins(g, s, nexts[0]);
      ScanStep(g, s, nexts);
      ScanLastWins(g, m, nexts[1..]);
      LastWinsConcat(s.out, EdgePaths(g, s, nexts[0]), m.out, ScanPaths(g, m, nexts[1..]), Scan(g, m, nexts[1..]).out);
    }
  }

  lemma {:induction false} AllLastWins(g: Adjacency, s: Search, keys: seq<int>)
    requires forall i :: 0 <= i < |keys| ==> keys[i] in Nodes(g)
    ensures LastWins(s.out, AllPaths(g, s, keys), VisitAll(g, s, keys).out)
    decreases |keys|
  {
    if keys == [] {
      LastWinsNone(s.out);
    } else if keys[0] in s.colors {
      AllLastWins(g, s, keys[1..]);
    } else {
      var m := Visit(g, s, keys[0]);
      VisitLastWins(g, s, keys[0]);
      AllLastWins(g, m, keys[1..]);
      LastWinsConcat(s.out, VisitPaths(g, s, keys[0]), m.out, AllPaths(g, m, keys[1..]), VisitAll(g, m, keys[1..]).out);
    }
  }

  /** What is recorded for an issue is the path of the last back edge whose path goes through it. */
  lemma LastPathRecorded(g: Adjacency, n: int)
    ensures var paths := AllPaths(g, START, SortedKeys(g.Keys));
            && (n in Cycles(g) <==> exists k :: 0 <= k < |paths| && n in paths[k])
            && forall k :: LastThrough(paths, n, k) ==> n in Cycles(g) && Cycles(g)[n] == paths[k]
  {
    var paths := AllPaths(g, START, SortedKeys(g.Keys));
    AllLastWins(g, START, SortedKeys(g.Keys));
    if k :| 0 <= k < |paths| && n in paths[k] {
      var m := LastOne(paths, n, k);
    }
  }

  lemma LastOne(paths: seq<seq<int>>, n: int, k: nat) returns (m: nat)
    requires k < |paths| && n in paths[k]
    ensures LastThrough(paths, n, m)
  {
    m := |paths| - 1;
    while n !in paths[m]
      invariant k <= m < |paths| && forall j :: m < j < |paths| ==> n !in paths[j]
      decreases m
    {
      m := m - 1;
    }
  }
}
