/** db migrate: copying every table in batches, in an order that respects foreign keys. */
module Migration {
  import opened Text

  type Value = Option<string>
  type Row = seq<Value>
  type Db = map<string, seq<Row>>

  datatype Table = Table(name: string, columns: seq<string>, timestampCols: seq<string>)

  /** Rows of `child` refer through column `childCol` to rows of `parent`, column `parentCol`. */
  datatype ForeignKey = ForeignKey(child: string, childCol: nat, parent: string, parentCol: nat)

  predicate IsTimestampCol(t: Table, i: nat) {
    i < |t.columns| && t.columns[i] in t.timestampCols
  }

  /** Only flagged columns go through the timestamp rewriter. */
  function RewriteRow(t: Table, rewrite: Value -> Value, row: Row): (r: Row)
    ensures |r| == |row|
    ensures forall i :: 0 <= i < |row| ==>
      r[i] == if i < |t.columns| && t.columns[i] in t.timestampCols then rewrite(row[i]) else row[i]
  {
    seq(|row|, i requires 0 <= i < |row| => if IsTimestampCol(t, i) then rewrite(row[i]) else row[i])
  }

  function RewriteAll(t: Table, rewrite: Value -> Value, rows: seq<Row>): (r: seq<Row>)
    ensures |r| == |rows|
    ensures forall i :: 0 <= i < |rows| ==> r[i] == RewriteRow(t, rewrite, rows[i])
  {
    seq(|rows|, i requires 0 <= i < |rows| => RewriteRow(t, rewrite, rows[i]))
  }

  // ----- foreign keys -------------------------------------------------------------------

  ghost predicate HasParent(parents: seq<Row>, col: nat, v: Value) {
    exists p :: 0 <= p < |parents| && col < |parents[p]| && parents[p][col] == v
  }

  /** A row whose referring column is not NULL. */
  predicate Refers(row: Row, col: nat) {
    col < |row| && row[col].Some?
  }

  ghost predicate FkOk(db: Db, fk: ForeignKey) {
    fk.child in db ==>
      fk.parent in db && forall i :: 0 <= i < |db[fk.child]| && Refers(db[fk.child][i], fk.childCol) ==>
        HasParent(db[fk.parent], fk.parentCol, db[fk.child][i][fk.childCol])
  }

  ghost predicate DistinctNames(tables: seq<Table>) {
    forall i, j :: 0 <= i < j < |tables| ==> tables[i].name != tables[j].name
  }

  /** The plan's order: the parent of every foreign key comes before its child. */
  ghost predicate ParentFirst(tables: seq<Table>, fk: ForeignKey, p: nat, c: nat) {
    p < c < |tables| && tables[p].name == fk.parent && tables[c].name == fk.child
  }

  /** The destination while table i has received its first k rows: earlier tables complete, later
      ones empty. */
  ghost predicate AtStage(db: Db, target: Db, tables: seq<Table>, i: nat, k: nat) {
    && db.Keys == target.Keys
    && (forall t :: t in target ==> exists j :: 0 <= j < |tables| && tables[j].name == t)
    && forall j :: 0 <= j < |tables| ==>
         && tables[j].name in target
         && (j < i ==> db[tables[j].name] == target[tables[j].name])
         && (j == i ==> k <= |target[tables[j].name]| && db[tables[j].name] == target[tables[j].name][..k])
         && (j > i ==> db[tables[j].name] == [])
  }

  /** At every moment of the copy the destination satisfies the key if the source does. */
  lemma StageKeepsFk(db: Db, target: Db, tables: seq<Table>, i: nat, k: nat, fk: ForeignKey, p: nat, c: nat)
    requires AtStage(db, target, tables, i, k) && ParentFirst(tables, fk, p, c) && FkOk(target, fk)
    ensures FkOk(db, fk)
  {
    if c < i {
      assert db[fk.child] == target[fk.child] && db[fk.parent] == target[fk.parent];
    } else if c == i {
      assert db[fk.parent] == target[fk.parent];
      forall r | 0 <= r < |db[fk.child]| && Refers(db[fk.child][r], fk.childCol)
        ensures HasParent(db[fk.parent], fk.parentCol, db[fk.child][r][fk.childCol])
      {
        assert db[fk.child][r] == target[fk.child][r];
      }
    } else {
      assert db[fk.child] == [];
    }
  }

  /** The destination while the tables from index i on have been emptied. */
  ghost predicate Wiped(db: Db, before: Db, tables: seq<Table>, i: nat) {
    && db.Keys == before.Keys
    && forall j :: 0 <= j < |tables| ==>
         && tables[j].name in before
         && db[tables[j].name] == if j < i then before[tables[j].name] else []
  }

  /** Emptying in reverse order leaves no orphan at any moment. */
  lemma WipeKeepsFk(db: Db, before: Db, tables: seq<Table>, i: nat, fk: ForeignKey, p: nat, c: nat)
    requires Wiped(db, before, tables, i) && ParentFirst(tables, fk, p, c) && FkOk(before, fk)
    ensures FkOk(db, fk)
  {
    if c < i {
      assert db[fk.child] == before[fk.child] && db[fk.parent] == before[fk.parent];
    } else {
      assert db[fk.child] == [];
    }
  }

  /** Rewriting timestamps cannot break a key over columns that are not timestamps. */
  lemma RewriteKeepsFk(src: Db, target: Db, tables: seq<Table>, rewrite: Value -> Value, fk: ForeignKey, p: nat, c: nat)
    requires ParentFirst(tables, fk, p, c) && FkOk(src, fk) && fk.child in src && fk.parent in src
    requires fk.child in target && target[fk.child] == RewriteAll(tables[c], rewrite, src[fk.child])
    requires fk.parent in target && target[fk.parent] == RewriteAll(tables[p], rewrite, src[fk.parent])
    requires !IsTimestampCol(tables[c], fk.childCol) && !IsTimestampCol(tables[p], fk.parentCol)
    ensures FkOk(target, fk)
  {
    forall r | 0 <= r < |target[fk.child]| && Refers(target[fk.child][r], fk.childCol)
      ensures HasParent(target[fk.parent], fk.parentCol, target[fk.child][r][fk.childCol])
    {
      assert HasParent(src[fk.parent], fk.parentCol, src[fk.child][r][fk.childCol]);
      var parents, v := src[fk.parent], src[fk.child][r][fk.childCol];
      var q :| 0 <= q < |parents| && fk.parentCol < |parents[q]| && parents[q][fk.parentCol] == v;
      assert target[fk.parent][q][fk.parentCol] == parents[q][fk.parentCol];
    }
  }

  // ----- the plan -----------------------------------------------------------------------

  const WORKFLOW_INSTANCES := Table("workflow_instances",
    ["id", "workflow_name", "repo", "issue_num", "current_state", "created_at", "updated_at"],
    ["created_at", "updated_at"])

  const WORKFLOW_TRANSITIONS := Table("workflow_transitions",
    ["id", "workflow_instance_id", "from_state", "to_state", "trigger_agent", "created_at"], ["created_at"])

  /** The names in migration order; the two tables a foreign key joins are given in full above. */
  const ORDER := ["events", "repo_registrations", "workers", "workflow_instances", "workflow_transitions", "task_queue",
                  "issue_cache", "agent_sessions", "sessions", "session_routes", "issue_dependencies",
                  "issue_dependency_state",
                  "issue_claim", "issue_pipeline_hazards", "issue_cycle_state", "transition_counts"]

  const INSTANCE_KEY := ForeignKey("workflow_transitions", 1, "workflow_instances", 0)

  ghost predicate FollowsOrder(tables: seq<Table>) {
    && |tables| == |ORDER| && (forall i :: 0 <= i < |tables| ==> tables[i].name == ORDER[i])
    && tables[3] == WORKFLOW_INSTANCES && tables[4] == WORKFLOW_TRANSITIONS
  }

  /** The schema's only foreign key is respected by the plan and touches no timestamp column. */
  lemma PlanRespectsInstanceKey(tables: seq<Table>)
    requires FollowsOrder(tables)
    ensures ParentFirst(tables, INSTANCE_KEY, 3, 4)
    ensures !IsTimestampCol(tables[4], INSTANCE_KEY.childCol) && !IsTimestampCol(tables[3], INSTANCE_KEY.parentCol)
    ensures WORKFLOW_TRANSITIONS.columns[INSTANCE_KEY.childCol] == "workflow_instance_id"
    ensures WORKFLOW_INSTANCES.columns[INSTANCE_KEY.parentCol] == "id"
  {
    assert tables[3].name == ORDER[3] && tables[4].name == ORDER[4];
    assert |"workflow_instance_id"| != |"created_at"| && |"id"| != |"created_at"| && |"id"| != |"updated_at"|;
  }

  /** A letter of the name and its length tell any two planned tables apart. */
  lemma PlanNamesDistinct(tables: seq<Table>)
    requires FollowsOrder(tables)
    ensures DistinctNames(tables)
  {
    forall i, j | 0 <= i < j < |tables|
      ensures tables[i].name != tables[j].name
    {
      assert tables[i].name == ORDER[i] && tables[j].name == ORDER[j];
      OrderDistinct(i, j);
    }
  }

  lemma OrderDistinct(i: nat, j: nat)
    requires i < j < |ORDER|
    ensures ORDER[i] != ORDER[j]
  {
    assert |ORDER[i]| == |ORDER[j]| ==> ORDER[i][|ORDER[i]| - 3] != ORDER[j][|ORDER[j]| - 3];
  }

  // ----- the copy -----------------------------------------------------------------------

  /** What the outside answers to one call: a query, a scan, a statement, a cancellation check. A
      bulk statement may be rejected as too big, which sends the batch row by row. */
  datatype Answer = Fine | TooBig | Refused

  /** The destination with table `name` grown by the first k target rows. */
  function Grown(before: Db, name: string, target: seq<Row>, k: nat): Db
    requires name in before && k <= |target|
  {
    before[name := before[name] + target[..k]]
  }

  ghost predicate IsGrown(db: Db, before: Db, name: string, target: seq<Row>) {
    name in before && exists k :: 0 <= k <= |target| && db == Grown(before, name, target, k)
  }

  /** Every state the destination went through from a point on is an in-order prefix. */
  ghost predicate Prefixes(moments: seq<Db>, start: nat, before: Db, name: string, target: seq<Row>) {
    forall m :: start <= m < |moments| ==> IsGrown(moments[m], before, name, target)
  }

  lemma GrownTwice(before: Db, name: string, target: seq<Row>, k: nat, j: nat)
    requires name in before && k <= j <= |target|
    ensures var db := Grown(before, name, target, k);
            db[name := db[name] + target[k..j]] == Grown(before, name, target, j)
  {
    assert target[..j] == target[..k] + target[k..j];
    assert before[name] + target[..j] == (before[name] + target[..k]) + target[k..j];
  }

  lemma GrownByNothing(before: Db, name: string, target: seq<Row>)
    requires name in before
    ensures Grown(before, name, target, 0) == before
  {
    assert before[name] + target[..0] == before[name];
  }

  /** What the destination should hold in the end. */
  ghost function Target(src: Db, tables: seq<Table>, rewrite: Value -> Value): (r: Db)
    requires DistinctNames(tables) && forall i :: 0 <= i < |tables| ==> tables[i].name in src
    ensures forall n :: n in r <==> Planned(tables, n)
    ensures forall i :: 0 <= i < |tables| ==>
      tables[i].name in r && r[tables[i].name] == RewriteAll(tables[i], rewrite, src[tables[i].name])
    decreases |tables|
  {
    if tables == [] then map[] else
      var last := tables[|tables| - 1];
      var r := Target(src, tables[..|tables| - 1], rewrite)[last.name := RewriteAll(last, rewrite, src[last.name])];
      TargetKeys(tables);
      r
  }

  ghost function PlanTarget(src: Db, tables: seq<Table>, rewrite: Value -> Value): Db
    requires FollowsOrder(tables) && forall i :: 0 <= i < |tables| ==> tables[i].name in src
  {
    PlanNamesDistinct(tables);
    Target(src, tables, rewrite)
  }

  ghost predicate Planned(tables: seq<Table>, n: string) {
    exists j :: 0 <= j < |tables| && tables[j].name == n
  }

  lemma TargetKeys(tables: seq<Table>)
    requires tables != []
    ensures forall n :: Planned(tables, n) <==> Planned(tables[..|tables| - 1], n) || n == tables[|tables| - 1].name
  {
    forall n
      ensures Planned(tables, n) <==> Planned(tables[..|tables| - 1], n) || n == tables[|tables| - 1].name
    {
      if Planned(tables, n) && n != tables[|tables| - 1].name {
        var j :| 0 <= j < |tables| && tables[j].name == n;
        assert tables[..|tables| - 1][j].name == n;
      }
      if Planned(tables[..|tables| - 1], n) {
        var j :| 0 <= j < |tables| - 1 && tables[..|tables| - 1][j].name == n;
        assert tables[j].name == n;
      }
    }
  }

  ghost predicate Holds(db: Db, tables: seq<Table>) {
    forall n :: n in db <==> Planned(tables, n)
  }

  ghost predicate AllEmpty(db: Db, tables: seq<Table>) {
    forall i :: 0 <= i < |tables| ==> tables[i].name in db && db[tables[i].name] == []
  }

  ghost predicate IsWiped(db: Db, before: Db, tables: seq<Table>) {
    exists i: nat :: Wiped(db, before, tables, i)
  }

  /** The destination at one moment of a migration: part-way through the wipe or the copy. */
  ghost predicate Moment(db: Db, before: Db, target: Db, tables: seq<Table>) {
    || IsWiped(db, before, tables)
    || (exists i: nat, k: nat :: AtStage(db, target, tables, i, k))
  }

  ghost predicate Moments(moments: seq<Db>, start: nat, before: Db, target: Db, tables: seq<Table>) {
    forall m :: start <= m < |moments| ==> Moment(moments[m], before, target, tables)
  }

  /** Wiping or copying, the destination satisfies every key the plan's order respects at every
      moment, if it did before and the source does. */
  lemma EveryMomentKeepsFk(db: Db, before: Db, src: Db, tables: seq<Table>, rewrite: Value -> Value, fk: ForeignKey,
                           p: nat, c: nat)
    requires DistinctNames(tables) && forall i :: 0 <= i < |tables| ==> tables[i].name in src
    requires ParentFirst(tables, fk, p, c) && FkOk(before, fk) && FkOk(src, fk)
    requires !IsTimestampCol(tables[c], fk.childCol) && !IsTimestampCol(tables[p], fk.parentCol)
    requires Moment(db, before, Target(src, tables, rewrite), tables)
    ensures FkOk(db, fk)
  {
    var target := Target(src, tables, rewrite);
    if IsWiped(db, before, tables) {
      var i: nat :| Wiped(db, before, tables, i);
      WipeKeepsFk(db, before, tables, i, fk, p, c);
    } else {
      var i: nat, k: nat :| AtStage(db, target, tables, i, k);
      RewriteKeepsFk(src, target, tables, rewrite, fk, p, c);
      StageKeepsFk(db, target, tables, i, k, fk, p, c);
    }
  }

  /** The schema's key holds now and at every moment from `start` on, if the tables are the plan's and
      it held on both sides before. */
  ghost predicate InstanceKeyKept(tables: seq<Table>, moments: seq<Db>, start: nat, db: Db, before: Db, src: Db) {
    FollowsOrder(tables) && FkOk(before, INSTANCE_KEY) && FkOk(src, INSTANCE_KEY) ==>
      FkOk(db, INSTANCE_KEY) && forall m :: start <= m < |moments| ==> FkOk(moments[m], INSTANCE_KEY)
  }

  lemma PlanKeepsInstanceKey(tables: seq<Table>, moments: seq<Db>, start: nat, db: Db, before: Db, src: Db,
                             rewrite: Value -> Value)
    requires DistinctNames(tables) && forall i :: 0 <= i < |tables| ==> tables[i].name in src
    requires Moments(moments, start, before, Target(src, tables, rewrite), tables)
    requires Moment(db, before, Target(src, tables, rewrite), tables)
    ensures InstanceKeyKept(tables, moments, start, db, before, src)
  {
    if FollowsOrder(tables) && FkOk(before, INSTANCE_KEY) && FkOk(src, INSTANCE_KEY) {
      PlanRespectsInstanceKey(tables);
      EveryMomentKeepsFk(db, before, src, tables, rewrite, INSTANCE_KEY, 3, 4);
      forall m | start <= m < |moments| ensures FkOk(moments[m], INSTANCE_KEY) {
        assert Moment(moments[m], before, Target(src, tables, rewrite), tables);
        EveryMomentKeepsFk(moments[m], before, src, tables, rewrite, INSTANCE_KEY, 3, 4);
      }
    }
  }

  lemma GrownIsStage(before: Db, target: Db, tables: seq<Table>, i: nat, k: nat)
    requires DistinctNames(tables) && AtStage(before, target, tables, i, 0) && i < |tables|
    requires k <= |target[tables[i].name]|
    ensures AtStage(Grown(before, tables[i].name, target[tables[i].name], k), target, tables, i, k)
    ensures k == |target[tables[i].name]| ==>
      AtStage(Grown(before, tables[i].name, target[tables[i].name], k), target, tables, i + 1, 0)
  {
    var name := tables[i].name;
    var db := Grown(before, name, target[name], k);
    assert before[name] == [] && [] + target[name][..k] == target[name][..k];
    forall j | 0 <= j < |tables| && j != i
      ensures db[tables[j].name] == before[tables[j].name]
    {
      assert tables[j].name != name;
    }
    if k == |target[name]| {
      assert target[name][..k] == target[name];
    }
  }

  lemma PrefixesAreMoments(moments: seq<Db>, start: nat, before: Db, first: Db, target: Db, tables: seq<Table>, i: nat)
    requires DistinctNames(tables) && i < |tables| && AtStage(first, target, tables, i, 0)
    requires Prefixes(moments, start, first, tables[i].name, target[tables[i].name])
    ensures Moments(moments, start, before, target, tables)
  {
    forall m | start <= m < |moments|
      ensures Moment(moments[m], before, target, tables)
    {
      assert IsGrown(moments[m], first, tables[i].name, target[tables[i].name]);
      var rows := target[tables[i].name];
      var k :| 0 <= k <= |rows| && moments[m] == Grown(first, tables[i].name, rows, k);
      GrownIsStage(first, target, tables, i, k);
    }
  }

  lemma EmptyIsStageZero(db: Db, target: Db, tables: seq<Table>)
    requires DistinctNames(tables) && Holds(db, tables) && Holds(target, tables) && AllEmpty(db, tables)
    ensures AtStage(db, target, tables, 0, 0)
  {
    assert forall n :: n in db <==> n in target;
    assert forall n :: n in target ==> Planned(tables, n);
    assert forall j :: 0 <= j < |tables| ==> Planned(tables, tables[j].name);
  }

  lemma LastStageIsTarget(db: Db, target: Db, tables: seq<Table>)
    requires AtStage(db, target, tables, |tables|, 0)
    ensures db == target
  {
  }

  ghost predicate SameCounts(db: Db, src: Db, tables: seq<Table>)
    requires forall j :: 0 <= j < |tables| ==> tables[j].name in src
  {
    forall j :: 0 <= j < |tables| ==> tables[j].name in db && |db[tables[j].name]| == |src[tables[j].name]|
  }

  /** No statement carries more rows than the batch size, which is 1000 if not positive. */
  function Wider(widest: nat, batchSize: int): nat {
    var cap := if batchSize <= 0 then 1000 else batchSize;
    if cap > widest then cap else widest
  }

  class Destination {
    var db: Db
    var calls: nat
    const world: nat -> Answer
    ghost var moments: seq<Db>
    /** The largest number of rows any INSERT has carried. */
    ghost var widest: nat

    constructor (db: Db, world: nat -> Answer)
      ensures this.db == db && this.world == world && calls == 0 && moments == [] && widest == 0
    {
      this.db, this.world, calls, moments, widest := db, world, 0, [], 0;
    }

    /** No call is ever refused. */
    ghost predicate Healthy() {
      forall n: nat :: world(n) == Fine
    }

    /** No call in the range is refused. */
    ghost predicate NoRefusal(from: nat, to: nat) {
      forall c: nat :: from <= c < to ==> world(c) != Refused
    }

    /** The next n calls succeed. */
    ghost predicate FineFor(from: nat, n: nat) {
      forall c: nat :: from <= c < from + n ==> world(c) == Fine
    }

    method Ask() returns (a: Answer)
      modifies this`calls
      ensures a == world(old(calls)) && calls == old(calls) + 1
    {
      a := world(calls);
      calls := calls + 1;
    }

    /** One INSERT statement: all of its rows or none. */
    method Insert(name: string, rows: seq<Row>) returns (a: Answer)
      requires name in db
      modifies this
      ensures a == world(old(calls)) && calls == old(calls) + 1
      ensures widest == if |rows| > old(widest) then |rows| else old(widest)
      ensures db == if a == Fine then old(db)[name := old(db)[name] + rows] else old(db)
      ensures moments == if a == Fine then old(moments) + [db] else old(moments)
    {
      a := Ask();
      widest := if |rows| > widest then |rows| else widest;
      if a == Fine {
        db := db[name := db[name] + rows];
        moments := moments + [db];
      }
    }

    /** bulkInsert of the batch target[lo..]; `first` is the destination when the copy began. */
    method BulkInsert(name: string, batch: seq<Row>, ghost first: Db, ghost target: seq<Row>, ghost lo: nat,
                      ghost start: nat)
      returns (ok: bool, ghost hi: nat)
      requires name in first && lo + |batch| <= |target| && batch == target[lo..lo + |batch|]
      requires db == Grown(first, name, target, lo)
      requires Prefixes(moments, start, first, name, target)
      modifies this
      ensures lo <= hi <= lo + |batch| && (ok ==> hi == lo + |batch|) && (Healthy() ==> ok)
      ensures db == Grown(first, name, target, hi)
      ensures old(moments) <= moments && Prefixes(moments, start, first, name, target)
      ensures old(calls) <= calls && (ok ==> NoRefusal(old(calls), calls))
      ensures |batch| > 0 && world(old(calls)) == Refused ==> !ok && hi == lo
      ensures world(old(calls)) == TooBig && FineFor(old(calls) + 1, |batch|) ==> ok
      ensures widest <= if |batch| > old(widest) then |batch| else old(widest)
    {
      hi := lo;
      if |batch| == 0 {
        return true, hi;
      }
      var a := Insert(name, batch);
      if a == Fine {
        GrownTwice(first, name, target, lo, lo + |batch|);
        return true, lo + |batch|;
      }
      if a == Refused {
        return false, hi;
      }
      var i := 0;
      while i < |batch|
        invariant 0 <= i <= |batch| && hi == lo + i && !Healthy()
        invariant calls == old(calls) + 1 + i && NoRefusal(old(calls), calls)
        invariant widest <= if |batch| > old(widest) then |batch| else old(widest)
        invariant db == Grown(first, name, target, hi)
        invariant old(moments) <= moments && Prefixes(moments, start, first, name, target)
      {
        GrownTwice(first, name, target, lo + i, lo + i + 1);
        assert target[lo + i..lo + i + 1] == [batch[i]];
        var one := Insert(name, [batch[i]]);
        if one != Fine {
          return false, hi;
        }
        i := i + 1;
        hi := hi + 1;
      }
      return true, hi;
    }

    /** copyTable: whatever the batch size and whatever is rejected, the table is an in-order
        prefix of the rewritten source at every moment and on every exit. */
    method CopyTable(t: Table, rows: seq<Row>, batchSize: int, rewrite: Value -> Value)
      returns (copied: nat, ok: bool, ghost inserted: nat)
      requires t.name in db
      modifies this
      ensures copied <= inserted <= |rows| && (ok ==> copied == inserted == |rows|) && (Healthy() ==> ok)
      ensures db == Grown(old(db), t.name, RewriteAll(t, rewrite, rows), inserted)
      ensures old(moments) <= moments
      ensures Prefixes(moments, |old(moments)|, old(db), t.name, RewriteAll(t, rewrite, rows))
      ensures old(calls) <= calls && (ok ==> NoRefusal(old(calls), calls))
      ensures ok ==> calls >= old(calls) + |rows| + 2
      ensures widest <= Wider(old(widest), batchSize)
    {
      ghost var target := RewriteAll(t, rewrite, rows);
      GrownByNothing(db, t.name, target);
      var a := Ask();
      if a != Fine {
        return 0, false, 0;
      }
      copied, ok, inserted := CopyRows(t, rows, batchSize, rewrite, target);
    }

    method CopyRows(t: Table, rows: seq<Row>, batchSize: int, rewrite: Value -> Value, ghost target: seq<Row>)
      returns (copied: nat, ok: bool, ghost inserted: nat)
      requires t.name in db && |target| == |rows|
      requires forall i :: 0 <= i < |rows| ==> target[i] == RewriteRow(t, rewrite, rows[i])
      requires db == Grown(db, t.name, target, 0)
      modifies this
      ensures copied <= inserted <= |rows| && (ok ==> copied == inserted == |rows|) && (Healthy() ==> ok)
      ensures db == Grown(old(db), t.name, target, inserted)
      ensures old(moments) <= moments && Prefixes(moments, |old(moments)|, old(db), t.name, target)
      ensures old(calls) <= calls && (ok ==> NoRefusal(old(calls), calls))
      ensures ok ==> calls >= old(calls) + |rows| + 1
      ensures widest <= Wider(old(widest), batchSize)
    {
      copied, ok, inserted := 0, true, 0;
      var batchCap := if batchSize <= 0 then 1000 else batchSize;
      var batch: seq<Row> := [];
      var i := 0;
      while i < |rows|
        invariant 0 <= i <= |rows| && copied == inserted == i - |batch| && batch == target[inserted..i] && ok
        invariant old(calls) + i <= calls && NoRefusal(old(calls), calls)
        invariant |batch| < batchCap && widest <= Wider(old(widest), batchSize)
        invariant db == Grown(old(db), t.name, target, inserted)
        invariant old(moments) <= moments && Prefixes(moments, |old(moments)|, old(db), t.name, target)
      {
        batch, ok, inserted := TakeRow(t.name, batch, RewriteRow(t, rewrite, rows[i]), batchCap,
                                       old(db), target, copied, |old(moments)|);
        if !ok {
          return;
        }
        i := i + 1;
        copied := i - |batch|;
      }
      var last := Ask();
      if last != Fine {
        return copied, false, inserted;
      }
      ok, inserted := BulkInsert(t.name, batch, old(db), target, copied, |old(moments)|);
      if ok {
        copied := copied + |batch|;
      }
    }

    /** One round of the row loop: the row joins the batch, and a full batch is flushed. */
    method TakeRow(name: string, batch: seq<Row>, row: Row, batchCap: nat, ghost first: Db, ghost target: seq<Row>,
                   ghost lo: nat, ghost start: nat)
      returns (left: seq<Row>, ok: bool, ghost inserted: nat)
      requires name in first && |batch| < batchCap && lo + |batch| < |target|
      requires batch == target[lo..lo + |batch|] && row == target[lo + |batch|]
      requires db == Grown(first, name, target, lo) && Prefixes(moments, start, first, name, target)
      modifies this
      ensures lo <= inserted <= lo + |batch| + 1 && (Healthy() ==> ok)
      ensures ok ==> |left| < batchCap && inserted == lo + |batch| + 1 - |left|
      ensures ok ==> left == target[inserted..lo + |batch| + 1]
      ensures db == Grown(first, name, target, inserted)
      ensures old(moments) <= moments && Prefixes(moments, start, first, name, target)
      ensures old(calls) < calls && (ok ==> NoRefusal(old(calls), calls))
      ensures widest <= if batchCap > old(widest) then batchCap else old(widest)
    {
      var a := Ask();
      if a != Fine {
        return batch, false, lo;
      }
      left := batch + [row];
      if |left| < batchCap {
        return left, true, lo;
      }
      ok, inserted := BulkInsert(name, left, first, target, lo, start);
      if ok {
        left := [];
      }
    }

    /** One DELETE statement: empties table i when the later ones are empty already. */
    method DeleteRows(tables: seq<Table>, i: nat, ghost before: Db) returns (ok: bool)
      requires DistinctNames(tables) && i < |tables| && Wiped(db, before, tables, i + 1)
      modifies this
      ensures old(calls) <= calls && (ok ==> NoRefusal(old(calls), calls))
      ensures ok ==> calls == old(calls) + 1
      ensures Healthy() ==> ok
      ensures Wiped(db, before, tables, if ok then i else i + 1)
      ensures moments == if ok then old(moments) + [db] else old(moments)
    {
      var a := Ask();
      if a != Fine {
        return false;
      }
      WipeStep(db, before, tables, i + 1);
      db := db[tables[i].name := []];
      moments := moments + [db];
      return true;
    }

    /** wipeDestination, last table first. */
    method WipeDestination(tables: seq<Table>) returns (ok: bool, ghost i: nat)
      requires DistinctNames(tables) && Holds(db, tables)
      modifies this
      ensures old(calls) <= calls && (ok ==> NoRefusal(old(calls), calls))
      ensures ok ==> calls == old(calls) + |tables|
      ensures Healthy() ==> ok
      ensures Wiped(db, old(db), tables, i) && (ok ==> i == 0)
      ensures old(moments) <= moments
      ensures forall m :: |old(moments)| <= m < |moments| ==> IsWiped(moments[m], old(db), tables)
    {
      var next := |tables|;
      UntouchedIsWiped(db, tables);
      while next > 0
        invariant 0 <= next <= |tables| && Wiped(db, old(db), tables, next)
        invariant old(calls) <= calls && NoRefusal(old(calls), calls)
        invariant calls == old(calls) + (|tables| - next)
        invariant old(moments) <= moments
        invariant forall m :: |old(moments)| <= m < |moments| ==> IsWiped(moments[m], old(db), tables)
      {
        var done := DeleteRows(tables, next - 1, old(db));
        if !done {
          return false, next;
        }
        next := next - 1;
        assert IsWiped(db, old(db), tables);
      }
      return true, next;
    }

    /** nonEmptyDestinationTables. */
    method NonEmptyTables(tables: seq<Table>) returns (names: seq<string>, ok: bool)
      requires Holds(db, tables)
      modifies this`calls
      ensures old(calls) <= calls && (ok ==> NoRefusal(old(calls), calls))
      ensures ok ==> calls == old(calls) + |tables|
      ensures Healthy() ==> ok
      ensures ok ==> (names == [] <==> AllEmpty(db, tables))
    {
      names := [];
      var i := 0;
      assert forall j :: 0 <= j < |tables| ==> Planned(tables, tables[j].name);
      while i < |tables|
        invariant 0 <= i <= |tables| && (names == [] <==> AllEmpty(db, tables[..i]))
        invariant old(calls) <= calls && NoRefusal(old(calls), calls)
        invariant calls == old(calls) + i
      {
        var a := Ask();
        if a != Fine {
          return names, false;
        }
        assert tables[..i + 1] == tables[..i] + [tables[i]];
        assert tables[..i + 1][i] == tables[i];
        if |db[tables[i].name]| > 0 {
          names := names + [tables[i].name];
        } else {
          assert forall j :: 0 <= j < i ==> tables[..i + 1][j] == tables[..i][j];
        }
        i := i + 1;
      }
      assert tables[..i] == tables;
      ok := true;
    }

    /** One round of the copy loop. */
    method CopyNext(src: Db, tables: seq<Table>, n: nat, batchSize: int, rewrite: Value -> Value, ghost target: Db)
      returns (ok: bool, ghost k: nat)
      requires DistinctNames(tables) && n < |tables| && tables[n].name in src
      requires AtStage(db, target, tables, n, 0)
      requires target[tables[n].name] == RewriteAll(tables[n], rewrite, src[tables[n].name])
      modifies this
      ensures old(calls) <= calls && (ok ==> NoRefusal(old(calls), calls))
      ensures ok ==> calls >= old(calls) + 3
      ensures Healthy() ==> ok
      ensures if ok then AtStage(db, target, tables, n + 1, 0) else AtStage(db, target, tables, n, k)
      ensures old(moments) <= moments
      ensures Prefixes(moments, |old(moments)|, old(db), tables[n].name, target[tables[n].name])
    {
      var a := Ask();
      if a != Fine {
        return false, 0;
      }
      var _, done, inserted := CopyTable(tables[n], src[tables[n].name], batchSize, rewrite);
      GrownIsStage(old(db), target, tables, n, inserted);
      return done, inserted;
    }

    /** The copy loop over the plan. */
    method CopyAll(src: Db, tables: seq<Table>, batchSize: int, rewrite: Value -> Value, ghost target: Db,
                   ghost before: Db)
      returns (ok: bool, ghost i: nat, ghost k: nat)
      requires DistinctNames(tables) && (forall j :: 0 <= j < |tables| ==> tables[j].name in src)
      requires AtStage(db, target, tables, 0, 0)
      requires forall j :: 0 <= j < |tables| ==>
        target[tables[j].name] == RewriteAll(tables[j], rewrite, src[tables[j].name])
      modifies this
      ensures old(calls) <= calls && (ok ==> NoRefusal(old(calls), calls))
      ensures ok ==> calls >= old(calls) + 3 * |tables|
      ensures Healthy() ==> ok
      ensures AtStage(db, target, tables, i, k) && (ok ==> db == target)
      ensures old(moments) <= moments && Moments(moments, |old(moments)|, before, target, tables)
    {
      var n := 0;
      while n < |tables|
        invariant 0 <= n <= |tables| && AtStage(db, target, tables, n, 0)
        invariant old(calls) <= calls && NoRefusal(old(calls), calls)
        invariant calls >= old(calls) + 3 * n
        invariant old(moments) <= moments && Moments(moments, |old(moments)|, before, target, tables)
      {
        ghost var first, seen := db, moments;
        var done, inserted := CopyNext(src, tables, n, batchSize, rewrite, target);
        PrefixesAreMoments(moments, |seen|, before, first, target, tables, n);
        if !done {
          return false, n, inserted;
        }
        n := n + 1;
      }
      LastStageIsTarget(db, target, tables);
      return true, n, 0;
    }

    /** The closing row-count comparison. */
    method CountsAgree(src: Db, tables: seq<Table>) returns (same: bool)
      requires Holds(db, tables) && forall j :: 0 <= j < |tables| ==> tables[j].name in src
      modifies this`calls
      ensures old(calls) <= calls && (same ==> NoRefusal(old(calls), calls))
      ensures same ==> calls == old(calls) + 2 * |tables|
      ensures same ==> SameCounts(db, src, tables)
      ensures Healthy() && SameCounts(db, src, tables) ==> same
    {
      var i := 0;
      assert forall j :: 0 <= j < |tables| ==> Planned(tables, tables[j].name);
      while i < |tables|
        invariant 0 <= i <= |tables|
        invariant old(calls) <= calls && NoRefusal(old(calls), calls)
        invariant calls == old(calls) + 2 * i
        invariant forall j :: 0 <= j < i ==> tables[j].name in db && |db[tables[j].name]| == |src[tables[j].name]|
      {
        var a := Ask();
        if a != Fine {
          return false;
        }
        var b := Ask();
        if b != Fine || |db[tables[i].name]| != |src[tables[i].name]| {
          return false;
        }
        i := i + 1;
      }
      return true;
    }

    /** The guard in front of the copy: refuse a destination with data, or wipe it if forced. */
    method Prepare(tables: seq<Table>, force: bool) returns (ok: bool, ghost i: nat)
      requires DistinctNames(tables) && Holds(db, tables)
      modifies this
      ensures old(calls) <= calls && (ok ==> NoRefusal(old(calls), calls))
      ensures ok ==> calls >= old(calls) + |tables|
      ensures ok ==> Holds(db, tables) && AllEmpty(db, tables)
      ensures Wiped(db, old(db), tables, i)
      ensures !force && !AllEmpty(old(db), tables) ==> !ok && db == old(db) && moments == old(moments)
      ensures Healthy() && (force || AllEmpty(old(db), tables)) ==> ok
      ensures old(moments) <= moments
      ensures forall m :: |old(moments)| <= m < |moments| ==> IsWiped(moments[m], old(db), tables)
    {
      UntouchedIsWiped(db, tables);
      i := |tables|;
      var names, counted := NonEmptyTables(tables);
      if !counted || (names != [] && !force) {
        return false, i;
      }
      if names != [] {
        ok, i := WipeDestination(tables);
        if ok {
          WipedIsEmpty(db, old(db), tables);
        }
        return;
      }
      ok := true;
    }

    /** runDBMigrate: a destination with data is left alone unless forced; success is an exact
        rewritten copy; nothing but an orderly wipe or copy is ever visible, so the schema's foreign
        key holds at every moment. */
    method RunDBMigrate(src: Db, tables: seq<Table>, force: bool, batchSize: int, rewrite: Value -> Value)
      returns (ok: bool)
      requires DistinctNames(tables) && (forall j :: 0 <= j < |tables| ==> tables[j].name in src)
      requires Holds(db, tables)
      modifies this
      ensures old(calls) <= calls && (ok ==> NoRefusal(old(calls), calls))
      ensures ok ==> db == Target(src, tables, rewrite)
      ensures !force && !AllEmpty(old(db), tables) ==> !ok && db == old(db) && moments == old(moments)
      ensures Healthy() && (force || AllEmpty(old(db), tables)) ==> ok
      ensures Moment(db, old(db), Target(src, tables, rewrite), tables)
      ensures old(moments) <= moments && Moments(moments, |old(moments)|, old(db), Target(src, tables, rewrite), tables)
      ensures InstanceKeyKept(tables, moments, |old(moments)|, db, old(db), src)
    {
      ok := PrepareAndTransfer(src, tables, force, batchSize, rewrite, Target(src, tables, rewrite));
      PlanKeepsInstanceKey(tables, moments, |old(moments)|, db, old(db), src, rewrite);
    }

    /** The migration with the plan's own tables, whose names need no further assumption. */
    method RunPlan(src: Db, tables: seq<Table>, force: bool, batchSize: int, rewrite: Value -> Value) returns (ok: bool)
      requires FollowsOrder(tables) && Holds(db, tables) && forall j :: 0 <= j < |tables| ==> tables[j].name in src
      modifies this
      ensures old(calls) <= calls && (ok ==> NoRefusal(old(calls), calls))
      ensures ok ==> db == PlanTarget(src, tables, rewrite)
      ensures !force && !AllEmpty(old(db), tables) ==> !ok && db == old(db) && moments == old(moments)
      ensures Healthy() && (force || AllEmpty(old(db), tables)) ==> ok
      ensures InstanceKeyKept(tables, moments, |old(moments)|, db, old(db), src)
    {
      PlanNamesDistinct(tables);
      ok := RunDBMigrate(src, tables, force, batchSize, rewrite);
    }

    method PrepareAndTransfer(src: Db, tables: seq<Table>, force: bool, batchSize: int, rewrite: Value -> Value,
                              ghost target: Db)
      returns (ok: bool)
      requires DistinctNames(tables) && (forall j :: 0 <= j < |tables| ==> tables[j].name in src)
      requires Holds(db, tables) && target == Target(src, tables, rewrite)
      modifies this
      ensures old(calls) <= calls && (ok ==> NoRefusal(old(calls), calls))
      ensures ok ==> calls >= old(calls) + 6 * |tables|
      ensures ok ==> db == target
      ensures !force && !AllEmpty(old(db), tables) ==> !ok && db == old(db) && moments == old(moments)
      ensures Healthy() && (force || AllEmpty(old(db), tables)) ==> ok
      ensures Moment(db, old(db), target, tables)
      ensures old(moments) <= moments && Moments(moments, |old(moments)|, old(db), target, tables)
    {
      var prepared, i := Prepare(tables, force);
      assert IsWiped(db, old(db), tables);
      if !prepared {
        return false;
      }
      ok := Transfer(src, tables, batchSize, rewrite, target, old(db));
    }

    method Transfer(src: Db, tables: seq<Table>, batchSize: int, rewrite: Value -> Value, ghost target: Db,
                    ghost before: Db)
      returns (ok: bool)
      requires DistinctNames(tables) && (forall j :: 0 <= j < |tables| ==> tables[j].name in src)
      requires Holds(db, tables) && AllEmpty(db, tables) && Holds(target, tables)
      requires forall j :: 0 <= j < |tables| ==>
        tables[j].name in target && target[tables[j].name] == RewriteAll(tables[j], rewrite, src[tables[j].name])
      modifies this
      ensures old(calls) <= calls && (ok ==> NoRefusal(old(calls), calls))
      ensures ok ==> calls >= old(calls) + 5 * |tables|
      ensures ok ==> db == target
      ensures Healthy() ==> ok
      ensures Moment(db, before, target, tables)
      ensures old(moments) <= moments && Moments(moments, |old(moments)|, before, target, tables)
    {
      EmptyIsStageZero(db, target, tables);
      var copied, i, k := CopyAll(src, tables, batchSize, rewrite, target, before);
      if !copied {
        return false;
      }
      ok := CountsAgree(src, tables);
    }
  }

  lemma UntouchedIsWiped(db: Db, tables: seq<Table>)
    requires Holds(db, tables)
    ensures Wiped(db, db, tables, |tables|)
  {
    assert forall j :: 0 <= j < |tables| ==> Planned(tables, tables[j].name);
  }

  lemma WipedIsEmpty(db: Db, before: Db, tables: seq<Table>)
    requires Holds(before, tables) && Wiped(db, before, tables, 0)
    ensures Holds(db, tables) && AllEmpty(db, tables)
  {
  }

  lemma WipeStep(db: Db, before: Db, tables: seq<Table>, i: nat)
    requires DistinctNames(tables) && 0 < i <= |tables| && Wiped(db, before, tables, i)
    ensures Wiped(db[tables[i - 1].name := []], before, tables, i - 1)
  {
    forall j | 0 <= j < |tables| && j != i - 1
      ensures tables[j].name != tables[i - 1].name
    {
    }
  }
}
