/** The release updater: version order, watch checks and rollbacks. */
module Updater {
  import opened Text

  // ----- versions ---------------------------------------------------------------------

  datatype Version = Version(core: seq<string>, pre: string)

  function TrimV(s: string): string {
    if s != [] && s[0] == 'v' then s[1..] else s
  }

  /** splitSemver: build metadata dropped, the prerelease after the first dash. */
  function SplitSemver(v: string): Version {
    SplitTrimmed(TrimV(TrimSpace(v)))
  }

  function SplitTrimmed(t: string): Version {
    if t == "" then Version([], "") else SplitBody(t[..IndexOf(t, '+')])
  }

  function SplitBody(body: string): Version {
    var d := IndexOf(body, '-');
    if d == |body| then Version(Split(body, '.'), "") else Version(Split(body[..d], '.'), body[d + 1..])
  }

  /** Segment i of a core, zero when the core is shorter. */
  function Segment(core: seq<string>, i: nat): string {
    if i < |core| then core[i] else "0"
  }

  function Sign(less: bool, greater: bool): int {
    if greater then 1 else if less then -1 else 0
  }

  /** Two segments: as integers when both parse, as text otherwise. */
  function CompareSegments(a: string, b: string): int {
    if Atoi(a).Some? && Atoi(b).Some?
    then Sign(Atoi(a).value < Atoi(b).value, Atoi(a).value > Atoi(b).value)
    else if a == b then 0 else Sign(Less(a, b), Less(b, a))
  }

  /** A release is above its prereleases; two prereleases compare as text. */
  function ComparePre(a: string, b: string): int {
    if a == "" && b != "" then 1
    else if a != "" && b == "" then -1
    else if a == b then 0
    else Sign(Less(a, b), Less(b, a))
  }

  function CompareFrom(a: seq<string>, b: seq<string>, i: nat): int
    decreases |a| + |b| - i
  {
    if i >= |a| && i >= |b| then 0
    else
      var c := CompareSegments(Segment(a, i), Segment(b, i));
      if c != 0 then c else CompareFrom(a, b, i + 1)
  }

  function Compare(a: Version, b: Version): int {
    var c := CompareFrom(a.core, b.core, 0);
    if c != 0 then c else ComparePre(a.pre, b.pre)
  }

  method SegmentOrder(ax: string, bx: string) returns (c: int)
    ensures c == CompareSegments(ax, bx)
  {
    var ai, bi := Atoi(ax), Atoi(bx);
    if ai.Some? && bi.Some? {
      if ai.value != bi.value {
        if ai.value > bi.value {
          return 1;
        }
        return -1;
      }
      return 0;
    }
    if ax != bx {
      LessTrichotomy(ax, bx);
      if Less(bx, ax) {
        return 1;
      }
      return -1;
    }
    return 0;
  }

  method CompareSemver(a: string, b: string) returns (c: int)
    ensures c == Compare(SplitSemver(a), SplitSemver(b))
  {
    var va, vb := SplitSemver(a), SplitSemver(b);
    c := CompareCores(va.core, vb.core);
    if c == 0 {
      c := ComparePre(va.pre, vb.pre);
    }
  }

  method CompareCores(a: seq<string>, b: seq<string>) returns (c: int)
    ensures c == CompareFrom(a, b, 0)
  {
    ghost var goal := CompareFrom(a, b, 0);
    var max := if |b| > |a| then |b| else |a|;
    var i := 0;
    while i < max
      invariant 0 <= i <= max && CompareFrom(a, b, i) == goal
    {
      c := SegmentOrder(Segment(a, i), Segment(b, i));
      CompareStep(a, b, i, c);
      if c != 0 {
        return;
      }
      i := i + 1;
    }
    c := 0;
  }

  lemma CompareStep(a: seq<string>, b: seq<string>, i: nat, c: int)
    requires (i < |a| || i < |b|) && c == CompareSegments(Segment(a, i), Segment(b, i))
    ensures CompareFrom(a, b, i) == if c != 0 then c else CompareFrom(a, b, i + 1)
  {}

  function SemverGreater(latest: string, current: string): bool {
    TrimSpace(current) == "" || Compare(SplitSemver(latest), SplitSemver(current)) > 0
  }

  // ----- antisymmetry on all inputs -----------------------------------------------------

  lemma SegmentsAntisymmetric(a: string, b: string)
    ensures CompareSegments(a, b) == -CompareSegments(b, a)
  {
    LessTrichotomy(a, b);
  }

  lemma {:induction false} CoreAntisymmetric(a: seq<string>, b: seq<string>, i: nat)
    ensures CompareFrom(a, b, i) == -CompareFrom(b, a, i)
    decreases |a| + |b| - i
  {
    if i >= |a| && i >= |b| {
    } else {
      SegmentsAntisymmetric(Segment(a, i), Segment(b, i));
      CoreAntisymmetric(a, b, i + 1);
    }
  }

  lemma PreAntisymmetric(a: string, b: string)
    ensures ComparePre(a, b) == -ComparePre(b, a)
  {
    LessTrichotomy(a, b);
  }

  /** On all inputs, swapping the versions negates the answer. */
  lemma CompareAntisymmetric(a: Version, b: Version)
    ensures Compare(a, b) == -Compare(b, a)
  {
    CoreAntisymmetric(a.core, b.core, 0);
    PreAntisymmetric(a.pre, b.pre);
  }

  // ----- a total preorder on numeric cores ---------------------------------------------

  /** Every core segment parses as an integer. */
  predicate Numeric(v: Version) {
    forall i :: 0 <= i < |v.core| ==> Atoi(v.core[i]).Some?
  }

  /** The core as a number for every position, zero beyond its end. */
  function Values(core: seq<string>): nat -> int {
    (i: nat) => if i < |core| && Atoi(core[i]).Some? then Atoi(core[i]).value else 0
  }

  lemma ZeroParses()
    ensures Atoi("0") == Some(0)
  {
    assert DecimalValue("0") == 0 by {
      assert "0"[..0] == "";
    }
  }

  lemma NumericSegment(v: Version, i: nat)
    requires Numeric(v)
    ensures Atoi(Segment(v.core, i)) == Some(Values(v.core)(i))
  {
    ZeroParses();
  }

  ghost predicate SameAll(f: nat -> int, g: nat -> int) {
    forall i: nat :: f(i) == g(i)
  }

  ghost predicate DiffersFirst(f: nat -> int, g: nat -> int, i: nat) {
    f(i) != g(i) && forall j: nat :: j < i ==> f(j) == g(j)
  }

  /** f exceeds g at the first position where they differ. */
  ghost predicate Exceeds(f: nat -> int, g: nat -> int) {
    exists i: nat :: DiffersFirst(f, g, i) && f(i) > g(i)
  }

  lemma ExceedsOneWay(f: nat -> int, g: nat -> int, i: nat)
    requires DiffersFirst(f, g, i)
    ensures !SameAll(f, g) && (Exceeds(f, g) <==> f(i) > g(i)) && (Exceeds(g, f) <==> g(i) > f(i))
  {
    if k: nat :| DiffersFirst(f, g, k) && f(k) > g(k) { FirstIsUnique(f, g, i, k); }
    if k: nat :| DiffersFirst(g, f, k) && g(k) > f(k) { FirstIsUnique(f, g, i, k); }
    if g(i) > f(i) { assert DiffersFirst(g, f, i); }
  }

  lemma FirstIsUnique(f: nat -> int, g: nat -> int, i: nat, k: nat)
    requires DiffersFirst(f, g, i) && f(k) != g(k) && forall j: nat :: j < k ==> f(j) == g(j)
    ensures i == k
  {}

  lemma ExceedsTransitive(f: nat -> int, g: nat -> int, h: nat -> int)
    requires (Exceeds(f, g) && (Exceeds(g, h) || SameAll(g, h))) || (SameAll(f, g) && Exceeds(g, h))
    ensures Exceeds(f, h)
  {
    if SameAll(f, g) {
      var i: nat :| DiffersFirst(g, h, i) && g(i) > h(i);
      assert f(i) == g(i) && forall j: nat :: j < i ==> f(j) == g(j);
      assert DiffersFirst(f, h, i);
    } else {
      var i: nat :| DiffersFirst(f, g, i) && f(i) > g(i);
      if SameAll(g, h) {
        assert g(i) == h(i) && forall j: nat :: j < i ==> g(j) == h(j);
        assert DiffersFirst(f, h, i);
      } else {
        var k: nat :| DiffersFirst(g, h, k) && g(k) > h(k);
        var m: nat := if i < k then i else k;
        assert f(m) >= g(m) >= h(m);
        assert DiffersFirst(f, h, m);
      }
    }
  }

  /** c says how f and g compare at their first difference. */
  ghost predicate Classifies(c: int, f: nat -> int, g: nat -> int) {
    (c == 0 <==> SameAll(f, g)) && (c == 1 <==> Exceeds(f, g)) && (c == -1 <==> Exceeds(g, f))
  }

  lemma SegmentByValue(a: Version, b: Version, i: nat)
    requires Numeric(a) && Numeric(b)
    ensures var x, y := Values(a.core)(i), Values(b.core)(i);
            CompareSegments(Segment(a.core, i), Segment(b.core, i)) == Sign(x < y, x > y)
  {
    NumericSegment(a, i);
    NumericSegment(b, i);
  }

  lemma FirstDifferenceClassifies(f: nat -> int, g: nat -> int, i: nat)
    requires f(i) != g(i) && forall j: nat :: j < i ==> f(j) == g(j)
    ensures Classifies(Sign(f(i) < g(i), f(i) > g(i)), f, g)
  {
    ExceedsOneWay(f, g, i);
  }

  lemma SameClassifies(f: nat -> int, g: nat -> int)
    requires SameAll(f, g)
    ensures Classifies(0, f, g)
  {}

  ghost predicate AgreeBelow(f: nat -> int, g: nat -> int, i: nat) {
    forall j: nat :: j < i ==> f(j) == g(j)
  }

  ghost predicate AgreeFrom(f: nat -> int, g: nat -> int, n: nat) {
    forall j: nat :: j >= n ==> f(j) == g(j)
  }

  /** The comparison on the numbers alone, up to position n. */
  function CompareValues(f: nat -> int, g: nat -> int, i: nat, n: nat): int
    decreases n - i
  {
    if i >= n then 0
    else if f(i) != g(i) then Sign(f(i) < g(i), f(i) > g(i))
    else CompareValues(f, g, i + 1, n)
  }

  /** It finds the first difference, if there is one. */
  lemma {:induction false} ValuesClassify(f: nat -> int, g: nat -> int, i: nat, n: nat)
    requires AgreeBelow(f, g, i) && AgreeFrom(f, g, n)
    ensures Classifies(CompareValues(f, g, i, n), f, g)
    decreases n - i
  {
    if i >= n {
      assert SameAll(f, g);
      SameClassifies(f, g);
    } else if f(i) != g(i) {
      FirstDifferenceClassifies(f, g, i);
    } else {
      ValuesClassify(f, g, i + 1, n);
    }
  }

  lemma {:induction false} CoreIsValues(a: Version, b: Version, i: nat, n: nat)
    requires Numeric(a) && Numeric(b) && n == if |a.core| > |b.core| then |a.core| else |b.core|
    ensures CompareFrom(a.core, b.core, i) == CompareValues(Values(a.core), Values(b.core), i, n)
    decreases n - i
  {
    if i >= n {
    } else {
      SegmentByValue(a, b, i);
      CoreIsValues(a, b, i + 1, n);
    }
  }

  /** The core comparison finds the first difference of the zero-padded numbers. */
  lemma CoreByValue(a: Version, b: Version)
    requires Numeric(a) && Numeric(b)
    ensures Classifies(CompareFrom(a.core, b.core, 0), Values(a.core), Values(b.core))
  {
    var n := if |a.core| > |b.core| then |a.core| else |b.core|;
    CoreIsValues(a, b, 0, n);
    ZeroBeyond(a.core, b.core, n);
    ValuesClassify(Values(a.core), Values(b.core), 0, n);
  }

  lemma ZeroBeyond(a: seq<string>, b: seq<string>, n: nat)
    requires |a| <= n && |b| <= n
    ensures AgreeFrom(Values(a), Values(b), n)
  {
    forall j: nat | j >= n ensures Values(a)(j) == Values(b)(j) {
      assert Segment(a, j) == Segment(b, j);
    }
  }

  /** The order of Semantic Versioning on numeric cores: the first difference decides; then a
      release is above its prereleases. */
  ghost predicate Above(a: Version, b: Version) {
    || Exceeds(Values(a.core), Values(b.core))
    || (SameAll(Values(a.core), Values(b.core)) && PreAbove(a.pre, b.pre))
  }

  /** A release is above its prereleases; of two prereleases the greater text is. */
  ghost predicate PreAbove(a: string, b: string) {
    (a == "" && b != "") || (a != "" && b != "" && Less(b, a))
  }

  lemma PreByText(a: string, b: string)
    ensures ComparePre(a, b) > 0 <==> PreAbove(a, b)
    ensures ComparePre(a, b) < 0 <==> PreAbove(b, a)
    ensures ComparePre(a, b) == 0 <==> a == b
  {
    LessTrichotomy(a, b);
  }

  /** Segments that are not both integers compare as text. */
  lemma SegmentsByText(a: string, b: string)
    requires Atoi(a).None? || Atoi(b).None?
    ensures CompareSegments(a, b) > 0 <==> Less(b, a)
    ensures CompareSegments(a, b) == 0 <==> a == b
  {
    LessTrichotomy(a, b);
  }

  /** The code computes that order on every pair of numeric versions. */
  lemma CompareIsAbove(a: Version, b: Version)
    requires Numeric(a) && Numeric(b)
    ensures Compare(a, b) > 0 <==> Above(a, b)
    ensures Compare(a, b) == 0 <==> SameAll(Values(a.core), Values(b.core)) && a.pre == b.pre
  {
    CoreByValue(a, b);
    CoreRange(a.core, b.core, 0);
    PreByText(a.pre, b.pre);
  }

  lemma PreTransitive(a: string, b: string, c: string)
    requires ComparePre(a, b) >= 0 && ComparePre(b, c) >= 0
    ensures ComparePre(a, c) >= 0 && (ComparePre(a, b) > 0 || ComparePre(b, c) > 0 ==> ComparePre(a, c) > 0)
  {
    LessTrichotomy(a, b);
    LessTrichotomy(b, c);
    LessTrichotomy(a, c);
    if Less(b, a) && Less(c, b) { LessTransitive(c, b, a); }
  }

  lemma CoreTransitive(a: Version, b: Version, c: Version)
    requires Numeric(a) && Numeric(b) && Numeric(c)
    requires CompareFrom(a.core, b.core, 0) >= 0 && CompareFrom(b.core, c.core, 0) >= 0
    ensures CompareFrom(a.core, c.core, 0) ==
            if CompareFrom(a.core, b.core, 0) == 0 && CompareFrom(b.core, c.core, 0) == 0 then 0 else 1
  {
    var f, g, h := Values(a.core), Values(b.core), Values(c.core);
    CoreByValue(a, b);
    CoreByValue(b, c);
    CoreByValue(a, c);
    CoreRange(a.core, b.core, 0);
    CoreRange(b.core, c.core, 0);
    if SameAll(f, g) && SameAll(g, h) {
      forall i: nat ensures f(i) == h(i) { assert f(i) == g(i) && g(i) == h(i); }
    } else {
      ExceedsTransitive(f, g, h);
    }
  }

  lemma {:induction false} CoreRange(a: seq<string>, b: seq<string>, i: nat)
    ensures -1 <= CompareFrom(a, b, i) <= 1
    decreases |a| + |b| - i
  {
    if i >= |a| && i >= |b| {
    } else {
      CoreRange(a, b, i + 1);
    }
  }

  /** Not below, and strictly above if either step is strict. */
  lemma CompareTransitive(a: Version, b: Version, c: Version)
    requires Numeric(a) && Numeric(b) && Numeric(c) && Compare(a, b) >= 0 && Compare(b, c) >= 0
    ensures Compare(a, c) >= 0 && (Compare(a, b) > 0 || Compare(b, c) > 0 ==> Compare(a, c) > 0)
  {
    CoreTransitive(a, b, c);
    if CompareFrom(a.core, b.core, 0) == 0 && CompareFrom(b.core, c.core, 0) == 0 {
      PreTransitive(a.pre, b.pre, c.pre);
    }
  }

  /** On non-numeric cores the order is not transitive: 2 < 10 < 1a < 2. */
  lemma TextSegmentsCycle()
    ensures CompareSegments("10", "2") > 0 && CompareSegments("1a", "10") > 0 && CompareSegments("2", "1a") > 0
  {
    assert "10"[..1] == "1" && "10"[..1][..0] == "" && "2"[..0] == "";
    assert DecimalValue("1") == 1 && DecimalValue("10") == 10 && DecimalValue("2") == 2;
    assert !AllDigits("1a") by { assert !IsDigit("1a"[1]); }
    assert "10"[1..] == "0" && "1a"[1..] == "a";
    assert Less("0", "a");
    assert Less("10", "1a") && Less("1a", "2");
    LessTrichotomy("10", "1a");
    LessTrichotomy("1a", "2");
  }

  // ----- the text of a version ----------------------------------------------------------

  function Suffix(mark: string, part: Option<string>): string {
    match part case None => "" case Some(text) => mark + text
  }

  /** segments.joined.by.dots-prerelease+build, the last two optional. */
  function VersionText(parts: seq<string>, pre: Option<string>, build: Option<string>): string {
    Join(parts, ".") + Suffix("-", pre) + Suffix("+", build)
  }

  ghost predicate ProperParts(parts: seq<string>, pre: Option<string>) {
    && parts != [] && Without(parts, '.') && Without(parts, '-') && Without(parts, '+')
    && (pre.Some? ==> '+' !in pre.value)
  }

  lemma {:induction false} JoinWithout(parts: seq<string>, sep: char, c: char)
    requires Without(parts, c) && c != sep
    ensures c !in Join(parts, [sep])
  {
    if |parts| <= 1 {
    } else {
      JoinWithout(parts[1..], sep, c);
    }
  }

  lemma CutsAt(a: string, c: char, part: Option<string>)
    requires c !in a
    ensures IndexOf(a + Suffix([c], part), c) == |a|
    ensures (a + Suffix([c], part))[..|a|] == a
    ensures part.Some? ==> |a| < |a + Suffix([c], part)| && (a + Suffix([c], part))[|a| + 1..] == part.value
    ensures part.None? ==> |a + Suffix([c], part)| == |a|
  {
    match part
    case None =>
      assert a + "" == a;
      IndexAbsent(a, c);
    case Some(text) =>
      assert a + Suffix([c], part) == a + [c] + text;
      IndexAfter(a, c, text);
  }

  lemma BodySplits(parts: seq<string>, pre: Option<string>)
    requires ProperParts(parts, pre)
    ensures SplitBody(Join(parts, ".") + Suffix("-", pre)) == Version(parts, if pre.Some? then pre.value else "")
  {
    var core := Join(parts, ".");
    assert "." == ['.'] && "-" == ['-'];
    JoinWithout(parts, '.', '-');
    CutsAt(core, '-', pre);
    SplitOfJoin(parts, '.');
    if pre.None? {
      assert core + "" == core;
    }
  }

  lemma SplitsAsWritten(parts: seq<string>, pre: Option<string>, build: Option<string>)
    requires ProperParts(parts, pre) && VersionText(parts, pre, build) != ""
    ensures SplitTrimmed(VersionText(parts, pre, build)) == Version(parts, if pre.Some? then pre.value else "")
  {
    var body := Join(parts, ".") + Suffix("-", pre);
    assert "." == ['.'] && "+" == ['+'];
    JoinWithout(parts, '.', '+');
    assert '+' !in body;
    CutsAt(body, '+', build);
    BodySplits(parts, pre);
  }

  /** Whatever space surrounds it, with or without a leading v, a version splits into the segments and
      the prerelease it was written with; build metadata is dropped. */
  lemma SplitVersion(l: string, v: bool, parts: seq<string>, pre: Option<string>, build: Option<string>, r: string)
    requires AllSpace(l) && AllSpace(r) && ProperParts(parts, pre)
    requires var t := VersionText(parts, pre, build); t != "" && Trimmed(t) && (v || t[0] != 'v')
    ensures SplitSemver(l + ((if v then "v" else "") + VersionText(parts, pre, build)) + r) ==
            Version(parts, if pre.Some? then pre.value else "")
  {
    var t := VersionText(parts, pre, build);
    var s := (if v then "v" else "") + t;
    assert s[|s| - 1] == t[|t| - 1] && (!v ==> s == t) && (v ==> s[0] == 'v' && s[1..] == t);
    TrimSpaceOf(l, s, r);
    assert TrimV(s) == t;
    SplitsAsWritten(parts, pre, build);
  }

  // ----- watch checks and rollbacks ---------------------------------------------------

  type Bytes = string

  /** The files of the state directory and the target binary; `recorded` is every text the
      current-version file has held. */
  datatype Files = Files(current: Option<string>, binary: Option<Bytes>, previous: Option<Bytes>, recorded: seq<string>)

  /** The stage at which an upgrade or a rollback fails, if any. */
  datatype Failure = BeforeInstall | AtInstall | AfterInstall | AtRestart | Nowhere

  datatype Step =
    | Watch(tag: string, archive: Bytes, dryRun: bool, failure: Failure)
    | Rollback(dryRun: bool, failure: Failure)

  function ReadCurrent(f: Files): string {
    match f.current case None => "" case Some(text) => TrimSpace(text)
  }

  /** backupBinary: with nothing to back up, an old backup is removed. */
  function BackedUp(f: Files): Files {
    f.(previous := f.binary)
  }

  function Recorded(f: Files, version: string): Files {
    f.(current := Some("v" + version + "\n"), recorded := f.recorded + ["v" + version])
  }

  /** performUpgrade: the backup precedes the install, the version is recorded after it. */
  function Upgraded(f: Files, version: string, archive: Bytes, failure: Failure): Files {
    match failure
    case BeforeInstall => f
    case AtInstall => BackedUp(f)
    case AfterInstall => BackedUp(f).(binary := Some(archive))
    case AtRestart | Nowhere => Recorded(BackedUp(f).(binary := Some(archive)), version)
  }

  function RolledBack(f: Files, failure: Failure): Files {
    if f.previous.None? then f
    else match failure
         case BeforeInstall => f
         case AtInstall => f
         case AfterInstall => f.(binary := f.previous)
         case AtRestart | Nowhere => f.(binary := f.previous, previous := f.binary)
  }

  function Apply(f: Files, step: Step): Files {
    match step
    case Watch(tag, archive, dryRun, failure) =>
      var latest := TrimV(tag);
      if !SemverGreater(latest, ReadCurrent(f)) || dryRun then f else Upgraded(f, latest, archive, failure)
    case Rollback(dryRun, failure) => if dryRun then f else RolledBack(f, failure)
  }

  function Exec(f: Files, steps: seq<Step>): Files {
    if steps == [] then f else Apply(Exec(f, steps[..|steps| - 1]), steps[|steps| - 1])
  }

  /** runDeployWatchOnce and runDeployRollback on the files themselves. */
  class Deployment {
    var current: Option<string>
    var binary: Option<Bytes>
    var previous: Option<Bytes>
    ghost var recorded: seq<string>

    ghost function State(): Files
      reads this
    {
      Files(current, binary, previous, recorded)
    }

    constructor (binary: Option<Bytes>)
      ensures State() == Files(None, binary, None, [])
    {
      this.binary := binary;
      current, previous, recorded := None, None, [];
    }

    method WatchOnce(tag: string, archive: Bytes, dryRun: bool, failure: Failure) returns (ok: bool)
      modifies this
      ensures State() == Apply(old(State()), Watch(tag, archive, dryRun, failure))
      ensures ok <==> !SemverGreater(TrimV(tag), ReadCurrent(old(State()))) || dryRun || failure == Nowhere
    {
      var installed := if current.Some? then TrimSpace(current.value) else "";
      var latest := TrimV(tag);
      var greater := true;
      if TrimSpace(installed) != "" {
        var c := CompareSemver(latest, installed);
        greater := c > 0;
      }
      if !greater || dryRun {
        return true;
      }
      if failure == BeforeInstall {
        return false;
      }
      previous := binary;
      if failure == AtInstall {
        return false;
      }
      binary := Some(archive);
      if failure == AfterInstall {
        return false;
      }
      current := Some("v" + latest + "\n");
      recorded := recorded + ["v" + latest];
      return failure != AtRestart;
    }

    method RollbackOnce(dryRun: bool, failure: Failure) returns (ok: bool)
      modifies this
      ensures State() == Apply(old(State()), Rollback(dryRun, failure))
      ensures ok <==> old(previous).Some? && (dryRun || failure == Nowhere)
    {
      if previous.None? {
        return false;
      }
      if dryRun {
        return true;
      }
      if failure == BeforeInstall || failure == AtInstall {
        return false;
      }
      var stash := binary;
      binary := previous;
      if failure == AfterInstall {
        return false;
      }
      previous := stash;
      return failure != AtRestart;
    }
  }

  // ----- recorded versions ------------------------------------------------------------

  /** A release name that neither starts with a second v nor with white space. */
  predicate Clean(version: string) {
    version == "" || (version[0] != 'v' && !IsSpace(version[0]))
  }

  lemma {:induction false} TrimRightAfter(c: char, s: string)
    requires !IsSpace(c)
    ensures TrimRight([c] + s) == [c] + TrimRight(s)
  {
    if s == [] || !IsSpace(s[|s| - 1]) {
    } else {
      TrimRightAfter(c, s[..|s| - 1]);
      assert ([c] + s)[..|s|] == [c] + s[..|s| - 1];
    }
  }

  lemma {:induction false} TrimRightNewline(s: string)
    ensures TrimRight(s + "\n") == TrimRight(s)
  {
    assert (s + "\n")[..|s|] == s;
    assert IsSpace('\n');
  }

  /** What is recorded reads back as the version that was installed. */
  lemma RecordedReadsBack(version: string)
    requires Clean(version)
    ensures TrimSpace("v" + version + "\n") == "v" + TrimRight(version)
    ensures SplitSemver("v" + version) == SplitSemver(version) == SplitSemver(TrimSpace("v" + version + "\n"))
  {
    VersionTrims(version);
    TrimSpaceIdempotent("v" + version + "\n");
  }

  lemma VersionTrims(version: string)
    requires Clean(version)
    ensures TrimSpace("v" + version + "\n") == TrimSpace("v" + version) == "v" + TrimRight(version)
    ensures TrimV(TrimSpace("v" + version)) == TrimRight(version) == TrimV(TrimSpace(version))
  {
    var s := "v" + version;
    assert TrimLeft(s + "\n") == s + "\n" && TrimLeft(s) == s && TrimLeft(version) == version;
    TrimRightNewline(s);
    TrimRightAfter('v', version);
    assert s == ['v'] + version;
  }

  /** The current-version file holds the last recorded version, newline and all. */
  ghost predicate FileOk(f: Files) {
    if f.recorded == [] then f.current.None?
    else f.current == Some(f.recorded[|f.recorded| - 1] + "\n")
  }

  ghost predicate GoodRecord(r: string) {
    r != "" && r[0] == 'v' && Clean(r[1..]) && Numeric(SplitSemver(r))
  }

  ghost predicate Higher(a: string, b: string) {
    Compare(SplitSemver(a), SplitSemver(b)) > 0
  }

  /** Later records are strictly above earlier ones. */
  ghost predicate Increasing(recorded: seq<string>) {
    && (forall i {:trigger GoodRecord(recorded[i])} :: 0 <= i < |recorded| ==> GoodRecord(recorded[i]))
    && forall i, j {:trigger Higher(recorded[j], recorded[i])} :: 0 <= i < j < |recorded| ==>
      Higher(recorded[j], recorded[i])
  }

  lemma HigherTransitive(a: string, b: string, c: string)
    requires GoodRecord(a) && GoodRecord(b) && GoodRecord(c) && Higher(a, b) && Higher(b, c)
    ensures Higher(a, c)
  {
    CompareTransitive(SplitSemver(a), SplitSemver(b), SplitSemver(c));
  }

  ghost predicate GoodStep(step: Step) {
    step.Watch? ==> Clean(TrimV(step.tag)) && Numeric(SplitSemver(TrimV(step.tag)))
  }

  lemma HigherThanAll(recorded: seq<string>, r: string, i: nat)
    requires Increasing(recorded) && GoodRecord(r) && i < |recorded| && Higher(r, recorded[|recorded| - 1])
    ensures Higher(r, recorded[i])
  {
    var mid, last := recorded[i], recorded[|recorded| - 1];
    if i < |recorded| - 1 {
      assert GoodRecord(recorded[i]) && GoodRecord(recorded[|recorded| - 1]);
      assert Higher(recorded[|recorded| - 1], recorded[i]);
      HigherTransitive(r, last, mid);
    }
  }

  lemma AppendRecord(recorded: seq<string>, r: string)
    requires Increasing(recorded) && GoodRecord(r)
    requires recorded != [] ==> Higher(r, recorded[|recorded| - 1])
    ensures Increasing(recorded + [r])
  {
    var all := recorded + [r];
    forall i | 0 <= i < |all| ensures GoodRecord(all[i]) {
      if i < |recorded| { assert GoodRecord(recorded[i]); }
    }
    forall i, j | 0 <= i < j < |all| ensures Higher(all[j], all[i]) {
      if j < |recorded| { assert Higher(recorded[j], recorded[i]); } else { HigherThanAll(recorded, r, i); }
    }
  }

  lemma GreaterThanLast(f: Files, version: string)
    requires FileOk(f) && Increasing(f.recorded) && f.recorded != [] && SemverGreater(version, ReadCurrent(f))
    requires Clean(version)
    ensures Higher("v" + version, f.recorded[|f.recorded| - 1])
  {
    RecordedReadsBack(version);
    var last := f.recorded[|f.recorded| - 1];
    assert GoodRecord(f.recorded[|f.recorded| - 1]);
    assert last == "v" + last[1..];
    RecordedReadsBack(last[1..]);
    TrimSpaceIdempotent(last + "\n");
  }

  lemma StepKeepsOrder(f: Files, step: Step)
    requires FileOk(f) && Increasing(f.recorded) && GoodStep(step)
    ensures FileOk(Apply(f, step)) && Increasing(Apply(f, step).recorded)
  {
    match step
    case Watch(tag, archive, dryRun, failure) =>
      if !dryRun && SemverGreater(TrimV(tag), ReadCurrent(f)) && (failure == Nowhere || failure == AtRestart) {
        RecordKeepsOrder(f, TrimV(tag));
      } else {
        assert Apply(f, step).recorded == f.recorded && Apply(f, step).current == f.current;
      }
    case Rollback(_, _) =>
      assert Apply(f, step).recorded == f.recorded && Apply(f, step).current == f.current;
  }

  lemma CleanIsGood(version: string)
    requires Clean(version) && Numeric(SplitSemver(version))
    ensures GoodRecord("v" + version)
  {
    RecordedReadsBack(version);
    assert ("v" + version)[1..] == version;
  }

  lemma RecordKeepsOrder(f: Files, version: string)
    requires FileOk(f) && Increasing(f.recorded) && Clean(version) && Numeric(SplitSemver(version))
    requires SemverGreater(version, ReadCurrent(f))
    ensures Increasing(f.recorded + ["v" + version])
  {
    CleanIsGood(version);
    AboveLast(f, version);
    AppendRecord(f.recorded, "v" + version);
  }

  lemma AboveLast(f: Files, version: string)
    requires FileOk(f) && Increasing(f.recorded) && Clean(version) && SemverGreater(version, ReadCurrent(f))
    ensures f.recorded != [] ==> Higher("v" + version, f.recorded[|f.recorded| - 1])
  {
    if f.recorded != [] {
      GreaterThanLast(f, version);
    }
  }

  /** Over any run of watch checks interleaved with rollbacks the recorded versions strictly
      increase, so no version is ever recorded twice. */
  lemma {:induction false} RecordsIncrease(f: Files, steps: seq<Step>)
    requires f.current.None? && f.recorded == []
    requires forall i :: 0 <= i < |steps| ==> GoodStep(steps[i])
    ensures FileOk(Exec(f, steps)) && Increasing(Exec(f, steps).recorded)
  {
    if steps == [] {
    } else {
      RecordsIncrease(f, steps[..|steps| - 1]);
      StepKeepsOrder(Exec(f, steps[..|steps| - 1]), steps[|steps| - 1]);
    }
  }

  lemma NeverRecordedTwice(f: Files, steps: seq<Step>, i: nat, j: nat)
    requires f.current.None? && f.recorded == [] && forall k :: 0 <= k < |steps| ==> GoodStep(steps[k])
    requires i < j < |Exec(f, steps).recorded|
    ensures Exec(f, steps).recorded[i] != Exec(f, steps).recorded[j]
  {
    RecordsIncrease(f, steps);
    var r := Exec(f, steps).recorded;
    assert Higher(r[j], r[i]);
    CompareAntisymmetric(SplitSemver(r[i]), SplitSemver(r[i]));
  }

  /** A release name that is a single core segment. */
  predicate Word(s: string) {
    s != "" && Clean(s) && !HasSpace(s) && '+' !in s && '-' !in s && '.' !in s
  }

  lemma WordSplits(s: string)
    requires Word(s)
    ensures TrimV(s) == s && SplitSemver(s) == Version([s], "")
  {
    TrimSpaceOfSolid(s);
    assert IndexOf(s, '+') == |s| && s[..|s|] == s;
    assert IndexOf(s, '-') == |s| && IndexOf(s, '.') == |s|;
  }

  // ----- when a version is recorded twice ----------------------------------------------

  /** With release a recorded, a watch check that sees b installs it. */
  predicate Replaces(b: string, a: string) {
    SemverGreater(b, TrimSpace("v" + a + "\n"))
  }

  /** For clean names that is the version order. */
  lemma CleanReplaces(b: string, a: string)
    requires Clean(a)
    ensures Replaces(b, a) <==> Compare(SplitSemver(b), SplitSemver(a)) > 0
  {
    RecordedReadsBack(a);
    TrimSpaceIdempotent("v" + a + "\n");
  }

  /** The same on tags. */
  function Newer(): (string, string) -> bool {
    (b, a) => Replaces(TrimV(b), TrimV(a))
  }

  ghost predicate Link(c: seq<string>, newer: (string, string) -> bool, k: int) {
    0 <= k < |c| - 1 ==> newer(c[k + 1], c[k])
  }

  ghost predicate Chain(c: seq<string>, newer: (string, string) -> bool) {
    forall k {:trigger Link(c, newer, k)} :: Link(c, newer, k)
  }

  lemma ChainSnoc(c: seq<string>, tag: string, newer: (string, string) -> bool)
    requires Chain(c, newer) && (c != [] ==> newer(tag, c[|c| - 1]))
    ensures Chain(c + [tag], newer)
  {
    forall k ensures Link(c + [tag], newer, k) {
      assert Link(c, newer, k);
    }
  }

  lemma ChainPart(c: seq<string>, i: nat, j: nat, newer: (string, string) -> bool)
    requires Chain(c, newer) && i <= j <= |c|
    ensures Chain(c[i..j], newer)
  {
    forall k ensures Link(c[i..j], newer, k) {
      assert Link(c, newer, i + k);
    }
  }

  ghost predicate CircleBy(tags: set<string>, c: seq<string>, newer: (string, string) -> bool) {
    |c| >= 2 && Within(c, tags) && TrimV(c[0]) == TrimV(c[|c| - 1]) && Chain(c, newer)
  }

  /** Tags whose releases replace one another in a circle. */
  ghost predicate Circle(tags: set<string>, c: seq<string>) {
    CircleBy(tags, c, Newer())
  }

  ghost predicate Over(steps: seq<Step>, tags: set<string>) {
    forall i :: 0 <= i < |steps| && steps[i].Watch? ==> steps[i].tag in tags
  }

  ghost predicate Repeats(recorded: seq<string>) {
    exists i, j :: 0 <= i < j < |recorded| && recorded[i] == recorded[j]
  }

  /** The step completes the installation of its release. */
  predicate Installs(f: Files, step: Step) {
    && step.Watch? && !step.dryRun && (step.failure == Nowhere || step.failure == AtRestart)
    && SemverGreater(TrimV(step.tag), ReadCurrent(f))
  }

  /** The tags a run installed, oldest first. */
  function Installed(f: Files, steps: seq<Step>): seq<string> {
    if steps == [] then []
    else
      var init, last := steps[..|steps| - 1], steps[|steps| - 1];
      Installed(f, init) + if Installs(Exec(f, init), last) then [last.tag] else []
  }

  /** The version file and its history tell of exactly the tags in `names`. */
  ghost predicate Records(f: Files, names: seq<string>) {
    && |f.recorded| == |names|
    && (forall i :: 0 <= i < |names| ==> f.recorded[i] == "v" + TrimV(names[i]))
    && f.current == if names == [] then None else Some("v" + TrimV(names[|names| - 1]) + "\n")
  }

  lemma RecordsStep(f: Files, step: Step, names: seq<string>)
    requires Records(f, names) && Chain(names, Newer())
    ensures var after := if Installs(f, step) then names + [step.tag] else names;
            Records(Apply(f, step), after) && Chain(after, Newer())
  {
    if Installs(f, step) {
      ChainSnoc(names, step.tag, Newer());
      InstallRecords(f, step, names);
    } else {
      QuietStep(f, step);
    }
  }

  lemma QuietStep(f: Files, step: Step)
    requires !Installs(f, step)
    ensures Apply(f, step).recorded == f.recorded && Apply(f, step).current == f.current
  {}

  lemma InstallRecords(f: Files, step: Step, names: seq<string>)
    requires Records(f, names) && Installs(f, step)
    ensures Records(Apply(f, step), names + [step.tag])
  {
    var r := Apply(f, step);
    assert r.recorded == f.recorded + ["v" + TrimV(step.tag)] && r.current == Some("v" + TrimV(step.tag) + "\n");
  }

  lemma {:induction false} RunRecords(f: Files, steps: seq<Step>)
    requires f.current.None? && f.recorded == []
    ensures Records(Exec(f, steps), Installed(f, steps)) && Chain(Installed(f, steps), Newer())
  {
    if steps == [] {
    } else {
      var init, last := steps[..|steps| - 1], steps[|steps| - 1];
      RunRecords(f, init);
      RecordsStep(Exec(f, init), last, Installed(f, init));
      assert Installed(f, init) + [] == Installed(f, init);
    }
  }

  ghost predicate Within(names: seq<string>, tags: set<string>) {
    forall i :: 0 <= i < |names| ==> names[i] in tags
  }

  lemma {:induction false} InstalledWithin(f: Files, steps: seq<Step>, tags: set<string>)
    requires Over(steps, tags)
    ensures Within(Installed(f, steps), tags)
  {
    if steps == [] {
    } else {
      InstalledWithin(f, steps[..|steps| - 1], tags);
    }
  }

  lemma CircleCut(names: seq<string>, tags: set<string>, i: nat, j: nat, newer: (string, string) -> bool)
    requires Chain(names, newer) && Within(names, tags) && i < j < |names| && TrimV(names[i]) == TrimV(names[j])
    ensures CircleBy(tags, names[i..j + 1], newer)
  {
    ChainPart(names, i, j + 1, newer);
    assert names[i..j + 1][0] == names[i] && names[i..j + 1][j - i] == names[j];
  }

  lemma RepeatedPair(f: Files, names: seq<string>) returns (i: nat, j: nat)
    requires Records(f, names) && Repeats(f.recorded)
    ensures i < j < |names| && TrimV(names[i]) == TrimV(names[j])
  {
    i, j :| 0 <= i < j < |f.recorded| && f.recorded[i] == f.recorded[j];
    RecordsName(f, names, i, j);
  }

  lemma RepeatGivesCircle(f: Files, steps: seq<Step>, tags: set<string>) returns (c: seq<string>)
    requires f.current.None? && f.recorded == [] && Over(steps, tags) && Repeats(Exec(f, steps).recorded)
    ensures Circle(tags, c)
  {
    RunRecords(f, steps);
    InstalledWithin(f, steps, tags);
    var i, j := RepeatedPair(Exec(f, steps), Installed(f, steps));
    CircleCut(Installed(f, steps), tags, i, j, Newer());
    c := Installed(f, steps)[i..j + 1];
  }

  lemma RecordsName(f: Files, names: seq<string>, i: nat, j: nat)
    requires Records(f, names) && i < |names| && j < |names|
    ensures f.recorded[i] == f.recorded[j] <==> TrimV(names[i]) == TrimV(names[j])
  {
    assert TrimV(names[i]) == ("v" + TrimV(names[i]))[1..] && TrimV(names[j]) == ("v" + TrimV(names[j]))[1..];
  }

  /** A run of watch checks, one release after the other. */
  function WatchAll(names: seq<string>): seq<Step> {
    seq(|names|, i requires 0 <= i < |names| => Watch(names[i], "", false, Nowhere))
  }

  lemma WatchAllSplit(names: seq<string>)
    requires names != []
    ensures WatchAll(names) != [] && WatchAll(names)[..|WatchAll(names)| - 1] == WatchAll(names[..|names| - 1])
    ensures WatchAll(names)[|WatchAll(names)| - 1] == Watch(names[|names| - 1], "", false, Nowhere)
  {}

  lemma ExecWatch(f: Files, names: seq<string>)
    requires names != []
    ensures Exec(f, WatchAll(names)) ==
            Apply(Exec(f, WatchAll(names[..|names| - 1])), Watch(names[|names| - 1], "", false, Nowhere))
  {
    WatchAllSplit(names);
  }

  lemma ChainSplit(names: seq<string>, newer: (string, string) -> bool)
    requires Chain(names, newer) && names != []
    ensures Chain(names[..|names| - 1], newer)
    ensures |names| > 1 ==> newer(names[|names| - 1], names[..|names| - 1][|names| - 2])
  {
    ChainPart(names, 0, |names| - 1, newer);
    assert Link(names, newer, |names| - 2);
  }

  lemma LastIsInstalled(f: Files, names: seq<string>)
    requires names != [] && Records(Exec(f, WatchAll(names[..|names| - 1])), names[..|names| - 1])
    requires |names| > 1 ==> Newer()(names[|names| - 1], names[..|names| - 1][|names| - 2])
    ensures Records(Exec(f, WatchAll(names)), names)
  {
    ExecWatch(f, names);
    NextIsInstalled(Exec(f, WatchAll(names[..|names| - 1])), names[..|names| - 1], names[|names| - 1]);
    assert names[..|names| - 1] + [names[|names| - 1]] == names;
  }

  lemma {:induction false} ChainIsInstalled(f: Files, names: seq<string>)
    requires f.current.None? && f.recorded == [] && Chain(names, Newer())
    ensures Records(Exec(f, WatchAll(names)), names)
  {
    if names == [] {
    } else {
      ChainSplit(names, Newer());
      ChainIsInstalled(f, names[..|names| - 1]);
      LastIsInstalled(f, names);
    }
  }

  lemma NextIsInstalled(f: Files, names: seq<string>, tag: string)
    requires Records(f, names) && (names != [] ==> Newer()(tag, names[|names| - 1]))
    ensures Records(Apply(f, Watch(tag, "", false, Nowhere)), names + [tag])
  {
    InstallRecords(f, Watch(tag, "", false, Nowhere), names);
  }

  /** Whatever the tags look like: some run of watch checks, failures and rollbacks over them records
      a version twice exactly when releases among them replace one another in a circle. */
  lemma RepeatIffCircle(f: Files, tags: set<string>)
    requires f.current.None? && f.recorded == []
    ensures (exists steps :: Over(steps, tags) && Repeats(Exec(f, steps).recorded)) <==> (exists c :: Circle(tags, c))
  {
    if steps :| Over(steps, tags) && Repeats(Exec(f, steps).recorded) {
      var c := RepeatGivesCircle(f, steps, tags);
    }
    if c :| Circle(tags, c) {
      ChainIsInstalled(f, c);
      RecordsName(Exec(f, WatchAll(c)), c, 0, |c| - 1);
      assert Over(WatchAll(c), tags) && Repeats(Exec(f, WatchAll(c)).recorded);
    }
  }

  lemma WordReplaces(b: string, a: string)
    requires Word(b) && Word(a) && CompareSegments(b, a) > 0
    ensures TrimV(b) == b && TrimV(a) == a && Replaces(b, a)
  {
    WordSplits(b);
    WordSplits(a);
    CleanReplaces(b, a);
    assert CompareFrom([b], [a], 0) == CompareSegments(b, a);
  }

  /** The releases 2, 10 and 1a are such a circle. */
  lemma TwoTenOneARepeat(f: Files)
    requires f.current.None? && f.recorded == []
    ensures exists steps :: Over(steps, {"2", "10", "1a"}) && Repeats(Exec(f, steps).recorded)
  {
    TextSegmentsCycle();
    ShortWords();
    CircleOfThree("2", "10", "1a");
    RepeatIffCircle(f, {"2", "10", "1a"});
  }

  lemma ShortWords()
    ensures Word("2") && Word("10") && Word("1a")
  {}

  lemma CircleOfThree(a: string, b: string, c: string)
    requires Word(a) && Word(b) && Word(c)
    requires CompareSegments(b, a) > 0 && CompareSegments(c, b) > 0 && CompareSegments(a, c) > 0
    ensures Circle({a, b, c}, [a, b, c, a])
  {
    WordReplaces(b, a);
    WordReplaces(c, b);
    WordReplaces(a, c);
    var round := [a, b, c, a];
    assert Link(round, Newer(), 0) && Link(round, Newer(), 1) && Link(round, Newer(), 2);
    forall k ensures Link(round, Newer(), k) {
      assert k in {0, 1, 2} || !(0 <= k < 3);
    }
  }

  // ----- rollback -----------------------------------------------------------------------

  /** A second rollback undoes the first exactly when there was a binary to put aside. */
  lemma RollbackTogglesIff(f: Files)
    requires f.previous.Some?
    ensures Apply(Apply(f, Rollback(false, Nowhere)), Rollback(false, Nowhere)) == f <==> f.binary.Some?
  {}

  /** Rolling back a completed upgrade restores the replaced binary and leaves the recorded version
      alone, which is why the next watch check does not install the same release again. */
  lemma RollbackUndoesUpgrade(f: Files, version: string, archive: Bytes)
    requires f.binary.Some?
    ensures var up := Upgraded(f, version, archive, Nowhere);
            var back := Apply(up, Rollback(false, Nowhere));
            back.binary == f.binary && back.previous == Some(archive) && back.current == up.current
  {}

  lemma SameReleaseNotReinstalled(f: Files, tag: string, archive: Bytes, dryRun: bool, failure: Failure, again: Step)
    requires Clean(TrimV(tag)) && again == Watch(tag, archive, dryRun, failure)
    ensures var up := Upgraded(f, TrimV(tag), archive, Nowhere);
            var back := Apply(up, Rollback(false, Nowhere));
            Apply(back, again) == back
  {
    var version := TrimV(tag);
    RecordedReadsBack(version);
    TrimSpaceIdempotent("v" + version + "\n");
    CompareAntisymmetric(SplitSemver(version), SplitSemver(version));
  }

  // ----- failures -----------------------------------------------------------------------

  /** A check that goes for an upgrade and fails leaves the binary as it was exactly when it failed
      before or at the install, or had the same bytes to install. */
  lemma FailureKeepsBinaryIff(f: Files, tag: string, archive: Bytes, failure: Failure)
    requires SemverGreater(TrimV(tag), ReadCurrent(f)) && failure != Nowhere
    ensures Apply(f, Watch(tag, archive, false, failure)).binary == f.binary <==>
            failure in {BeforeInstall, AtInstall} || f.binary == Some(archive)
  {}

  /** What else a failed upgrade leaves: from the install on, a backup of the binary it found; and the
      new version recorded only if nothing but the restart failed. */
  lemma FailureLeaves(f: Files, tag: string, archive: Bytes, failure: Failure)
    requires SemverGreater(TrimV(tag), ReadCurrent(f)) && failure != Nowhere
    ensures var r := Apply(f, Watch(tag, archive, false, failure));
            && r.previous == (if failure == BeforeInstall then f.previous else f.binary)
            && (failure != AtRestart ==> r.current == f.current && r.recorded == f.recorded)
            && (failure == AtRestart ==>
                  r.current == Some("v" + TrimV(tag) + "\n") && r.recorded == f.recorded + ["v" + TrimV(tag)])
  {}

  /** What a failed rollback leaves: past the install the old binary is in place, and only when it comes
      to the restart has the replaced one been put aside. It never touches the recorded version. */
  lemma RollbackFailureLeaves(f: Files, failure: Failure)
    requires f.previous.Some?
    ensures var r := Apply(f, Rollback(false, failure));
            && r.binary == (if failure == BeforeInstall || failure == AtInstall then f.binary else f.previous)
            && r.previous == (if failure == AtRestart || failure == Nowhere then f.binary else f.previous)
            && r.current == f.current && r.recorded == f.recorded
  {}

  /** Dry runs, checks that see nothing newer, and rollbacks without a backup change nothing. */
  lemma NothingToDo(f: Files, tag: string, archive: Bytes, failure: Failure)
    ensures Apply(f, Watch(tag, archive, true, failure)) == f && Apply(f, Rollback(true, failure)) == f
    ensures !SemverGreater(TrimV(tag), ReadCurrent(f)) ==> Apply(f, Watch(tag, archive, false, failure)) == f
    ensures f.previous.None? ==> Apply(f, Rollback(false, failure)) == f
  {}

  /** A watch check. */
  datatype Try = Try(tag: string, archive: Bytes, dryRun: bool, failure: Failure)

  function TryOnce(f: Files, t: Try): Files {
    Apply(f, Watch(t.tag, t.archive, t.dryRun, t.failure))
  }

  function TryAll(f: Files, tries: seq<Try>): Files {
    if tries == [] then f else TryOnce(TryAll(f, tries[..|tries| - 1]), tries[|tries| - 1])
  }

  /** The check goes for an upgrade and gets past the install. */
  predicate Lands(f: Files, t: Try) {
    && SemverGreater(TrimV(t.tag), ReadCurrent(f)) && !t.dryRun
    && (t.failure == AfterInstall || t.failure == AtRestart || t.failure == Nowhere)
  }

  /** The archive that the last landing check installed, if one landed. */
  function LastLanded(f: Files, tries: seq<Try>): Option<Bytes> {
    if tries == [] then None
    else
      var init, last := tries[..|tries| - 1], tries[|tries| - 1];
      if Lands(TryAll(f, init), last) then Some(last.archive) else LastLanded(f, init)
  }

  lemma LandingStep(f: Files, t: Try)
    ensures TryOnce(f, t).binary == if Lands(f, t) then Some(t.archive) else f.binary
    ensures Lands(f, t) ==> TryOnce(f, t).previous == f.binary
  {}

  lemma {:induction false} BinaryIsLastLanded(f: Files, tries: seq<Try>)
    ensures TryAll(f, tries).binary == if LastLanded(f, tries).Some? then LastLanded(f, tries) else f.binary
  {
    if tries == [] {
    } else {
      BinaryIsLastLanded(f, tries[..|tries| - 1]);
      LandingStep(TryAll(f, tries[..|tries| - 1]), tries[|tries| - 1]);
    }
  }

  /** After any watch checks, failed or not, and one more that lands, a rollback brings back the binary
      of before them all exactly if none of the earlier ones landed, or the last that did had those
      very bytes. */
  lemma RollbackRestoresIff(f: Files, tries: seq<Try>, t: Try)
    requires f.binary.Some? && Lands(TryAll(f, tries), t)
    ensures var back := Apply(TryOnce(TryAll(f, tries), t), Rollback(false, Nowhere));
            back.binary == f.binary <==> LastLanded(f, tries).None? || LastLanded(f, tries) == f.binary
  {
    BinaryIsLastLanded(f, tries);
    LandingStep(TryAll(f, tries), t);
  }
}
