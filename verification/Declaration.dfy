/** depends_on entries: parsing one reference, de-duplicating and ordering a block. */
module Declaration {
  import opened Text
  import opened Sorting

  datatype Status = Active | CrossRepo | Invalid

  datatype Dependency = Dependency(raw: string, repo: string, issue: nat, status: Status, normalized: string,
                                   reason: string)

  predicate SlugChar(c: char) {
    'a' <= c <= 'z' || 'A' <= c <= 'Z' || '0' <= c <= '9' || c == '_' || c == '.' || c == '-'
  }

  /** The characters of an owner or a name, by code: digits, letters, dash, dot and underscore. */
  lemma SlugCharsAre(c: char)
    ensures SlugChar(c) <==> var k := c as int;
            48 <= k <= 57 || 65 <= k <= 90 || 97 <= k <= 122 || k == 45 || k == 46 || k == 95
  {}

  predicate IsSlugPart(s: string) {
    s != [] && forall i :: 0 <= i < |s| ==> SlugChar(s[i])
  }

  /** owner/name as the reference grammar accepts it. */
  predicate IsSlug(s: string) {
    var i := IndexOf(s, '/');
    i < |s| && IsSlugPart(s[..i]) && IsSlugPart(s[i + 1..])
  }

  /** [1-9][0-9]* */
  predicate IsIssueNumber(s: string) {
    s != [] && AllDigits(s) && s[0] != '0'
  }

  function StripMatchingQuotes(s: string): string {
    if |s| < 2 then s
    else if s[0] == '"' && s[|s| - 1] == '"' then s[1..|s| - 1]
    else if s[0] == '\'' && s[|s| - 1] == '\'' then s[1..|s| - 1]
    else s
  }

  /** Escaped quotes become plain ones. */
  function Unescaped(s: string): string {
    ReplaceAll(ReplaceAll(s, "\\\"", "\""), "\\'", "'")
  }

  function Canonical(raw: string): string {
    TrimSpace(StripMatchingQuotes(Unescaped(TrimSpace(raw))))
  }

  function Reference(repo: string, issue: nat): string {
    repo + "#" + Decimal(issue)
  }

  /** What a parsed entry can look like. */
  ghost predicate WellFormed(repo: string, d: Dependency) {
    && (d.status == Active ==> d.repo == repo && d.issue > 0)
    && (d.status == CrossRepo ==> d.repo != repo && d.issue > 0 && IsSlug(d.repo))
    && (d.status == Invalid ==> d.repo == "" && d.issue == 0)
    && (d.status != Invalid ==> d.reason == "")
    && (d.normalized == if d.repo != "" && d.issue > 0 then Reference(d.repo, d.issue) else "")
    && d.issue <= MAX_INT64
  }

  function Rejected(repo: string, raw: string, reason: string): (d: Dependency)
    ensures WellFormed(repo, d)
  {
    Dependency(raw, "", 0, Invalid, "", reason)
  }

  /** Sscanf rejects a number beyond the range of int. */
  function Accepted(repo: string, raw: string, target: string, digits: string, tooBig: string): (d: Dependency)
    requires AllDigits(digits) && (target == repo || IsSlug(target))
    ensures WellFormed(repo, d)
  {
    var n := DecimalValue(digits);
    if n > MAX_INT64 || n <= 0 then Rejected(repo, raw, tooBig)
    else Dependency(raw, target, n, if target == repo then Active else CrossRepo,
                    if target == "" then "" else Reference(target, n), "")
  }

  /** The two reference forms, #n and owner/name#n. */
  function ParseReference(repo: string, raw: string, c: string): (d: Dependency)
    ensures WellFormed(repo, d)
  {
    var h := IndexOf(c, '#');
    if h == |c| || !IsIssueNumber(c[h + 1..]) then Rejected(repo, raw, "invalid_format")
    else if h == 0 then Accepted(repo, raw, repo, c[1..], "invalid_issue_number")
    else if IsSlug(c[..h]) then Accepted(repo, raw, c[..h], c[h + 1..], "invalid_repo_issue")
    else Rejected(repo, raw, "invalid_format")
  }

  function NormalizeDependency(repo: string, entry: string): (d: Dependency)
    ensures WellFormed(repo, d)
  {
    ParseReference(repo, TrimSpace(entry), Canonical(TrimSpace(entry)))
  }

  // ----- a reference determines its repository and number --------------------------

  lemma HashPosition(repo: string, issue: nat)
    ensures Reference(repo, issue)[|repo|] == '#'
    ensures forall i :: |repo| < i < |Reference(repo, issue)| ==> IsDigit(Reference(repo, issue)[i])
  {}

  lemma ReferenceInjective(a: string, m: nat, b: string, n: nat)
    requires Reference(a, m) == Reference(b, n)
    ensures a == b && m == n
  {
    HashPosition(a, m);
    HashPosition(b, n);
    assert |a| == |b|;
    assert a == Reference(a, m)[..|a|] && b == Reference(b, n)[..|b|];
    assert Decimal(m) == Reference(a, m)[|a| + 1..] && Decimal(n) == Reference(b, n)[|b| + 1..];
    DecimalRoundTrip(m);
    DecimalRoundTrip(n);
  }

  predicate Plain(s: string) {
    forall i :: 0 <= i < |s| ==> SlugChar(s[i]) || s[i] == '/' || s[i] == '#'
  }

  lemma CanonicalOfPlain(s: string)
    requires Plain(s)
    ensures Canonical(s) == s && TrimSpace(s) == s
  {
    TrimSpaceOfSolid(s);
    ReplaceAbsent(s, "\\\"", "\"");
    ReplaceAbsent(s, "\\'", "'");
  }

  lemma SlugHasNoHash(s: string)
    requires IsSlug(s)
    ensures Plain(s) && '#' !in s && s != []
  {
    var i := IndexOf(s, '/');
    forall k | 0 <= k < |s| ensures (SlugChar(s[k]) || s[k] == '/') && s[k] != '#' {
      if k < i { assert s[k] == s[..i][k]; }
      if k > i { assert s[k] == s[i + 1..][k - i - 1]; }
    }
  }

  lemma IndexOfFirst(s: string, c: char, i: nat)
    requires i < |s| && s[i] == c && c !in s[..i]
    ensures IndexOf(s, c) == i
  {
  }

  lemma SlugReferenceAccepted(repo: string, target: string, issue: nat)
    requires IsSlug(target) && 0 < issue <= MAX_INT64
    ensures var s := Reference(target, issue);
            ParseReference(repo, s, s) ==
            Dependency(s, target, issue, if target == repo then Active else CrossRepo, s, "")
  {
    var s := Reference(target, issue);
    SlugHasNoHash(target);
    assert s[..|target|] == target && s[|target| + 1..] == Decimal(issue);
    IndexOfFirst(s, '#', |target|);
    DecimalRoundTrip(issue);
  }

  /** Printing a slug reference and parsing it again gives the repository and number back. */
  lemma SlugReferenceParses(repo: string, target: string, issue: nat)
    requires IsSlug(target) && 0 < issue <= MAX_INT64
    ensures var s := Reference(target, issue);
            NormalizeDependency(repo, s) ==
            Dependency(s, target, issue, if target == repo then Active else CrossRepo, s, "")
  {
    SlugReferenceAccepted(repo, target, issue);
    PlainReference(target, issue);
    CanonicalOfPlain(Reference(target, issue));
  }

  lemma PlainReference(target: string, issue: nat)
    requires IsSlug(target)
    ensures Plain(Reference(target, issue))
  {
    SlugHasNoHash(target);
  }

  /** The normal form of an entry is a fixed point of parsing. */
  lemma NormalizedReparses(repo: string, entry: string)
    requires IsSlug(NormalizeDependency(repo, entry).repo)
    ensures var d := NormalizeDependency(repo, entry);
            NormalizeDependency(repo, d.normalized) == d.(raw := d.normalized)
  {
    var d := NormalizeDependency(repo, entry);
    SlugHasNoHash(d.repo);
    assert WellFormed(repo, d);
    SlugReferenceParses(repo, d.repo, d.issue);
  }

  // ----- what an entry means, however it is dressed ----------------------------------

  /** The quotes an entry may stand in; the last two are escaped ones. */
  const QUOTES := ["", "\"", "'", "\\\"", "\\'"]

  lemma PlainIsSolid(t: string)
    requires Plain(t)
    ensures Trimmed(t) && '\\' !in t && '"' !in t && '\'' !in t
  {}

  lemma SpaceIsNoQuote(s: string)
    requires AllSpace(s)
    ensures '\\' !in s && '"' !in s && '\'' !in s
  {}

  /** Unescaping and stripping take a pair of quotes off a text without quotes or backslashes. */
  lemma QuotesComeOff(i: nat, t: string)
    requires 0 < i < |QUOTES| && '\\' !in t
    ensures StripMatchingQuotes(Unescaped(QUOTES[i] + t + QUOTES[i])) == t
  {
    var q := QUOTES[i];
    if i == 1 {
      NoBackslash("\"" + t + "\"");
      StripsPair('"', t);
    } else if i == 2 {
      NoBackslash("'" + t + "'");
      StripsPair('\'', t);
    } else if i == 3 {
      ReplaceBothEnds(t, "\\\"", "\"");
      ReplaceAbsent("\"" + t + "\"", "\\'", "'");
      StripsPair('"', t);
    } else {
      EscapedOther(t);
      ReplaceBothEnds(t, "\\'", "'");
      StripsPair('\'', t);
    }
  }

  lemma StripsPair(q: char, t: string)
    requires q == '"' || q == '\''
    ensures StripMatchingQuotes([q] + t + [q]) == t
  {
    var s := [q] + t + [q];
    assert s[1..|s| - 1] == t;
  }

  lemma NoBackslash(s: string)
    requires '\\' !in s
    ensures Unescaped(s) == s
  {
    ReplaceAbsent(s, "\\\"", "\"");
    ReplaceAbsent(s, "\\'", "'");
  }

  lemma OccursMeans(s: string, a: char, b: char, i: int)
    ensures OccursAt(s, [a, b], i) ==> s[i] == a && s[i + 1] == b
  {
    assert OccursAt(s, [a, b], i) ==> s[i] == s[i..i + 2][0] && s[i + 1] == s[i..i + 2][1];
  }

  /** An escaped single quote is no escaped double quote. */
  lemma EscapedOther(t: string)
    requires '\\' !in t
    ensures ReplaceAll("\\'" + t + "\\'", "\\\"", "\"") == "\\'" + t + "\\'"
  {
    var s := "\\'" + t + "\\'";
    forall i ensures !OccursAt(s, "\\\"", i) {
      OccursMeans(s, '\\', '"', i);
      assert "\\\"" == ['\\', '"'];
    }
    ReplaceNone(s, "\\\"", "\"");
  }

  /** Spaces l, m, k, r, quotes QUOTES[i] and in the middle the text itself. */
  function Dressed(l: string, i: nat, m: string, t: string, k: string, r: string): string
    requires i < |QUOTES|
  {
    l + (QUOTES[i] + (m + t + k) + QUOTES[i]) + r
  }

  lemma CanonicalOfDressed(l: string, i: nat, m: string, t: string, k: string, r: string)
    requires i < |QUOTES| && AllSpace(l) && AllSpace(m) && AllSpace(k) && AllSpace(r) && Plain(t) && t != []
    ensures Canonical(TrimSpace(Dressed(l, i, m, t, k, r))) == t
  {
    PlainIsSolid(t);
    if i == 0 {
      UnquotedTrims(l, m, t, k, r);
      NoBackslash(t);
    } else {
      var inner := QUOTES[i] + (m + t + k) + QUOTES[i];
      assert Trimmed(inner);
      TrimSpaceOf(l, inner, r);
      TrimSpaceOf([], inner, []);
      assert [] + inner + [] == inner;
      SpaceIsNoQuote(m);
      SpaceIsNoQuote(k);
      QuotesComeOff(i, m + t + k);
      TrimSpaceOf(m, t, k);
    }
  }

  lemma UnquotedTrims(l: string, m: string, t: string, k: string, r: string)
    requires AllSpace(l) && AllSpace(m) && AllSpace(k) && AllSpace(r) && Trimmed(t)
    ensures TrimSpace(Dressed(l, 0, m, t, k, r)) == t && TrimSpace(t) == t
  {
    assert Dressed(l, 0, m, t, k, r) == (l + m) + t + (k + r);
    TrimSpaceOf(l + m, t, k + r);
    TrimSpaceOf([], t, []);
    assert [] + t + [] == t;
  }

  lemma LocalAccepted(repo: string, raw: string, n: nat)
    requires n > 0
    ensures var d := ParseReference(repo, raw, "#" + Decimal(n));
            if n <= MAX_INT64 then d.status == Active && d.repo == repo && d.issue == n && d.raw == raw
            else d.status == Invalid && d.reason == "invalid_issue_number"
  {
    var c := "#" + Decimal(n);
    assert c[0] == '#' && c[1..] == Decimal(n);
    assert IndexOf(c, '#') == 0;
    DecimalRoundTrip(n);
  }

  /** #n is the active dependency on issue n of the same repository, whatever spaces and quotes it
      stands in. */
  lemma LocalReferenceParses(repo: string, n: nat, l: string, i: nat, m: string, k: string, r: string)
    requires n > 0 && i < |QUOTES| && AllSpace(l) && AllSpace(m) && AllSpace(k) && AllSpace(r)
    ensures var d := NormalizeDependency(repo, Dressed(l, i, m, "#" + Decimal(n), k, r));
            if n <= MAX_INT64 then d.status == Active && d.repo == repo && d.issue == n else d.status == Invalid
  {
    var t := "#" + Decimal(n);
    assert Plain(t) by {
      forall j | 0 <= j < |t| ensures SlugChar(t[j]) || t[j] == '/' || t[j] == '#' {
        if j > 0 { assert t[j] == Decimal(n)[j - 1]; }
      }
    }
    CanonicalOfDressed(l, i, m, t, k, r);
    LocalAccepted(repo, TrimSpace(Dressed(l, i, m, t, k, r)), n);
  }

  /** owner/name#n is the dependency on issue n of owner/name, dressed in the same ways. */
  lemma SlugReferenceParsesDressed(repo: string, target: string, n: nat, l: string, i: nat, m: string,
                                   k: string, r: string)
    requires IsSlug(target) && 0 < n <= MAX_INT64
    requires i < |QUOTES| && AllSpace(l) && AllSpace(m) && AllSpace(k) && AllSpace(r)
    ensures var d := NormalizeDependency(repo, Dressed(l, i, m, Reference(target, n), k, r));
            d.status == (if target == repo then Active else CrossRepo) && d.repo == target && d.issue == n
  {
    PlainReference(target, n);
    CanonicalOfDressed(l, i, m, Reference(target, n), k, r);
    SlugAccepted(repo, TrimSpace(Dressed(l, i, m, Reference(target, n), k, r)), target, n);
  }

  lemma SlugAccepted(repo: string, raw: string, target: string, n: nat)
    requires IsSlug(target) && 0 < n <= MAX_INT64
    ensures var d := ParseReference(repo, raw, Reference(target, n));
            d.status == (if target == repo then Active else CrossRepo) && d.repo == target && d.issue == n
  {
    var s := Reference(target, n);
    SlugHasNoHash(target);
    assert s[..|target|] == target && s[|target| + 1..] == Decimal(n);
    IndexOfFirst(s, '#', |target|);
    DecimalRoundTrip(n);
  }

  /** Conversely an entry means something only if its canonical text is one of the two forms, with
      the number and the repository it is parsed to. */
  lemma OnlyReferencesParse(repo: string, entry: string)
    requires NormalizeDependency(repo, entry).status != Invalid
    ensures var d, c := NormalizeDependency(repo, entry), Canonical(TrimSpace(entry));
            || (c == "#" + Decimal(d.issue) && d.repo == repo && d.status == Active)
            || (c == Reference(d.repo, d.issue) && IsSlug(d.repo) && (d.status == Active <==> d.repo == repo))
  {
    OnlyTwoForms(repo, TrimSpace(entry), Canonical(TrimSpace(entry)));
  }

  lemma OnlyTwoForms(repo: string, raw: string, c: string)
    requires ParseReference(repo, raw, c).status != Invalid
    ensures var d := ParseReference(repo, raw, c);
            || (c == "#" + Decimal(d.issue) && d.repo == repo && d.status == Active)
            || (c == Reference(d.repo, d.issue) && IsSlug(d.repo) && (d.status == Active <==> d.repo == repo))
  {
    var h := ParseBranches(repo, raw, c);
    if h == 0 {
      AcceptedMeans(repo, raw, repo, c[1..], "invalid_issue_number");
    } else {
      AcceptedMeans(repo, raw, c[..h], c[h + 1..], "invalid_repo_issue");
    }
  }

  lemma CutAt(c: string, h: nat)
    requires h < |c| && c[h] == '#'
    ensures c == c[..h] + "#" + c[h + 1..] && (h == 0 ==> c == "#" + c[1..])
  {}

  /** The branch taken, and how the text is put together. */
  lemma ParseBranches(repo: string, raw: string, c: string) returns (h: nat)
    requires ParseReference(repo, raw, c).status != Invalid
    ensures h < |c| && IsIssueNumber(c[h + 1..]) && c == c[..h] + "#" + c[h + 1..]
    ensures h == 0 ==>
      c == "#" + c[1..] && ParseReference(repo, raw, c) == Accepted(repo, raw, repo, c[1..], "invalid_issue_number")
    ensures h > 0 ==> IsSlug(c[..h])
    ensures h > 0 ==> ParseReference(repo, raw, c) == Accepted(repo, raw, c[..h], c[h + 1..], "invalid_repo_issue")
  {
    h := IndexOf(c, '#');
    CutAt(c, h);
  }

  /** #number or owner/name#number, whatever the size of the number. */
  ghost predicate IsForm(c: string, h: nat) {
    h < |c| && c[h] == '#' && IsIssueNumber(c[h + 1..]) && (h == 0 || IsSlug(c[..h]))
  }

  /** A text of neither form is rejected as such; of the two forms only a number out of range is
      rejected, each under its own name. The entry is kept as written, apart from space around it. */
  lemma RejectionsMean(repo: string, entry: string)
    ensures NormalizeDependency(repo, entry).raw == TrimSpace(entry)
    ensures var d, c := NormalizeDependency(repo, entry), Canonical(TrimSpace(entry)); var h := IndexOf(c, '#');
            && (!IsForm(c, h) ==> d.status == Invalid && d.reason == "invalid_format")
            && (IsForm(c, h) ==> (d.status == Invalid <==> DecimalValue(c[h + 1..]) > MAX_INT64))
            && (IsForm(c, h) && d.status == Invalid ==>
                  d.reason == if h == 0 then "invalid_issue_number" else "invalid_repo_issue")
  {
    RejectedForms(repo, TrimSpace(entry), Canonical(TrimSpace(entry)));
  }

  lemma RejectedForms(repo: string, raw: string, c: string)
    ensures ParseReference(repo, raw, c).raw == raw
    ensures var d, h := ParseReference(repo, raw, c), IndexOf(c, '#');
            && (!IsForm(c, h) ==> d.status == Invalid && d.reason == "invalid_format")
            && (IsForm(c, h) ==> (d.status == Invalid <==> DecimalValue(c[h + 1..]) > MAX_INT64))
            && (IsForm(c, h) && d.status == Invalid ==>
                  d.reason == if h == 0 then "invalid_issue_number" else "invalid_repo_issue")
  {
    var h := IndexOf(c, '#');
    if IsForm(c, h) {
      if h == 0 {
        AcceptedRejects(repo, raw, repo, c[1..], "invalid_issue_number");
      } else {
        AcceptedRejects(repo, raw, c[..h], c[h + 1..], "invalid_repo_issue");
      }
    }
  }

  lemma AcceptedRejects(repo: string, raw: string, target: string, digits: string, why: string)
    requires IsIssueNumber(digits) && (target == repo || IsSlug(target))
    ensures var d := Accepted(repo, raw, target, digits, why);
            && d.raw == raw && (d.status == Invalid <==> DecimalValue(digits) > MAX_INT64)
            && (d.status == Invalid ==> d.reason == why)
  {
    PositiveValue(digits);
  }

  lemma AcceptedMeans(repo: string, raw: string, target: string, digits: string, why: string)
    requires IsIssueNumber(digits) && (target == repo || IsSlug(target))
    requires Accepted(repo, raw, target, digits, why).status != Invalid
    ensures var d := Accepted(repo, raw, target, digits, why);
            Decimal(d.issue) == digits && d.repo == target && (d.status == Active <==> target == repo)
  {
    DecimalCanonical(digits);
  }

  // ----- one declaration block ------------------------------------------------------

  function Parser(repo: string): string -> Dependency {
    entry => NormalizeDependency(repo, entry)
  }

  function Mapped(entries: seq<string>, parse: string -> Dependency): (r: seq<Dependency>)
    ensures |r| == |entries| && forall i :: 0 <= i < |r| ==> r[i] == parse(entries[i])
  {
    if entries == [] then [] else [parse(entries[0])] + Mapped(entries[1..], parse)
  }

  function ParseAll(repo: string, entries: seq<string>): seq<Dependency> {
    Mapped(entries, Parser(repo))
  }

  /** Keep the first dependency of every normal form; malformed entries are all kept. */
  function Dedup(deps: seq<Dependency>, seen: set<string>): seq<Dependency> {
    if deps == [] then []
    else if deps[0].normalized == "" then [deps[0]] + Dedup(deps[1..], seen)
    else if deps[0].normalized in seen then Dedup(deps[1..], seen)
    else [deps[0]] + Dedup(deps[1..], seen + {deps[0].normalized})
  }

  predicate DepLeq(a: Dependency, b: Dependency) {
    if a.normalized != b.normalized then Less(a.normalized, b.normalized) else LessEq(a.raw, b.raw)
  }

  lemma DepLeqIsPreorder()
    ensures TotalPreorder(DepLeq)
  {
    forall a, b ensures DepLeq(a, b) || DepLeq(b, a) {
      LessTrichotomy(a.normalized, b.normalized);
      LessTrichotomy(a.raw, b.raw);
    }
    forall a, b, c | DepLeq(a, b) && DepLeq(b, c) ensures DepLeq(a, c) {
      DepLeqTransitive(a, b, c);
    }
  }

  lemma DepLeqTransitive(a: Dependency, b: Dependency, c: Dependency)
    requires DepLeq(a, b) && DepLeq(b, c)
    ensures DepLeq(a, c)
  {
    if a.normalized != b.normalized && b.normalized != c.normalized {
      LessTransitive(a.normalized, b.normalized, c.normalized);
      LessTrichotomy(a.normalized, c.normalized);
      LessIrreflexive(a.normalized);
    } else if a.normalized == b.normalized == c.normalized && a.raw != b.raw && b.raw != c.raw {
      LessTransitive(a.raw, b.raw, c.raw);
    }
  }

  /** The dependencies of a declaration, in stored order. */
  function Declared(repo: string, entries: seq<string>): seq<Dependency> {
    Sort(Dedup(ParseAll(repo, entries), {}), DepLeq)
  }

  predicate IsEdge(d: Dependency, repo: string) {
    d.repo != "" && d.issue > 0 && d.status == Active && d.repo == repo
  }

  /** The issue numbers EvaluateOpenIssues appends to the graph, in order. */
  function Edges(deps: seq<Dependency>, repo: string): seq<int> {
    if deps == [] then []
    else (if IsEdge(deps[0], repo) then [deps[0].issue] else []) + Edges(deps[1..], repo)
  }

  method KeepFirst(entries: seq<string>, parse: string -> Dependency) returns (deps: seq<Dependency>)
    ensures deps == Dedup(Mapped(entries, parse), {})
  {
    var seen: set<string> := {};
    deps := [];
    var i := 0;
    ghost var all := Mapped(entries, parse);
    while i < |entries|
      invariant 0 <= i <= |entries| && Kept(all, i, seen, deps)
    {
      var parsed := parse(entries[i]);
      KeptNext(all, i, seen, deps);
      i := i + 1;
      if parsed.normalized != "" {
        if parsed.normalized in seen {
          continue;
        }
        seen := seen + {parsed.normalized};
      }
      deps := deps + [parsed];
    }
  }

  /** What the loop has kept before entry i, with the forms it has seen. */
  ghost predicate Kept(all: seq<Dependency>, i: int, seen: set<string>, deps: seq<Dependency>) {
    0 <= i <= |all| && deps + Dedup(all[i..], seen) == Dedup(all, {})
  }

  lemma KeptNext(all: seq<Dependency>, i: int, seen: set<string>, deps: seq<Dependency>)
    requires i < |all| && Kept(all, i, seen, deps)
    ensures var d := all[i];
            if d.normalized == "" then Kept(all, i + 1, seen, deps + [d])
            else if d.normalized in seen then Kept(all, i + 1, seen, deps)
            else Kept(all, i + 1, seen + {d.normalized}, deps + [d])
  {
    DedupHead(all, i, seen);
  }

  lemma DedupHead(all: seq<Dependency>, i: int, seen: set<string>)
    requires 0 <= i < |all|
    ensures Dedup(all[i..], seen) ==
            if all[i].normalized == "" then [all[i]] + Dedup(all[i + 1..], seen)
            else if all[i].normalized in seen then Dedup(all[i + 1..], seen)
            else [all[i]] + Dedup(all[i + 1..], seen + {all[i].normalized})
  {
    assert all[i..][0] == all[i] && all[i..][1..] == all[i + 1..];
  }

  method ParseDeclaration(repo: string, entries: seq<string>) returns (deps: seq<Dependency>)
    ensures deps == Declared(repo, entries)
  {
    deps := KeepFirst(entries, Parser(repo));
    deps := Sort(deps, DepLeq);
  }

  // ----- repeats and order of the entries do not matter -----------------------------

  lemma {:induction false} DedupKeeps(deps: seq<Dependency>, seen: set<string>, d: Dependency)
    requires d in deps && d.normalized !in seen
    ensures exists k :: k in Dedup(deps, seen) && k.normalized == d.normalized && (d.normalized == "" ==> k == d)
  {
    if deps[0] == d {
      assert Dedup(deps, seen)[0] == d;
    } else {
      assert d in deps[1..];
      if deps[0].normalized == d.normalized && d.normalized != "" {
        assert Dedup(deps, seen)[0] == deps[0];
      } else {
        var seen' := if deps[0].normalized == "" then seen else seen + {deps[0].normalized};
        var seen'' := if deps[0].normalized in seen then seen else seen';
        DedupKeeps(deps[1..], seen'', d);
        var k :| k in Dedup(deps[1..], seen'') && k.normalized == d.normalized && (d.normalized == "" ==> k == d);
        assert k in Dedup(deps, seen);
      }
    }
  }

  lemma {:induction false} DedupSubset(deps: seq<Dependency>, seen: set<string>)
    ensures forall k :: k in Dedup(deps, seen) ==> k in deps && (k.normalized == "" || k.normalized !in seen)
  {
    if deps == [] {
    } else {
      var seen' := if deps[0].normalized == "" then seen else seen + {deps[0].normalized};
      var seen'' := if deps[0].normalized in seen then seen else seen';
      DedupSubset(deps[1..], seen'');
      if deps[0].normalized == "" { DedupSubset(deps[1..], seen); }
    }
  }

  /** Dependency i is the first of its normal form. */
  ghost predicate FirstOfForm(deps: seq<Dependency>, i: int) {
    0 <= i < |deps| && forall j :: 0 <= j < i ==> deps[j].normalized != deps[i].normalized
  }

  /** Of several entries with one normal form the first is kept. */
  lemma {:induction false} DedupKeepsFirst(deps: seq<Dependency>, seen: set<string>, k: Dependency) returns (i: int)
    requires k in Dedup(deps, seen) && k.normalized != ""
    ensures FirstOfForm(deps, i) && deps[i] == k && k.normalized !in seen
  {
    if deps[0].normalized != "" && deps[0].normalized !in seen && k == deps[0] {
      i := 0;
    } else {
      var seen' := if deps[0].normalized == "" || deps[0].normalized in seen then seen else seen + {deps[0].normalized};
      assert k in Dedup(deps[1..], seen');
      var j := DedupKeepsFirst(deps[1..], seen', k);
      i := j + 1;
      assert k.normalized != deps[0].normalized;
      forall m | 0 <= m < i ensures deps[m].normalized != deps[i].normalized {
        if m > 0 { assert deps[m] == deps[1..][m - 1]; }
      }
    }
  }

  lemma DeclaredIsKept(repo: string, entries: seq<string>, d: Dependency)
    requires d in Declared(repo, entries)
    ensures d in Dedup(ParseAll(repo, entries), {})
  {
    DepLeqIsPreorder();
    SortCorrect(Dedup(ParseAll(repo, entries), {}), DepLeq);
    assert d in multiset(Declared(repo, entries));
  }

  lemma FirstMapped(entries: seq<string>, parse: string -> Dependency, d: Dependency) returns (i: int)
    requires d in Dedup(Mapped(entries, parse), {}) && d.normalized != ""
    ensures 0 <= i < |entries| && parse(entries[i]) == d
    ensures forall j :: 0 <= j < i ==> parse(entries[j]).normalized != d.normalized
  {
    var all := Mapped(entries, parse);
    i := DedupKeepsFirst(all, {}, d);
    forall j | 0 <= j < i ensures parse(entries[j]).normalized != d.normalized {
      assert all[j] == parse(entries[j]);
    }
  }

  /** So a declared dependency is written the way its first entry is. */
  lemma FirstEntryIsDeclared(repo: string, entries: seq<string>, d: Dependency) returns (i: int)
    requires d in Declared(repo, entries) && d.normalized != ""
    ensures 0 <= i < |entries| && NormalizeDependency(repo, entries[i]) == d
    ensures forall j :: 0 <= j < i ==> NormalizeDependency(repo, entries[j]).normalized != d.normalized
  {
    DeclaredIsKept(repo, entries, d);
    i := FirstMapped(entries, Parser(repo), d);
    forall j | 0 <= j < i ensures NormalizeDependency(repo, entries[j]).normalized != d.normalized {
      assert Parser(repo)(entries[j]).normalized != d.normalized;
    }
  }

  ghost predicate DistinctForms(deps: seq<Dependency>) {
    forall i, j :: 0 <= i < j < |deps| && deps[i].normalized != "" ==> deps[i].normalized != deps[j].normalized
  }

  lemma {:induction false} DedupDistinct(deps: seq<Dependency>, seen: set<string>)
    ensures DistinctForms(Dedup(deps, seen))
  {
    if deps == [] {
    } else {
      if deps[0].normalized == "" {
        DedupDistinct(deps[1..], seen);
      } else if deps[0].normalized in seen {
        DedupDistinct(deps[1..], seen);
      } else {
        var seen' := seen + {deps[0].normalized};
        DedupDistinct(deps[1..], seen');
        DedupSubset(deps[1..], seen');
        var rest := Dedup(deps[1..], seen');
        forall j | 0 <= j < |rest| ensures rest[j].normalized != deps[0].normalized {
          assert rest[j] in rest;
        }
      }
    }
  }

  /** Two parsed entries that name the same thing, however they were written. */
  ghost predicate SameMeaning(a: Dependency, b: Dependency) {
    a.status == b.status && a.repo == b.repo && a.issue == b.issue
  }

  lemma SameFormSameMeaning(repo: string, a: Dependency, b: Dependency)
    requires WellFormed(repo, a) && WellFormed(repo, b) && a.normalized == b.normalized != ""
    ensures SameMeaning(a, b)
  {
    ReferenceInjective(a.repo, a.issue, b.repo, b.issue);
  }

  lemma DeclaredComesFromEntry(repo: string, entries: seq<string>, d: Dependency)
    requires d in Declared(repo, entries)
    ensures exists e :: e in entries && NormalizeDependency(repo, e) == d
  {
    var all := ParseAll(repo, entries);
    DepLeqIsPreorder();
    SortCorrect(Dedup(all, {}), DepLeq);
    assert d in multiset(Declared(repo, entries));
    DedupSubset(all, {});
    var i :| 0 <= i < |all| && all[i] == d;
    assert entries[i] in entries && NormalizeDependency(repo, entries[i]) == d;
  }

  lemma EntryIsDeclared(repo: string, entries: seq<string>, e: string) returns (k: Dependency)
    requires e in entries
    ensures k in Declared(repo, entries) && SameMeaning(k, NormalizeDependency(repo, e))
  {
    var all := ParseAll(repo, entries);
    var d := NormalizeDependency(repo, e);
    var i :| 0 <= i < |entries| && entries[i] == e;
    assert all[i] == d;
    DedupKeeps(all, {}, d);
    k :| k in Dedup(all, {}) && k.normalized == d.normalized && (d.normalized == "" ==> k == d);
    DepLeqIsPreorder();
    SortCorrect(Dedup(all, {}), DepLeq);
    assert k in multiset(Declared(repo, entries));
    DeclaredComesFromEntry(repo, entries, k);
    if d.normalized != "" { SameFormSameMeaning(repo, k, d); }
  }

  ghost predicate SameEntries(a: seq<string>, b: seq<string>) {
    forall e :: e in a <==> e in b
  }

  /** Reordering or repeating entries changes no declared meaning. */
  lemma DeclaredMeaningStable(repo: string, a: seq<string>, b: seq<string>, d: Dependency) returns (k: Dependency)
    requires SameEntries(a, b) && d in Declared(repo, a)
    ensures k in Declared(repo, b) && SameMeaning(k, d)
  {
    DeclaredComesFromEntry(repo, a, d);
    var e :| e in a && NormalizeDependency(repo, e) == d;
    k := EntryIsDeclared(repo, b, e);
  }

  lemma {:induction false} EdgesMembers(deps: seq<Dependency>, repo: string, n: int)
    ensures n in Edges(deps, repo) <==> exists d :: d in deps && IsEdge(d, repo) && d.issue == n
  {
    if deps == [] {
    } else {
      EdgesMembers(deps[1..], repo, n);
      if n in Edges(deps[1..], repo) {
        var d :| d in deps[1..] && IsEdge(d, repo) && d.issue == n;
        assert d in deps;
      }
      if d :| d in deps && IsEdge(d, repo) && d.issue == n {
        if d != deps[0] { assert d in deps[1..]; }
      }
    }
  }

  /** Strictly ascending by the text of the reference. */
  ghost predicate Ascending(repo: string, s: seq<int>) {
    && (forall i :: 0 <= i < |s| ==> s[i] > 0)
    && forall i, j :: 0 <= i < j < |s| ==> Less(Reference(repo, s[i]), Reference(repo, s[j]))
  }

  lemma HeadBelow(repo: string, deps: seq<Dependency>, n: int)
    requires deps != [] && n in Edges(deps[1..], repo) && IsEdge(deps[0], repo)
    requires Sorted(deps, DepLeq) && DistinctForms(deps)
    requires forall i :: 0 <= i < |deps| ==> WellFormed(repo, deps[i])
    ensures n > 0 && Less(Reference(repo, deps[0].issue), Reference(repo, n))
  {
    EdgesMembers(deps[1..], repo, n);
    var d :| d in deps[1..] && IsEdge(d, repo) && d.issue == n;
    var k :| 0 <= k < |deps[1..]| && deps[1..][k] == d;
    assert deps[k + 1] == d && DepLeq(deps[0], deps[k + 1]);
  }

  lemma {:induction false} EdgesAscending(repo: string, deps: seq<Dependency>)
    requires Sorted(deps, DepLeq) && DistinctForms(deps) && repo != ""
    requires forall i :: 0 <= i < |deps| ==> WellFormed(repo, deps[i])
    ensures Ascending(repo, Edges(deps, repo))
  {
    if deps == [] {
    } else {
      var rest := deps[1..];
      EdgesAscending(repo, rest);
      var tail := Edges(rest, repo);
      if IsEdge(deps[0], repo) {
        forall j | 0 <= j < |tail| ensures Less(Reference(repo, deps[0].issue), Reference(repo, tail[j])) {
          HeadBelow(repo, deps, tail[j]);
        }
      }
    }
  }

  lemma {:induction false} AscendingUnique(repo: string, a: seq<int>, b: seq<int>)
    requires Ascending(repo, a) && Ascending(repo, b) && forall n :: n in a <==> n in b
    ensures a == b
  {
    assert a != [] ==> a[0] in a;
    assert b != [] ==> b[0] in b;
    if a == [] || b == [] {
    } else {
      AscendingSameHead(repo, a, b);
      AscendingTail(repo, a);
      AscendingTail(repo, b);
      forall n ensures n in a[1..] <==> n in b[1..] {
        assert n in a <==> n in b;
      }
      AscendingUnique(repo, a[1..], b[1..]);
      assert a == [a[0]] + a[1..] && b == [b[0]] + b[1..];
    }
  }

  lemma AscendingTail(repo: string, a: seq<int>)
    requires Ascending(repo, a) && a != []
    ensures forall n :: n in a[1..] <==> n in a && n != a[0]
  {
    LessIrreflexive(Reference(repo, a[0]));
    forall n | n in a && n != a[0] ensures n in a[1..] {
      var i :| 0 <= i < |a| && a[i] == n;
      assert a[1..][i - 1] == n;
    }
  }

  lemma AscendingSameHead(repo: string, a: seq<int>, b: seq<int>)
    requires Ascending(repo, a) && Ascending(repo, b) && a != [] && b != []
    requires forall n :: n in a <==> n in b
    ensures a[0] == b[0]
  {
    assert a[0] in b && b[0] in a;
    var i :| 0 <= i < |b| && b[i] == a[0];
    var j :| 0 <= j < |a| && a[j] == b[0];
    LessTrichotomy(Reference(repo, a[0]), Reference(repo, b[0]));
  }

  lemma DeclaredIsOrdered(repo: string, entries: seq<string>)
    ensures Sorted(Declared(repo, entries), DepLeq) && DistinctForms(Declared(repo, entries))
    ensures forall i :: 0 <= i < |Declared(repo, entries)| ==> WellFormed(repo, Declared(repo, entries)[i])
  {
    var unsorted := Dedup(ParseAll(repo, entries), {});
    var decl := Declared(repo, entries);
    DepLeqIsPreorder();
    SortCorrect(unsorted, DepLeq);
    DedupDistinct(ParseAll(repo, entries), {});
    forall i | 0 <= i < |decl| ensures WellFormed(repo, decl[i]) {
      DeclaredComesFromEntry(repo, entries, decl[i]);
    }
    DistinctFormsPermute(unsorted, decl);
  }

  /** Having no repeated normal form is a property of the multiset. */
  lemma DistinctFormsPermute(a: seq<Dependency>, b: seq<Dependency>)
    requires DistinctForms(a) && multiset(a) == multiset(b)
    ensures DistinctForms(b)
  {
    forall i, j | 0 <= i < j < |b| && b[i].normalized != "" ensures b[i].normalized != b[j].normalized {
      TwoOccurrences(a, b, i, j);
    }
  }

  lemma TwoOccurrences(a: seq<Dependency>, b: seq<Dependency>, i: int, j: int)
    requires multiset(a) == multiset(b) && 0 <= i < j < |b| && DistinctForms(a) && b[i].normalized != ""
    ensures b[i].normalized != b[j].normalized
  {
    if b[i] == b[j] {
      CountTwice(b, i, j);
      DistinctCount(a, b[i]);
    } else {
      assert b[i] in multiset(a) && b[j] in multiset(a);
      var k :| 0 <= k < |a| && a[k] == b[i];
      var l :| 0 <= l < |a| && a[l] == b[j];
      assert k < l || l < k;
    }
  }

  lemma CountTwice(b: seq<Dependency>, i: int, j: int)
    requires 0 <= i < j < |b| && b[i] == b[j]
    ensures multiset(b)[b[i]] >= 2
  {
    assert b == b[..i] + [b[i]] + b[i + 1..j] + [b[j]] + b[j + 1..];
  }

  lemma {:induction false} DistinctCount(a: seq<Dependency>, d: Dependency)
    requires DistinctForms(a) && d.normalized != ""
    ensures multiset(a)[d] <= 1
  {
    if a == [] {
    } else {
      assert a == [a[0]] + a[1..];
      assert forall k :: 0 <= k < |a[1..]| ==> a[1..][k] == a[k + 1];
      DistinctCount(a[1..], d);
    }
  }

  /** Reordering or repeating entries leaves the graph's adjacency list as it was. */
  lemma EdgesStable(repo: string, a: seq<string>, b: seq<string>)
    requires SameEntries(a, b)
    ensures Edges(Declared(repo, a), repo) == Edges(Declared(repo, b), repo)
  {
    if repo == "" {
      NoEdgesWithoutRepo(Declared(repo, a));
      NoEdgesWithoutRepo(Declared(repo, b));
    } else {
      DeclaredIsOrdered(repo, a);
      DeclaredIsOrdered(repo, b);
      EdgesAscending(repo, Declared(repo, a));
      EdgesAscending(repo, Declared(repo, b));
      forall n ensures n in Edges(Declared(repo, a), repo) <==> n in Edges(Declared(repo, b), repo) {
        EdgeStable(repo, a, b, n);
        EdgeStable(repo, b, a, n);
      }
      AscendingUnique(repo, Edges(Declared(repo, a), repo), Edges(Declared(repo, b), repo));
    }
  }

  lemma EdgeStable(repo: string, a: seq<string>, b: seq<string>, n: int)
    requires SameEntries(a, b)
    ensures n in Edges(Declared(repo, a), repo) ==> n in Edges(Declared(repo, b), repo)
  {
    EdgesMembers(Declared(repo, a), repo, n);
    EdgesMembers(Declared(repo, b), repo, n);
    if n in Edges(Declared(repo, a), repo) {
      var d :| d in Declared(repo, a) && IsEdge(d, repo) && d.issue == n;
      var k := DeclaredMeaningStable(repo, a, b, d);
    }
  }

  lemma {:induction false} NoEdgesWithoutRepo(deps: seq<Dependency>)
    ensures Edges(deps, "") == []
  {
    if deps == [] {
    } else {
      NoEdgesWithoutRepo(deps[1..]);
    }
  }
}
