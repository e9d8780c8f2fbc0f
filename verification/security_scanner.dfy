/**
 * The two pure helpers of scripts/security_scanner.py: the dotted-version
 * comparison `_version_is_less_than` and the severity counter
 * `_group_security_issues` (which `_group_bandit_issues` of
 * scripts/quality_metrics.py repeats line for line).
 */
module SecurityScanner {
  import opened Wrappers
  import opened TextUtils

  // ---------------------------------------------------------------------
  // int(x) on one version component
  // ---------------------------------------------------------------------

  predicate IsDigit(c: char) { '0' <= c <= '9' }

  predicate AllDigits(s: string) {
    forall i :: 0 <= i < |s| ==> IsDigit(s[i])
  }

  /** The value of a run of decimal digits. */
  function DigitsValue(s: string): nat
    requires AllDigits(s)
  {
    if s == [] then 0 else DigitsValue(s[..|s| - 1]) * 10 + (s[|s| - 1] as int - '0' as int)
  }

  /** `int(x)`: surrounding whitespace is ignored, an optional sign, then at
      least one decimal digit; anything else is a ValueError (None). */
  function ParseInt(x: string): Option<int> {
    var t := Strip(x);
    if t != [] && (t[0] == '+' || t[0] == '-') then
      var digits := t[1..];
      if digits != [] && AllDigits(digits) then
        Some(if t[0] == '-' then -(DigitsValue(digits) as int) else DigitsValue(digits))
      else None
    else if t != [] && AllDigits(t) then Some(DigitsValue(t))
    else None
  }

  /** `[parse(x) for x in parts]`, or None when some part does not parse. */
  function ParseEach(parts: seq<string>, parse: string -> Option<int>): (r: Option<seq<int>>)
    ensures r.Some? ==> |r.value| == |parts|
  {
    if parts == [] then Some([])
    else match (parse(parts[0]), ParseEach(parts[1..], parse))
      case (Some(n), Some(rest)) => Some([n] + rest)
      case _ => None
  }

  /** The integer components of a dotted version: `[int(x) for x in v.split(".")]`. */
  function ParseVersion(v: string): Option<seq<int>> {
    ParseEach(Split(v, '.'), ParseInt)
  }

  // ---------------------------------------------------------------------
  // Comparison
  // ---------------------------------------------------------------------

  function Max(a: nat, b: nat): nat { if a >= b then a else b }

  /** Component `k` of a version, a missing one counting as 0. */
  function Component(p: seq<int>, k: nat): int {
    if k < |p| then p[k] else 0
  }

  /** `c` and `m` first differ at `k`, where `c` is smaller. */
  predicate FirstSmallerAt(c: seq<int>, m: seq<int>, k: nat) {
    && Component(c, k) < Component(m, k)
    && forall j :: 0 <= j < k ==> Component(c, j) == Component(m, j)
  }

  /** Version order: at the first component where they differ, `c` is
      smaller, missing components counting as 0. */
  predicate PaddedLess(c: seq<int>, m: seq<int>) {
    exists k :: 0 <= k < Max(|c|, |m|) && FirstSmallerAt(c, m, k)
  }

  /** What `_version_is_less_than(current, minimum)` answers: both parse
      and `current` comes first; otherwise False. */
  predicate VersionLess(current: string, minimum: string) {
    var c, m := ParseVersion(current), ParseVersion(minimum);
    c.Some? && m.Some? && PaddedLess(c.value, m.value)
  }

  /** `[0] * n` */
  function Zeros(n: nat): (z: seq<int>)
    ensures |z| == n && forall i :: 0 <= i < n ==> z[i] == 0
  {
    seq(n, i => 0)
  }

  /** Python's `a < b` on lists of integers. */
  function LexLess(a: seq<int>, b: seq<int>): bool {
    if a == [] then b != []
    else if b == [] then false
    else if a[0] != b[0] then a[0] < b[0]
    else LexLess(a[1..], b[1..])
  }

  /** On lists of the same length, `<` holds exactly when the first
      difference is in favour of the right-hand list. */
  lemma {:induction false} LexLessSameLength(a: seq<int>, b: seq<int>)
    requires |a| == |b|
    ensures LexLess(a, b) <==> exists k :: 0 <= k < |a| && a[k] < b[k] && forall j :: 0 <= j < k ==> a[j] == b[j]
  {
    if a != [] && a[0] == b[0] {
      LexLessSameLength(a[1..], b[1..]);
      if LexLess(a, b) {
        var k :| 0 <= k < |a[1..]| && a[1..][k] < b[1..][k] && forall j :: 0 <= j < k ==> a[1..][j] == b[1..][j];
        assert a[k + 1] < b[k + 1];
        forall j | 0 <= j < k + 1 ensures a[j] == b[j] {
          if j > 0 {
            assert a[j] == a[1..][j - 1] && b[j] == b[1..][j - 1];
          }
        }
      }
      if exists k :: 0 <= k < |a| && a[k] < b[k] && forall j :: 0 <= j < k ==> a[j] == b[j] {
        var k :| 0 <= k < |a| && a[k] < b[k] && forall j :: 0 <= j < k ==> a[j] == b[j];
        assert k > 0;
        assert a[1..][k - 1] < b[1..][k - 1];
        forall j | 0 <= j < k - 1 ensures a[1..][j] == b[1..][j] {
          assert a[j + 1] == b[j + 1];
        }
      }
    } else if a != [] {
      if a[0] > b[0] {
        forall k | 0 <= k < |a| && a[k] < b[k] ensures exists j :: 0 <= j < k && a[j] != b[j] {
          assert k != 0;
          assert a[0] != b[0];
        }
      }
    }
  }

  /** Padding with zeros lists the components up to the new length. */
  lemma PaddedComponents(c: seq<int>, n: nat)
    requires |c| <= n
    ensures |c + Zeros(n - |c|)| == n
    ensures forall k :: 0 <= k < n ==> (c + Zeros(n - |c|))[k] == Component(c, k)
  {
  }

  lemma LexLessPaddedOnly(c: seq<int>, m: seq<int>, a: seq<int>, b: seq<int>)
    requires |a| == |b| == Max(|c|, |m|)
    requires forall k :: 0 <= k < |a| ==> a[k] == Component(c, k) && b[k] == Component(m, k)
    requires LexLess(a, b)
    ensures PaddedLess(c, m)
  {
    LexLessSameLength(a, b);
    var k :| 0 <= k < |a| && a[k] < b[k] && forall j :: 0 <= j < k ==> a[j] == b[j];
    assert FirstSmallerAt(c, m, k);
  }

  lemma PaddedLessLexOnly(c: seq<int>, m: seq<int>, a: seq<int>, b: seq<int>)
    requires |a| == |b| == Max(|c|, |m|)
    requires forall k :: 0 <= k < |a| ==> a[k] == Component(c, k) && b[k] == Component(m, k)
    requires PaddedLess(c, m)
    ensures LexLess(a, b)
  {
    var k :| 0 <= k < |a| && FirstSmallerAt(c, m, k);
    assert a[k] < b[k] && forall j :: 0 <= j < k ==> a[j] == b[j];
    LexLessSameLength(a, b);
  }

  /** Padding both lists to the longer length and comparing them with `<`
      is the version order. */
  lemma LexLessPadded(c: seq<int>, m: seq<int>)
    ensures var n := Max(|c|, |m|);
      LexLess(c + Zeros(n - |c|), m + Zeros(n - |m|)) <==> PaddedLess(c, m)
  {
    var n := Max(|c|, |m|);
    var a, b := c + Zeros(n - |c|), m + Zeros(n - |m|);
    PaddedComponents(c, n);
    PaddedComponents(m, n);
    if LexLess(a, b) {
      LexLessPaddedOnly(c, m, a, b);
    }
    if PaddedLess(c, m) {
      PaddedLessLexOnly(c, m, a, b);
    }
  }

  /** `_version_is_less_than(current, minimum)`: parse both, pad the shorter
      component list with zeros in place, compare the lists. */
  method VersionIsLessThan(current: string, minimum: string) returns (less: bool)
    ensures less <==> VersionLess(current, minimum)
  {
    var c := ParseVersion(current);
    var m := ParseVersion(minimum);
    if c.None? || m.None? {
      return false;
    }
    var currentParts, minimumParts := c.value, m.value;
    var maxLen := Max(|currentParts|, |minimumParts|);
    currentParts := currentParts + Zeros(maxLen - |currentParts|);
    minimumParts := minimumParts + Zeros(maxLen - |minimumParts|);
    less := LexLess(currentParts, minimumParts);
    LexLessPadded(c.value, m.value);
  }

  /** A trailing zero component changes nothing: "2.0" and "2.0.0" are
      equal versions. */
  lemma TrailingZeroIgnored(c: seq<int>, m: seq<int>)
    ensures PaddedLess(c + [0], m) <==> PaddedLess(c, m)
    ensures PaddedLess(m, c + [0]) <==> PaddedLess(m, c)
  {
    var d := c + [0];
    assert forall k :: Component(d, k) == Component(c, k);
    if PaddedLess(d, m) {
      var k :| 0 <= k < Max(|d|, |m|) && FirstSmallerAt(d, m, k);
      assert FirstSmallerAt(c, m, k);
    }
    if PaddedLess(c, m) {
      var k :| 0 <= k < Max(|c|, |m|) && FirstSmallerAt(c, m, k);
      assert FirstSmallerAt(d, m, k);
    }
    if PaddedLess(m, d) {
      var k :| 0 <= k < Max(|m|, |d|) && FirstSmallerAt(m, d, k);
      assert FirstSmallerAt(m, c, k);
    }
    if PaddedLess(m, c) {
      var k :| 0 <= k < Max(|m|, |c|) && FirstSmallerAt(m, c, k);
      assert FirstSmallerAt(m, d, k);
    }
  }

  /** No version comes before itself. */
  lemma PaddedLessIrreflexive(c: seq<int>)
    ensures !PaddedLess(c, c)
  {
  }

  /** Of two versions, at most one comes first. */
  lemma PaddedLessAsymmetric(c: seq<int>, m: seq<int>)
    requires PaddedLess(c, m)
    ensures !PaddedLess(m, c)
  {
    var k :| 0 <= k < Max(|c|, |m|) && FirstSmallerAt(c, m, k);
    assert Component(m, k) != Component(c, k);
    forall l | 0 <= l < Max(|m|, |c|) ensures !FirstSmallerAt(m, c, l) {
      if l < k {
        assert Component(m, l) == Component(c, l);
      }
    }
  }

  /** When neither comes first, the versions agree on every component. */
  lemma PaddedLessTotal(c: seq<int>, m: seq<int>)
    requires !PaddedLess(c, m) && !PaddedLess(m, c)
    ensures forall k :: Component(c, k) == Component(m, k)
  {
    forall k ensures Component(c, k) == Component(m, k) {
      EqualUpTo(c, m, k);
    }
  }

  lemma {:induction false} EqualUpTo(c: seq<int>, m: seq<int>, k: nat)
    requires !PaddedLess(c, m) && !PaddedLess(m, c)
    ensures forall j :: 0 <= j <= k ==> Component(c, j) == Component(m, j)
  {
    if k > 0 {
      EqualUpTo(c, m, k - 1);
    }
    if k < Max(|c|, |m|) {
      assert !FirstSmallerAt(c, m, k) && !FirstSmallerAt(m, c, k);
    }
  }

  /** A component that is not an integer makes the answer False. */
  lemma NonIntegerIsNotLess(current: string, minimum: string, i: nat)
    requires
      || (i < |Split(current, '.')| && ParseInt(Split(current, '.')[i]).None?)
      || (i < |Split(minimum, '.')| && ParseInt(Split(minimum, '.')[i]).None?)
    ensures !VersionLess(current, minimum)
  {
    ParseEachSpec(Split(current, '.'), ParseInt);
    ParseEachSpec(Split(minimum, '.'), ParseInt);
  }

  /** A component without padding or sign parses as its digits. */
  lemma ParseIntDigits(s: string)
    requires s != [] && AllDigits(s)
    ensures ParseInt(s) == Some(DigitsValue(s))
  {
    assert !IsSpace(s[0]) && !IsSpace(s[|s| - 1]);
    StripUnpadded(s);
  }

  /** When every part parses, the list of their values is the result. */
  lemma {:induction false} ParseEachValues(parts: seq<string>, values: seq<int>, parse: string -> Option<int>)
    requires |parts| == |values|
    requires forall i :: 0 <= i < |parts| ==> parse(parts[i]) == Some(values[i])
    ensures ParseEach(parts, parse) == Some(values)
  {
    if parts != [] {
      ParseEachValues(parts[1..], values[1..], parse);
      assert values == [values[0]] + values[1..];
    }
  }

  /** The list comprehension succeeds exactly when every part parses, and
      then holds each part's value at its place. */
  lemma {:induction false} ParseEachSpec(parts: seq<string>, parse: string -> Option<int>)
    ensures ParseEach(parts, parse).Some? <==> forall i :: 0 <= i < |parts| ==> parse(parts[i]).Some?
    ensures ParseEach(parts, parse).Some? ==>
      forall i :: 0 <= i < |parts| ==> parse(parts[i]) == Some(ParseEach(parts, parse).value[i])
  {
    if parts != [] {
      ParseEachSpec(parts[1..], parse);
      assert forall i :: 0 < i < |parts| ==> parts[i] == parts[1..][i - 1];
      if ParseEach(parts, parse).Some? {
        var rest := ParseEach(parts[1..], parse).value;
        assert ParseEach(parts, parse).value == [parse(parts[0]).value] + rest;
      } else if parse(parts[0]).Some? {
        var i :| 0 <= i < |parts[1..]| && parse(parts[1..][i]).None?;
        assert parse(parts[i + 1]).None?;
      }
    }
  }

  lemma ParseEachAppendSome(parts: seq<string>, p: string, values: seq<int>, n: int, parse: string -> Option<int>)
    requires ParseEach(parts, parse) == Some(values) && parse(p) == Some(n)
    ensures ParseEach(parts + [p], parse) == Some(values + [n])
  {
    var all := parts + [p];
    ParseEachSpec(parts, parse);
    assert forall i :: 0 <= i < |parts| ==> all[i] == parts[i];
    ParseEachValues(all, values + [n], parse);
  }

  lemma ParseEachAppendNone(parts: seq<string>, p: string, parse: string -> Option<int>)
    requires ParseEach(parts, parse).None? || parse(p).None?
    ensures ParseEach(parts + [p], parse).None?
  {
    var all := parts + [p];
    ParseEachSpec(parts, parse);
    ParseEachSpec(all, parse);
    if parse(p).None? {
      assert parse(all[|parts|]).None?;
    } else {
      var i :| 0 <= i < |parts| && parse(parts[i]).None?;
      assert parse(all[i]).None?;
    }
  }

  lemma ParseZero()
    ensures ParseInt("0") == Some(0)
  {
    ParseIntDigits("0");
  }

  /** A ".0" suffix adds a zero component. */
  lemma ParseAppendZero(v: string)
    ensures ParseVersion(v + ".0") ==
      if ParseVersion(v).Some? then Some(ParseVersion(v).value + [0]) else None
  {
    assert v + ".0" == v + ['.'] + "0";
    SplitAppend(v, '.', "0");
    ParseZero();
    if ParseVersion(v).None? {
      ParseEachAppendNone(Split(v, '.'), "0", ParseInt);
    } else {
      ParseEachAppendSome(Split(v, '.'), "0", ParseVersion(v).value, 0, ParseInt);
    }
  }

  /** Appending a ".0" component changes no comparison: "2.0" and "2.0.0"
      are the same version. */
  lemma TrailingZeroComponent(v: string, w: string)
    ensures VersionLess(v + ".0", w) <==> VersionLess(v, w)
    ensures VersionLess(w, v + ".0") <==> VersionLess(w, v)
  {
    ParseAppendZero(v);
    if ParseVersion(v).Some? && ParseVersion(w).Some? {
      TrailingZeroIgnored(ParseVersion(v).value, ParseVersion(w).value);
    }
  }

  lemma SplitTwo(a: string, b: string)
    requires '.' !in a && '.' !in b
    ensures Split(a + "." + b, '.') == [a, b]
  {
    assert a + "." + b == a + ['.'] + b;
    SplitAppend(a, '.', b);
    SplitSkips(a, "", '.', "");
    assert a + "" == a && "" + a == a;
  }

  /** "a.b" parses as the values of a and b. */
  lemma ParseTwoComponents(a: string, b: string, x: int, y: int)
    requires '.' !in a && '.' !in b
    requires ParseInt(a) == Some(x) && ParseInt(b) == Some(y)
    ensures ParseVersion(a + "." + b) == Some([x, y])
  {
    SplitTwo(a, b);
    ParsePair(a, b, x, y);
  }

  lemma ParsePair(a: string, b: string, x: int, y: int)
    requires ParseInt(a) == Some(x) && ParseInt(b) == Some(y)
    ensures ParseEach([a, b], ParseInt) == Some([x, y])
  {
    ParseEachValues([a, b], [x, y], ParseInt);
  }

  lemma SecondComponentDecides(x: int, y: int, z: int)
    ensures PaddedLess([x, y], [x, z]) <==> y < z
  {
    if y < z {
      assert FirstSmallerAt([x, y], [x, z], 1);
    }
    if PaddedLess([x, y], [x, z]) {
      var k :| 0 <= k < 2 && FirstSmallerAt([x, y], [x, z], k);
      assert k == 1;
    }
  }

  /** Components are compared as integers: with the same leading component,
      "a.b" comes before "a.c" exactly when b's value is smaller than c's
      (so "1.2" comes before "1.10"). */
  lemma ComponentsCompareAsIntegers(a: string, b: string, c: string, x: int, y: int, z: int)
    requires '.' !in a && '.' !in b && '.' !in c
    requires ParseInt(a) == Some(x) && ParseInt(b) == Some(y) && ParseInt(c) == Some(z)
    ensures VersionLess(a + "." + b, a + "." + c) <==> y < z
  {
    ParseTwoComponents(a, b, x, y);
    ParseTwoComponents(a, c, x, z);
    SecondComponentDecides(x, y, z);
  }

  // ---------------------------------------------------------------------
  // _group_security_issues
  // ---------------------------------------------------------------------

  /** A bandit finding, as its JSON object. */
  type Issue = map<string, string>

  const SeverityKey: string := "issue_severity"

  /** `issue.get("issue_severity", "LOW")` */
  function SeverityOf(issue: Issue): string {
    if SeverityKey in issue then issue[SeverityKey] else "LOW"
  }

  /** The number of issues of the given severity. */
  function CountOf(issues: seq<Issue>, severity: string): nat {
    if issues == [] then 0
    else CountOf(issues[..|issues| - 1], severity) + (if SeverityOf(issues[|issues| - 1]) == severity then 1 else 0)
  }

  /** The three counters of the result. */
  function SeverityCounts(issues: seq<Issue>): map<string, nat> {
    map["HIGH" := CountOf(issues, "HIGH"), "MEDIUM" := CountOf(issues, "MEDIUM"), "LOW" := CountOf(issues, "LOW")]
  }

  /** `_group_security_issues(issues)`: the three counters, bumped for
      each issue whose severity is one of them. */
  method GroupSecurityIssues(issues: seq<Issue>) returns (groups: map<string, nat>)
    ensures groups == SeverityCounts(issues)
  {
    groups := map["HIGH" := 0, "MEDIUM" := 0, "LOW" := 0];
    for i := 0 to |issues|
      invariant groups == SeverityCounts(issues[..i])
    {
      var severity := SeverityOf(issues[i]);
      SeverityCountsStep(issues, i);
      if severity in groups {
        groups := groups[severity := groups[severity] + 1];
      }
    }
    assert issues[..|issues|] == issues;
  }

  lemma SeverityCountsStep(issues: seq<Issue>, i: nat)
    requires i < |issues|
    ensures var s, before := SeverityOf(issues[i]), SeverityCounts(issues[..i]);
      SeverityCounts(issues[..i + 1]) ==
        if s in before then before[s := before[s] + 1] else before
  {
    var pre, all, s := issues[..i], issues[..i + 1], SeverityOf(issues[i]);
    assert all[..i] == pre && all[i] == issues[i];
    var h, m, l := CountOf(pre, "HIGH"), CountOf(pre, "MEDIUM"), CountOf(pre, "LOW");
    assert CountOf(all, "HIGH") == h + (if s == "HIGH" then 1 else 0);
    assert CountOf(all, "MEDIUM") == m + (if s == "MEDIUM" then 1 else 0);
    assert CountOf(all, "LOW") == l + (if s == "LOW" then 1 else 0);
  }

  predicate KnownSeverity(s: string) {
    s == "HIGH" || s == "MEDIUM" || s == "LOW"
  }

  /** The result always has exactly the keys HIGH, MEDIUM and LOW; the
      counts add up to at most the number of issues, and to exactly that
      number when every issue's severity is one of the three. */
  lemma {:induction false} SeverityCountsTotal(issues: seq<Issue>)
    ensures SeverityCounts(issues).Keys == {"HIGH", "MEDIUM", "LOW"}
    ensures var g := SeverityCounts(issues);
      g["HIGH"] + g["MEDIUM"] + g["LOW"] <= |issues|
    ensures var g := SeverityCounts(issues);
      g["HIGH"] + g["MEDIUM"] + g["LOW"] == |issues| <==>
        forall i :: 0 <= i < |issues| ==> KnownSeverity(SeverityOf(issues[i]))
  {
    if issues != [] {
      var init := issues[..|issues| - 1];
      SeverityCountsTotal(init);
      assert forall i :: 0 <= i < |init| ==> init[i] == issues[i];
    }
  }

  /** An issue without a severity counts as LOW. */
  lemma MissingSeverityIsLow(issues: seq<Issue>, issue: Issue)
    requires SeverityKey !in issue
    ensures SeverityCounts(issues + [issue]) == SeverityCounts(issues)["LOW" := CountOf(issues, "LOW") + 1]
  {
    var all := issues + [issue];
    assert all[..|issues|] == issues;
    assert SeverityOf(issue) == "LOW";
    assert CountOf(all, "HIGH") == CountOf(issues, "HIGH");
    assert CountOf(all, "MEDIUM") == CountOf(issues, "MEDIUM");
    assert CountOf(all, "LOW") == CountOf(issues, "LOW") + 1;
    assert SeverityCounts(issues)["LOW" := CountOf(issues, "LOW") + 1] ==
      map["HIGH" := CountOf(issues, "HIGH"), "MEDIUM" := CountOf(issues, "MEDIUM"), "LOW" := CountOf(issues, "LOW") + 1];
  }

  /** An issue whose severity is none of the three counts nowhere. */
  lemma UnknownSeverityIgnored(issues: seq<Issue>, issue: Issue)
    requires !KnownSeverity(SeverityOf(issue))
    ensures SeverityCounts(issues + [issue]) == SeverityCounts(issues)
  {
    var all := issues + [issue];
    assert all[..|issues|] == issues;
    assert CountOf(all, "HIGH") == CountOf(issues, "HIGH");
    assert CountOf(all, "MEDIUM") == CountOf(issues, "MEDIUM");
    assert CountOf(all, "LOW") == CountOf(issues, "LOW");
  }
}
