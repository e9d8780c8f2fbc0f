/**
 * `_group_ruff_issues` of scripts/quality_metrics.py: ruff's findings
 * counted per rule code. (Its `_group_bandit_issues` is the same code as
 * `_group_security_issues` and is modelled by
 * SecurityScanner.GroupSecurityIssues.)
 */
module QualityMetrics {
  import opened Counting

  /** A ruff finding, as its JSON object. */
  type Issue = map<string, string>

  const CodeKey: string := "code"

  /** `issue.get("code", "unknown")` */
  function CodeOf(issue: Issue): string {
    if CodeKey in issue then issue[CodeKey] else "unknown"
  }

  /** The code of each issue, in order. */
  function Codes(issues: seq<Issue>): (codes: seq<string>)
    ensures |codes| == |issues|
    ensures forall i :: 0 <= i < |issues| ==> codes[i] == CodeOf(issues[i])
  {
    seq(|issues|, i requires 0 <= i < |issues| => CodeOf(issues[i]))
  }

  /** `_group_ruff_issues(issues)`: a counter per code, created at 0 the
      first time the code is seen and bumped for every issue. */
  method GroupRuffIssues(issues: seq<Issue>) returns (groups: map<string, nat>)
    ensures groups == Frequencies(Codes(issues))
  {
    groups := map[];
    for i := 0 to |issues|
      invariant groups == Frequencies(Codes(issues[..i]))
    {
      var code := CodeOf(issues[i]);
      assert Codes(issues[..i + 1]) == Codes(issues[..i]) + [code];
      FrequenciesAppend(Codes(issues[..i]), code);
      if code !in groups {
        groups := groups[code := 0];
      }
      groups := groups[code := groups[code] + 1];
    }
    assert issues[..|issues|] == issues;
  }

  /** The keys are the codes that occur, with "unknown" for an issue that
      has none. */
  lemma RuffGroupsKeys(issues: seq<Issue>)
    ensures Frequencies(Codes(issues)).Keys == (set i | 0 <= i < |issues| :: CodeOf(issues[i]))
  {
    var codes := Codes(issues);
    FrequenciesKeys(codes);
    forall x | x in codes ensures exists i :: 0 <= i < |issues| && CodeOf(issues[i]) == x {
      var i :| 0 <= i < |codes| && codes[i] == x;
    }
  }

  /** Each count is the number of issues with that code, so at least 1. */
  lemma RuffGroupsCounts(issues: seq<Issue>)
    ensures var groups := Frequencies(Codes(issues));
      forall code :: code in groups ==> groups[code] == multiset(Codes(issues))[code] >= 1
  {
    var codes := Codes(issues);
    forall code | code in Frequencies(codes) ensures Frequencies(codes)[code] == multiset(codes)[code] >= 1 {
      FrequenciesCount(codes, code);
    }
  }

  /** The counts add up to the number of issues. */
  lemma RuffGroupsSum(issues: seq<Issue>)
    ensures SumValues(Frequencies(Codes(issues))) == |issues|
  {
    FrequenciesSum(Codes(issues));
  }

  /** An issue without a code is counted under "unknown". */
  lemma MissingCodeIsUnknown(issues: seq<Issue>, i: nat)
    requires i < |issues| && CodeKey !in issues[i]
    ensures "unknown" in Frequencies(Codes(issues))
  {
    var codes := Codes(issues);
    assert codes[i] == "unknown";
    FrequenciesCount(codes, "unknown");
  }
}
