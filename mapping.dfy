/** Mapping rules and the version-gated rewrite they drive. A rule names a
    deprecated API (the text to find), its supported replacement, and the
    Kubernetes versions in which the API was deprecated and removed. Rules
    are applied in table order, each to the text the earlier rules left. */
module Mapping {
  import opened Text
  import Semver

  /** One entry of the mapping file; an unset version is the empty string. */
  datatype Rule = Rule(deprecatedAPI: string, newAPI: string,
                       deprecatedInVersion: string, removedInVersion: string)

  /** The rule's threshold: the deprecation version when one is given,
      otherwise the removal version. */
  function EffectiveVersion(r: Rule): (v: string)
    ensures r.deprecatedInVersion != "" ==> v == r.deprecatedInVersion
    ensures r.deprecatedInVersion == "" ==> v == r.removedInVersion
    ensures v == "" <==> r.deprecatedInVersion == "" && r.removedInVersion == ""
  {
    if r.deprecatedInVersion != "" then r.deprecatedInVersion else r.removedInVersion
  }

  /** The version gate: the rule's threshold does not compare above the
      cluster's version. */
  predicate Applies(r: Rule, clusterVersion: string)
    ensures EffectiveVersion(r) == clusterVersion ==> Applies(r, clusterVersion)
  {
    Semver.Compare(EffectiveVersion(r), clusterVersion) <= 0
  }

  /** Where the gate stands by validity alone: a threshold the version
      parser rejects always lets its rule through, and a valid threshold
      never does against a cluster version the parser rejects. */
  lemma AppliesByValidity(r: Rule, clusterVersion: string)
    ensures !Semver.IsValid(EffectiveVersion(r)) ==> Applies(r, clusterVersion)
    ensures Semver.IsValid(EffectiveVersion(r)) && !Semver.IsValid(clusterVersion) ==> !Applies(r, clusterVersion)
  {
  }

  /** The text after one rule: every match replaced when the gate lets the
      rule through, the text as it was otherwise. */
  function ApplyRule(text: string, r: Rule, clusterVersion: string): (t: string)
    ensures t == text || (Applies(r, clusterVersion) && t == ReplaceAll(text, r.deprecatedAPI, r.newAPI))
    ensures |r.newAPI| == |r.deprecatedAPI| ==> |t| == |text|
  {
    if Applies(r, clusterVersion) then ReplaceAll(text, r.deprecatedAPI, r.newAPI) else text
  }

  /** The text after a whole table, rule by rule in table order. */
  function ApplyRules(text: string, rules: seq<Rule>, clusterVersion: string): (t: string)
    ensures (forall i :: 0 <= i < |rules| ==> |rules[i].newAPI| == |rules[i].deprecatedAPI|) ==> |t| == |text|
    decreases |rules|
  {
    if rules == [] then text
    else ApplyRule(ApplyRules(text, rules[..|rules| - 1], clusterVersion), rules[|rules| - 1], clusterVersion)
  }

  /** A rule changes the text exactly when its gate is open, its replacement
      differs from its pattern, and the pattern matches the current text. */
  lemma ApplyRuleChangesIff(text: string, r: Rule, clusterVersion: string)
    ensures ApplyRule(text, r, clusterVersion) != text <==>
      && Applies(r, clusterVersion)
      && r.newAPI != r.deprecatedAPI
      && (r.deprecatedAPI == [] || Contains(text, r.deprecatedAPI))
  {
    ReplaceAllChangesIff(text, r.deprecatedAPI, r.newAPI);
  }

  /** Applying a table in two parts is applying the first part and then the
      second to its result. */
  lemma {:induction false} ApplyRulesAppend(text: string, first: seq<Rule>, second: seq<Rule>, clusterVersion: string)
    ensures ApplyRules(text, first + second, clusterVersion) ==
            ApplyRules(ApplyRules(text, first, clusterVersion), second, clusterVersion)
    decreases |second|
  {
    if second == [] {
      assert first + second == first;
    } else {
      var n := |second|;
      ApplyRulesAppend(text, first, second[..n - 1], clusterVersion);
      assert (first + second)[..|first + second| - 1] == first + second[..n - 1];
      assert (first + second)[|first + second| - 1] == second[n - 1];
      assert ApplyRules(text, first + second, clusterVersion) ==
             ApplyRule(ApplyRules(text, first + second[..n - 1], clusterVersion), second[n - 1], clusterVersion);
    }
  }

  /** The first rule of the table sees the original text; the rest of the
      table sees its output. */
  lemma ApplyRulesFirst(text: string, r: Rule, rest: seq<Rule>, clusterVersion: string)
    ensures ApplyRules(text, [r] + rest, clusterVersion) ==
            ApplyRules(ApplyRule(text, r, clusterVersion), rest, clusterVersion)
  {
    ApplyRulesAppend(text, [r], rest, clusterVersion);
    assert [r][..0] == [];
  }

  /** A table none of whose rules passes the gate leaves the text alone. */
  lemma {:induction false} ApplyRulesGatedOff(text: string, rules: seq<Rule>, clusterVersion: string)
    requires forall i :: 0 <= i < |rules| ==> !Applies(rules[i], clusterVersion)
    ensures ApplyRules(text, rules, clusterVersion) == text
    decreases |rules|
  {
    if rules != [] {
      ApplyRulesGatedOff(text, rules[..|rules| - 1], clusterVersion);
    }
  }

  /** A table none of whose patterns ever matches leaves the text alone:
      every pattern is non-empty and absent from the text, and no rule's
      replacement can create a match because nothing is replaced. */
  lemma {:induction false} ApplyRulesNoMatch(text: string, rules: seq<Rule>, clusterVersion: string)
    requires forall i :: 0 <= i < |rules| ==> rules[i].deprecatedAPI != [] && !Contains(text, rules[i].deprecatedAPI)
    ensures ApplyRules(text, rules, clusterVersion) == text
    decreases |rules|
  {
    if rules != [] {
      var last := rules[|rules| - 1];
      ApplyRulesNoMatch(text, rules[..|rules| - 1], clusterVersion);
      ReplaceAllNoMatch(text, last.deprecatedAPI, last.newAPI);
    }
  }
}
