/** The sample program's `main` (test.go): the same two passes as the
    upgrade, with the cluster version pinned to "v1.16", no validation of
    rule thresholds, and an Ingress fix that clears the ownership fields
    instead of setting them. The embedded manifest literal is the parameter
    `origManifest`; loading the mapping file is the input `mapping`. */
module MainPackage {
  import opened Wrappers
  import opened Text
  import Semver
  import opened Mapping
  import opened Manifest
  import Common

  /** The cluster version every rule is gated against. */
  const PinnedClusterVersion := "v1.16"

  /** The label keys this program's Ingress shape declares. */
  datatype IngressLabels = IngressLabels(
    app: string,
    chart: string,
    release: string,
    heritage: string,
    managedBy: string)               // app.kubernetes.io/managed-by, omitted when ""

  /** The annotation keys this program's Ingress shape declares. */
  datatype Annotations = Annotations(
    tlsAcme: string,
    ingressClass: string,
    proxyBodySize: string,
    releaseName: string)             // meta.helm.sh/release-name, omitted when ""

  datatype Ingress = Ingress(
    apiVersion: string,
    kind: string,
    name: string,
    labels: IngressLabels,
    annotations: Annotations,
    spec: string)

  /** Neither ownership field is present. */
  predicate OwnershipCleared(i: Ingress) {
    i.labels.managedBy == "" && i.annotations.releaseName == ""
  }

  /** This program's Ingress fix: blank the managed-by label and the
      release-name annotation. */
  function ClearOwnership(i: Ingress): (r: Ingress)
    ensures OwnershipCleared(r)
  {
    i.(labels := i.labels.(managedBy := ""), annotations := i.annotations.(releaseName := ""))
  }

  /** Whatever the input holds, both ownership fields come out empty; no
      other field changes; clearing twice is clearing once. */
  lemma ClearOwnershipSpec(i: Ingress)
    ensures OwnershipCleared(ClearOwnership(i))
    ensures ClearOwnership(i).(labels := i.labels, annotations := i.annotations) == i
    ensures ClearOwnership(i).labels.(managedBy := i.labels.managedBy) == i.labels
    ensures ClearOwnership(i).annotations.(releaseName := i.annotations.releaseName) == i.annotations
    ensures OwnershipCleared(i) ==> ClearOwnership(i) == i
  {
  }

  /** The rule loop of `main`: the candidate text of each rule is adopted
      when it differs from the current text and the rule's threshold does not
      compare above "v1.16". A threshold is never validated. */
  method RewriteDeprecatedAPIs(manifest: string, rules: seq<Rule>) returns (modifiedManifest: string)
    ensures modifiedManifest == ApplyRules(manifest, rules, PinnedClusterVersion)
  {
    modifiedManifest := manifest;
    var i := 0;
    while i < |rules|
      invariant 0 <= i <= |rules|
      invariant modifiedManifest == ApplyRules(manifest, rules[..i], PinnedClusterVersion)
    {
      var rule := rules[i];
      assert rules[..i + 1][..i] == rules[..i];
      var apiVersionStr := if rule.deprecatedInVersion != "" then rule.deprecatedInVersion else rule.removedInVersion;
      var modManifestForAPI := ReplaceAll(modifiedManifest, rule.deprecatedAPI, rule.newAPI);
      var modified := modManifestForAPI != modifiedManifest;
      if modified {
        if Semver.Compare(apiVersionStr, PinnedClusterVersion) > 0 {
          // not yet deprecated or removed at the pinned version
        } else {
          modifiedManifest := modManifestForAPI;
        }
      }
      i := i + 1;
    }
    assert rules[..i] == rules;
  }

  /** `main`: nothing is printed when the mapping file fails to load;
      otherwise the normalized manifest is printed followed by a line break. */
  method RunMain(origManifest: string, mapping: Result<seq<Rule>, string>, codec: Codec<Ingress>)
    returns (stdout: Option<string>)
    ensures mapping.Failure? ==> stdout == None
    ensures mapping.Success? ==>
      stdout == Some(NormalizedManifest(codec, ClearOwnership, ApplyRules(origManifest, mapping.value, PinnedClusterVersion)) + "\n")
  {
    if mapping.Failure? {
      return None;
    }
    var modifiedManifest := RewriteDeprecatedAPIs(origManifest, mapping.value);
    var finalManifest := NormalizeDocuments(modifiedManifest, codec, ClearOwnership);
    stdout := Some(finalManifest + "\n");
  }

  /** A threshold the version parser rejects orders below "v1.16", so its
      rule is always applied: where the upgrade stops with an error, this
      program rewrites. */
  lemma InvalidThresholdApplies(text: string, r: Rule)
    requires !Semver.IsValid(EffectiveVersion(r))
    ensures ApplyRule(text, r, PinnedClusterVersion) == ReplaceAll(text, r.deprecatedAPI, r.newAPI)
  {
    Semver.ParseV116();
    Semver.InvalidBelowValid(EffectiveVersion(r), PinnedClusterVersion);
  }

  /** For a valid threshold the gate is a comparison with version 1.16.0:
      a rule is skipped exactly when its threshold is a later version. */
  lemma ValidThresholdGate(text: string, r: Rule, v: Semver.Version)
    requires Semver.Parse(EffectiveVersion(r)) == Some(v)
    ensures ApplyRule(text, r, PinnedClusterVersion) ==
      if Semver.CompareVersions(v, Semver.Version(1, 16, 0)) > 0 then text
      else ReplaceAll(text, r.deprecatedAPI, r.newAPI)
  {
    Semver.ParseV116();
  }

  /** On a table whose thresholds are all valid, the rule pass of `main` is
      the upgrade's rule pass at cluster version "v1.16". */
  lemma SameRulePassAsUpgrade(text: string, rules: seq<Rule>)
    requires Common.AllThresholdsValid(rules)
    ensures Common.Rewrite(text, rules, PinnedClusterVersion) == Success(ApplyRules(text, rules, PinnedClusterVersion))
  {
    Common.RewriteSuccess(text, rules, PinnedClusterVersion);
  }
}
