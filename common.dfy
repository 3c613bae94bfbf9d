/** The upgrade of one release manifest (`ReplaceManifestUnSupportedAPIs`):
    load the mapping table, read and validate the cluster's version, run the
    version-gated rule pass over the whole text, then the document pass, in
    which an Ingress is marked as managed by Helm under its release's name.

    Loading the mapping file and asking the cluster for its version are
    outside this model: their outcomes are the inputs `mapping` and
    `serverVersion`. Errors are modelled by their messages. */
module Common {
  import opened Wrappers
  import opened Text
  import Semver
  import opened Mapping
  import opened Manifest

  /** The label keys the Ingress shape declares. */
  datatype IngressLabels = IngressLabels(app: string, chart: string, release: string, heritage: string)

  /** The annotation keys the Ingress shape declares; an absent one is "". */
  datatype Annotations = Annotations(
    tlsAcme: string,                 // kubernetes.io/tls-acme
    ingressClass: string,            // kubernetes.io/ingress.class
    proxyBodySize: string,           // nginx.ingress.kubernetes.io/proxy-body-size
    managedBy: string,               // app.kubernetes.io/managed-by
    releaseName: string)             // meta.helm.sh/release-name

  /** A piece decoded into the Ingress shape, with `spec` (TLS and rules) opaque. */
  datatype Ingress = Ingress(
    apiVersion: string,
    kind: string,
    name: string,
    labels: IngressLabels,
    annotations: Annotations,
    spec: string)

  const HelmManager := "Helm"

  /** An Ingress that declares Helm as its manager and its own release label
      as its release name. */
  predicate HelmOwned(i: Ingress) {
    i.annotations.managedBy == HelmManager && i.annotations.releaseName == i.labels.release
  }

  /** The Ingress fix: take ownership for Helm under the release label. */
  function SetHelmOwnership(i: Ingress): (r: Ingress)
    ensures HelmOwned(r)
  {
    i.(annotations := i.annotations.(managedBy := HelmManager, releaseName := i.labels.release))
  }

  /** The fix makes the Ingress Helm-owned, touches only the two ownership
      annotations, and leaves an Ingress that is already Helm-owned as it is. */
  lemma SetHelmOwnershipSpec(i: Ingress)
    ensures HelmOwned(SetHelmOwnership(i))
    ensures SetHelmOwnership(i).annotations.(managedBy := i.annotations.managedBy,
                                             releaseName := i.annotations.releaseName) == i.annotations
    ensures SetHelmOwnership(i).(annotations := i.annotations) == i
    ensures HelmOwned(i) ==> SetHelmOwnership(i) == i
  {
  }

  const ClusterVersionError := "Failed to get Kubernetes server version"

  /** `errors.Wrapf(cause, "Failed to load mapping file: %s", mapFile)`. */
  function LoadErrorMessage(mapFile: string, cause: string): (m: string)
    ensures "Failed to load mapping file: " + mapFile <= m
    ensures |m| >= |cause| && m[|m| - |cause|..] == cause
  {
    "Failed to load mapping file: " + mapFile + ": " + cause
  }

  const RuleVersionErrorPrefix := "Failed to get the deprecated " + "or removed Kubernetes " + "version for API: "

  /** The message for a rule without a valid threshold: it names the
      deprecated API with its line breaks turned into spaces. */
  function RuleVersionErrorMessage(deprecatedAPI: string): (m: string)
    ensures RuleVersionErrorPrefix <= m
    ensures |m| == |RuleVersionErrorPrefix| + |deprecatedAPI|
  {
    RuleVersionErrorPrefix + ReplaceAll(deprecatedAPI, "\n", " ")
  }

  /** After the prefix, the message is the deprecated API character by
      character, with each line break turned into a space. */
  lemma RuleVersionErrorMessageNamesAPI(deprecatedAPI: string)
    ensures forall j :: 0 <= j < |deprecatedAPI| ==>
      RuleVersionErrorMessage(deprecatedAPI)[|RuleVersionErrorPrefix| + j] ==
      (if deprecatedAPI[j] == '\n' then ' ' else deprecatedAPI[j])
  {
    ReplaceAllCharwise(deprecatedAPI, '\n', ' ');
    assert " " == [' '];
  }

  /** The rule error is a single line whatever the API text. */
  lemma RuleVersionErrorMessageOneLine(deprecatedAPI: string)
    ensures '\n' !in RuleVersionErrorMessage(deprecatedAPI)
  {
    PrefixOneLine();
    ReplaceAllRemovesChar(deprecatedAPI, '\n', " ");
  }

  lemma PrefixOneLine()
    ensures '\n' !in RuleVersionErrorPrefix
  {
    assert '\n' !in "Failed to get the deprecated ";
    assert '\n' !in "or removed Kubernetes ";
    assert '\n' !in "version for API: ";
  }

  /** The rule pass with its error path: rules in table order, each first
      checked for a valid threshold, then applied through the version gate. */
  function Rewrite(text: string, rules: seq<Rule>, kubeVersion: string): (r: Result<string, string>)
    ensures r.Success? ==> r.value == ApplyRules(text, rules, kubeVersion)
    decreases |rules|
  {
    if rules == [] then Success(text)
    else RewriteStep(Rewrite(text, rules[..|rules| - 1], kubeVersion), rules[|rules| - 1], kubeVersion)
  }

  /** One rule of the pass: an earlier error stands; otherwise the rule's
      threshold is checked, then the rule is applied through the gate. */
  function RewriteStep(prev: Result<string, string>, r: Rule, kubeVersion: string): (next: Result<string, string>)
    ensures prev.Failure? ==> next == prev
    ensures next.Success? <==> prev.Success? && Semver.IsValid(EffectiveVersion(r))
    ensures next.Success? ==> next.value == ApplyRule(prev.value, r, kubeVersion)
  {
    if prev.Failure? then prev
    else if !Semver.IsValid(EffectiveVersion(r)) then Failure(RuleVersionErrorMessage(r.deprecatedAPI))
    else Success(ApplyRule(prev.value, r, kubeVersion))
  }

  /** A deprecation version that is set decides the rule's fate on its
      own: the rule fails exactly when that version is invalid, whatever
      the removal version holds. */
  lemma DeprecationVersionDecides(text: string, r: Rule, kubeVersion: string)
    requires r.deprecatedInVersion != ""
    ensures RewriteStep(Success(text), r, kubeVersion).Success? <==> Semver.IsValid(r.deprecatedInVersion)
    ensures !Semver.IsValid(r.deprecatedInVersion) ==>
            RewriteStep(Success(text), r, kubeVersion) == Failure(RuleVersionErrorMessage(r.deprecatedAPI))
  {
  }

  /** Every rule of the table has a threshold the version parser accepts. */
  predicate AllThresholdsValid(rules: seq<Rule>) {
    forall i :: 0 <= i < |rules| ==> Semver.IsValid(EffectiveVersion(rules[i]))
  }

  lemma AllThresholdsValidSnoc(rules: seq<Rule>)
    requires rules != []
    ensures AllThresholdsValid(rules) <==>
            AllThresholdsValid(rules[..|rules| - 1]) && Semver.IsValid(EffectiveVersion(rules[|rules| - 1]))
  {
    assert rules == rules[..|rules| - 1] + [rules[|rules| - 1]];
  }

  /** The rule pass succeeds exactly when every threshold is valid, and then
      its text is the gated rewrite of the whole table. */
  lemma {:induction false} RewriteSuccess(text: string, rules: seq<Rule>, kubeVersion: string)
    ensures Rewrite(text, rules, kubeVersion).Success? <==> AllThresholdsValid(rules)
    ensures Rewrite(text, rules, kubeVersion).Success? ==>
            Rewrite(text, rules, kubeVersion).value == ApplyRules(text, rules, kubeVersion)
    decreases |rules|
  {
    if rules != [] {
      var init, last := rules[..|rules| - 1], rules[|rules| - 1];
      RewriteSuccess(text, init, kubeVersion);
      AllThresholdsValidSnoc(rules);
      assert Rewrite(text, rules, kubeVersion) == RewriteStep(Rewrite(text, init, kubeVersion), last, kubeVersion);
      assert ApplyRules(text, rules, kubeVersion) == ApplyRule(ApplyRules(text, init, kubeVersion), last, kubeVersion);
    }
  }

  /** Once a prefix of the table fails, the whole table fails the same way. */
  lemma {:induction false} RewriteFailurePersists(text: string, rules: seq<Rule>, n: nat, kubeVersion: string)
    requires n <= |rules| && Rewrite(text, rules[..n], kubeVersion).Failure?
    ensures Rewrite(text, rules, kubeVersion) == Rewrite(text, rules[..n], kubeVersion)
    decreases |rules| - n
  {
    if n == |rules| {
      assert rules[..n] == rules;
    } else {
      var init := rules[..|rules| - 1];
      assert init[..n] == rules[..n];
      RewriteFailurePersists(text, init, n, kubeVersion);
      assert Rewrite(text, rules, kubeVersion) == RewriteStep(Rewrite(text, init, kubeVersion), rules[|rules| - 1], kubeVersion);
    }
  }

  /** The error names the first rule, in table order, whose threshold is
      invalid; the rules after it are never looked at. */
  lemma RewriteFirstInvalid(text: string, rules: seq<Rule>, k: nat, kubeVersion: string)
    requires k < |rules| && !Semver.IsValid(EffectiveVersion(rules[k]))
    requires AllThresholdsValid(rules[..k])
    ensures Rewrite(text, rules, kubeVersion) == Failure(RuleVersionErrorMessage(rules[k].deprecatedAPI))
  {
    RewriteSuccess(text, rules[..k], kubeVersion);
    assert rules[..k + 1][..k] == rules[..k];
    assert Rewrite(text, rules[..k + 1], kubeVersion) == RewriteStep(Rewrite(text, rules[..k], kubeVersion), rules[k], kubeVersion);
    RewriteFailurePersists(text, rules, k + 1, kubeVersion);
  }

  /** The rule loop (common.go): each rule's threshold is validated, then its
      candidate text is adopted when it differs from the current text and the
      threshold does not compare above the cluster version. */
  method RewriteDeprecatedAPIs(manifest: string, rules: seq<Rule>, kubeVersion: string)
    returns (modifiedManifest: string, err: Option<string>)
    ensures err.None? ==> Rewrite(manifest, rules, kubeVersion) == Success(modifiedManifest)
    ensures err.Some? ==> modifiedManifest == "" && Rewrite(manifest, rules, kubeVersion) == Failure(err.value)
  {
    modifiedManifest := manifest;
    var i := 0;
    while i < |rules|
      invariant 0 <= i <= |rules|
      invariant Rewrite(manifest, rules[..i], kubeVersion) == Success(modifiedManifest)
    {
      var rule := rules[i];
      assert rules[..i + 1][..i] == rules[..i];
      assert Rewrite(manifest, rules[..i + 1], kubeVersion) ==
             RewriteStep(Rewrite(manifest, rules[..i], kubeVersion), rule, kubeVersion);
      var apiVersion := if rule.deprecatedInVersion != "" then rule.deprecatedInVersion else rule.removedInVersion;
      assert apiVersion == EffectiveVersion(rule);
      if !Semver.IsValid(apiVersion) {
        RewriteFailurePersists(manifest, rules, i + 1, kubeVersion);
        return "", Some(RuleVersionErrorMessage(rule.deprecatedAPI));
      }
      var modManifestForAPI := ReplaceAll(modifiedManifest, rule.deprecatedAPI, rule.newAPI);
      var modified := modManifestForAPI != modifiedManifest;
      if modified {
        if Semver.Compare(apiVersion, kubeVersion) > 0 {
          // the API is not yet deprecated or removed on this cluster
        } else {
          modifiedManifest := modManifestForAPI;
        }
      }
      i := i + 1;
    }
    assert rules[..i] == rules;
    err := None;
  }

  /** The whole upgrade, outcome by outcome. */
  function Upgrade(origManifest: string, mapFile: string, mapping: Result<seq<Rule>, string>,
                   serverVersion: Result<string, string>, codec: Codec<Ingress>): (r: Result<string, string>)
    ensures r.Success? ==> mapping.Success? && serverVersion.Success? && Semver.IsValid(serverVersion.value)
    ensures r.Success? ==>
      r.value == NormalizedManifest(codec, SetHelmOwnership, ApplyRules(origManifest, mapping.value, serverVersion.value))
  {
    match mapping
    case Failure(cause) => Failure(LoadErrorMessage(mapFile, cause))
    case Success(rules) =>
      match serverVersion
      case Failure(e) => Failure(e)
      case Success(kubeVersion) =>
        if !Semver.IsValid(kubeVersion) then Failure(ClusterVersionError)
        else match Rewrite(origManifest, rules, kubeVersion)
          case Failure(e) => Failure(e)
          case Success(text) => Success(NormalizedManifest(codec, SetHelmOwnership, text))
  }

  /** `ReplaceManifestUnSupportedAPIs`: the empty string and an error message,
      or the upgraded manifest and no error. */
  method ReplaceManifestUnSupportedAPIs(origManifest: string, mapFile: string,
                                        mapping: Result<seq<Rule>, string>,
                                        serverVersion: Result<string, string>,
                                        codec: Codec<Ingress>)
    returns (manifest: string, err: Option<string>)
    ensures err.None? ==> Upgrade(origManifest, mapFile, mapping, serverVersion, codec) == Success(manifest)
    ensures err.Some? ==>
      manifest == "" && Upgrade(origManifest, mapFile, mapping, serverVersion, codec) == Failure(err.value)
  {
    if mapping.Failure? {
      return "", Some(LoadErrorMessage(mapFile, mapping.error));
    }
    if serverVersion.Failure? {
      return "", Some(serverVersion.error);
    }
    var kubeVersionStr := serverVersion.value;
    if !Semver.IsValid(kubeVersionStr) {
      return "", Some(ClusterVersionError);
    }
    var modifiedManifest, rewriteErr := RewriteDeprecatedAPIs(origManifest, mapping.value, kubeVersionStr);
    if rewriteErr.Some? {
      return "", rewriteErr;
    }
    manifest := NormalizeDocuments(modifiedManifest, codec, SetHelmOwnership);
    err := None;
  }

  /** The upgrade succeeds exactly when the table loads, the cluster answers
      with a valid version and every rule has a valid threshold; its output
      is then the document pass over the gated rewrite. */
  lemma UpgradeSuccess(origManifest: string, mapFile: string, mapping: Result<seq<Rule>, string>,
                       serverVersion: Result<string, string>, codec: Codec<Ingress>)
    ensures Upgrade(origManifest, mapFile, mapping, serverVersion, codec).Success? <==>
      && mapping.Success? && serverVersion.Success?
      && Semver.IsValid(serverVersion.value)
      && AllThresholdsValid(mapping.value)
    ensures Upgrade(origManifest, mapFile, mapping, serverVersion, codec).Success? ==>
      (Upgrade(origManifest, mapFile, mapping, serverVersion, codec).value ==
       NormalizedManifest(codec, SetHelmOwnership, ApplyRules(origManifest, mapping.value, serverVersion.value)))
  {
    if mapping.Success? && serverVersion.Success? {
      RewriteSuccess(origManifest, mapping.value, serverVersion.value);
    }
  }

  /** A mapping file that does not load fails the upgrade with the wrapped
      load error, before the cluster is asked for its version. */
  lemma UpgradeLoadFailure(origManifest: string, mapFile: string, mapping: Result<seq<Rule>, string>,
                           serverVersion: Result<string, string>, codec: Codec<Ingress>)
    requires mapping.Failure?
    ensures Upgrade(origManifest, mapFile, mapping, serverVersion, codec) ==
            Failure(LoadErrorMessage(mapFile, mapping.error))
  {
  }

  /** An invalid cluster version fails the upgrade before any rule is looked
      at, whatever the rules say. */
  lemma UpgradeInvalidClusterVersion(origManifest: string, mapFile: string, rules: seq<Rule>,
                                     kubeVersion: string, codec: Codec<Ingress>)
    requires !Semver.IsValid(kubeVersion)
    ensures Upgrade(origManifest, mapFile, Success(rules), Success(kubeVersion), codec) == Failure(ClusterVersionError)
  {
  }

  /** When every rule's threshold is valid but above the cluster's version,
      no API is rewritten: the output is the document pass over the
      original text. */
  lemma UpgradeNothingDue(origManifest: string, mapFile: string, rules: seq<Rule>,
                          kubeVersion: string, codec: Codec<Ingress>)
    requires Semver.IsValid(kubeVersion) && AllThresholdsValid(rules)
    requires forall i :: 0 <= i < |rules| ==> Semver.Compare(EffectiveVersion(rules[i]), kubeVersion) > 0
    ensures Upgrade(origManifest, mapFile, Success(rules), Success(kubeVersion), codec) ==
            Success(NormalizedManifest(codec, SetHelmOwnership, origManifest))
  {
    RewriteSuccess(origManifest, rules, kubeVersion);
    ApplyRulesGatedOff(origManifest, rules, kubeVersion);
  }
}
