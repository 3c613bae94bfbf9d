# helm-mapkubeapis: the manifest upgrade, in Dafny

This project models the part of helm-mapkubeapis that rewrites a Helm release manifest. In the repository that part is `ReplaceManifestUnSupportedAPIs` (pkg/common/common.go) and its copy in the sample program `main` (test.go). The properties of the model are proved.

The upgrade runs in two passes over the manifest text:

1. **Rule pass.** Each mapping rule is taken in table order. Its threshold is the version in which the API was deprecated, or the removal version when no deprecation version is given. In common.go the threshold must be a valid semantic version, otherwise the upgrade fails with a message naming the API. A candidate text replaces every match of the deprecated API with the new API. The candidate is adopted only when it differs from the current text and the threshold does not compare above the cluster's version. Each rule sees the text the earlier rules left.
2. **Document pass.** The text is split on `---`. Pieces without `apiVersion` are dropped. For a Deployment, `spec.selector.matchLabels` is overwritten with the pod template's labels and the document is re-encoded. For an Ingress, the ownership fields are fixed and the document is re-encoded. Any other piece is emitted verbatim behind `---`. Output order is input order.

The upgrade fails before any rewriting when the mapping file does not load, when the cluster's version cannot be read, or when that version is not valid. test.go pins the cluster version to `v1.16` and never validates a threshold. Its Ingress fix clears the managed-by label and the release-name annotation, where common.go sets the managed-by annotation to `Helm` and the release-name annotation to the release label.

Modules:

- `Wrappers`: `Option` and `Result`, which stand in for Go's `(value, error)` pairs.
- `Text`: substring search, replace-all for a literal pattern, and `strings.Split`. `Join` is not `strings.Join`, which neither program calls; it is the inverse against which `Split` is proved lossless.
- `Semver`: parsing and ordering of `vMAJOR[.MINOR[.PATCH]]`, following `golang.org/x/mod/semver`.
- `Mapping`: the `Rule` record, the effective threshold, the version gate and the rule pass as a function (`ApplyRules`).
- `Manifest`: the Deployment record, the YAML codec as a parameter, and the document pass. The pass is a method (`NormalizeDocuments`) proved against a function (`NormalizedManifest`).
- `Common`: common.go. The error messages, the Helm-ownership fix, the rule loop with its error path, and `ReplaceManifestUnSupportedAPIs`.
- `MainPackage`: test.go. The pinned rule loop, the clearing fix, and `RunMain`.

Each loop of the source is a Dafny `method` with a `while` loop. Its invariant ties the accumulated text to a function over the rules or pieces processed so far, and the lemmas prove properties of those functions.

Two points of the code's behaviour are worth noting:

- Only the effective threshold is validated. So a rule whose deprecation version is set but invalid fails even when its removal version is valid (`Common.DeprecationVersionDecides`, `Common.RewriteFirstInvalid`).
- Both programs' Deployment fix overwrites only `matchLabels` from the template labels. `Labels` has the five keys the Go struct declares.

## Model

| member | source | states |
|---|---|---|
| Text.Contains | pkg/common/common.go:326 | `strings.Contains`: some index holds a copy of the pattern; a pattern longer than the text never occurs |
| Text.IndexOf | pkg/common/common.go:322 | `strings.Index`, used by the split: None exactly when the separator does not occur, otherwise a match position with no match before it |
| Text.Split | pkg/common/common.go:322 | `strings.Split` on a non-empty separator returns at least one piece |
| Text.JoinSplit | pkg/common/common.go:322 | splitting loses nothing: joining the pieces with the separator gives back the text |
| Text.SplitPiecesFree | pkg/common/common.go:322 | no piece of the split contains the separator |
| Text.SplitLeadingSeparator | pkg/common/common.go:322 | a text starting with `---` splits into an empty first piece followed by the pieces of the rest |
| Text.ReplaceAll | pkg/common/common.go:303 | the candidate text with every leftmost non-overlapping match replaced, as at test.go:170 too; a replacement no longer than a non-empty pattern never lengthens the text, one no shorter never shortens it, one of equal length keeps the length (see `ReplaceAllLength`, `ReplaceAllChangesIff`) |
| Text.ReplaceAllLength | pkg/common/common.go:302-303 | each replacement changes the length by the replacement's length minus the pattern's |
| Text.ReplaceAllNoMatch | pkg/common/common.go:302-303 | a non-empty pattern that does not occur leaves the text unchanged |
| Text.ReplaceAllSelf | pkg/common/common.go:302-303 | replacing a pattern with itself leaves the text unchanged |
| Text.ReplaceAllChangesIff | pkg/common/common.go:303-308 | the candidate differs from the text (the `modified` flag) exactly when the replacement differs from the pattern and the pattern is empty or occurs in the text |
| Text.ReplaceAllRemovesChar | pkg/common/common.go:295 | `strings.ReplaceAll(api, "\n", " ")` leaves no line break |
| Text.ReplaceAllCharwise | pkg/common/common.go:295 | replacing one character by another keeps the length, turns each occurrence into the new character and leaves every other character in place |
| Semver.Parse | pkg/common/common.go:280 | reads `vMAJOR[.MINOR[.PATCH]]`; an accepted string starts with `v` and a digit (the exact set of accepted strings is `ParseSpellings` with `ParseLongForm`, `ParseShortForm`, `ParseMajorOnly`) |
| Semver.IsValid | pkg/common/common.go:294 | `semver.IsValid`: the string parses; a valid string starts with `v` and a digit, and is one of the three spellings of its version (`ParseSpellings`) |
| Semver.ParseLongForm | pkg/common/common.go:280 | `vMAJOR.MINOR.PATCH` with valid numerals is valid and reads as its three fields |
| Semver.ParseShortForm | pkg/common/common.go:280 | `vMAJOR.MINOR` is valid and reads PATCH as 0 |
| Semver.ParseFormat | pkg/common/common.go:280 | every version parses back from its canonical `vMAJOR.MINOR.PATCH` spelling |
| Semver.ParseMajorOnly | pkg/common/common.go:280 | `vMAJOR` is valid and reads MINOR and PATCH as 0 |
| Semver.NumeralDecimal | pkg/common/common.go:280 | a numeric field without a leading zero is the decimal numeral of its value, so each number has one spelling |
| Semver.ParseSpellings | pkg/common/common.go:280 | an accepted string is `vMAJOR.MINOR.PATCH`, `vMAJOR.MINOR` with PATCH 0, or `vMAJOR` with MINOR and PATCH 0, in decimal without leading zeros: no other string is valid |
| Semver.Compare | pkg/common/common.go:310 | `semver.Compare` returns -1, 0 or 1 |
| Semver.CompareAntisymmetric | pkg/common/common.go:310 | swapping the operands negates the comparison |
| Semver.CompareTransitive | pkg/common/common.go:310 | "at or below" is transitive |
| Semver.CompareZeroIff | pkg/common/common.go:310 | two valid strings compare equal exactly when they denote the same version |
| Semver.InvalidBelowValid | pkg/common/common.go:310 | an invalid version string orders below every valid one |
| Semver.ParseV116 | test.go:177 | the pinned cluster version `v1.16` is valid and is version 1.16.0 |
| Mapping.EffectiveVersion | pkg/common/common.go:288-293 | the threshold is the deprecation version when that is set and the removal version otherwise, so it is empty exactly when both are |
| Mapping.Applies | pkg/common/common.go:309-310 | the gate: the threshold does not compare above the cluster version, as `semver.Compare(...) > 0` skips the rule; a rule whose threshold is the cluster version itself passes (see `AppliesByValidity`, `ApplyRuleChangesIff`) |
| Mapping.AppliesByValidity | pkg/common/common.go:309-310 | an invalid threshold always passes the gate; a valid one never passes against an invalid cluster version |
| Mapping.ApplyRule | pkg/common/common.go:298-317 | one rule leaves the text as it is, or, when its gate is open, gives the candidate text; a same-length rename keeps the length (see `ApplyRuleChangesIff`) |
| Mapping.ApplyRules | pkg/common/common.go:285-318 | the table's rules applied in table order, each to the previous output; a table of same-length renames keeps the length (see `ApplyRulesAppend`, `ApplyRulesFirst`) |
| Mapping.ApplyRuleChangesIff | pkg/common/common.go:303-316 | one rule changes the text exactly when its threshold is at or below the cluster version, its replacement differs from its pattern, and the pattern is empty or occurs |
| Mapping.ApplyRulesAppend | pkg/common/common.go:285-318 | applying a table in two parts is applying the second part to the output of the first: each rule sees the cumulative text |
| Mapping.ApplyRulesFirst | pkg/common/common.go:285-318 | the first rule sees the original text and the rest of the table sees its output |
| Mapping.ApplyRulesGatedOff | pkg/common/common.go:309-313 | a table whose thresholds all compare above the cluster version leaves the text unchanged |
| Mapping.ApplyRulesNoMatch | pkg/common/common.go:303-308 | a table whose non-empty patterns do not occur in the text leaves the text unchanged |
| Manifest.Classify | pkg/common/common.go:329-348 | a piece is a Deployment exactly when its Deployment-shaped decode has kind `Deployment`, an Ingress (decoded again in the Ingress shape) exactly when that kind is `Ingress`, and otherwise keeps the raw piece |
| Manifest.AlignSelector | pkg/common/common.go:336 | the selector's `matchLabels` becomes the template labels and no other field changes |
| Manifest.Render | pkg/common/common.go:342-359 | every emitted document starts with `---`: a re-encoded Deployment or Ingress behind `---` and a line break, any other piece verbatim behind `---` |
| Manifest.EmitPiece | pkg/common/common.go:326-359 | a piece contributes nothing exactly when it has no `apiVersion`, and otherwise output starting with `---` (see `EmitDeployment`, `EmitIngress`, `EmitPassThrough`) |
| Manifest.AlignSelectorSpec | pkg/common/common.go:335-336 | the Deployment fix makes `matchLabels` equal the template labels, changes no other field, and leaves a consistent Deployment unchanged |
| Manifest.Normalize | pkg/common/common.go:335-351 | the field fix keeps the kind: a Deployment gets its selector aligned, an Ingress gets the Ingress fix, any other piece is left as it is |
| Manifest.NormalizedManifest | pkg/common/common.go:320-361 | the document pass's output is empty or starts with `---`, and an empty manifest gives an empty output (see `RecomposeOutput`, `RecomposeAppend`, `NormalizedManifestIdentity`) |
| Manifest.RecomposeOutput | pkg/common/common.go:325-361 | the concatenated outputs of any pieces are empty or start with `---`; a lone empty piece gives nothing |
| Manifest.NormalizeDocuments | pkg/common/common.go:320-361 | the document loop's output is the in-order concatenation of each piece's output (`NormalizedManifest`) |
| Manifest.EmitDropped | pkg/common/common.go:326-328 | a piece without `apiVersion` contributes nothing |
| Manifest.EmitPassThrough | pkg/common/common.go:358-359 | a resource piece that is neither a Deployment nor an Ingress is emitted byte for byte behind `---` |
| Manifest.EmitDeployment | pkg/common/common.go:335-342 | a Deployment is re-encoded behind `---\n` with `matchLabels` equal to its decoded template labels and every other decoded field unchanged |
| Manifest.EmitIngress | pkg/common/common.go:343-357 | an Ingress is decoded in the Ingress shape, fixed, and re-encoded behind `---\n` |
| Manifest.RecomposeAppend | pkg/common/common.go:325-361 | the output for consecutive runs of pieces is the concatenation of their outputs, so output order is input order |
| Manifest.Resources | pkg/common/common.go:326-328 | the `apiVersion` filter: every kept piece contains `apiVersion`, and every piece that contains it is kept |
| Manifest.RecomposeResources | pkg/common/common.go:326-328 | the output is the same whether or not the pieces without `apiVersion` are removed first |
| Manifest.RecomposePassThrough | pkg/common/common.go:322-360 | when every piece passes through, the output is `---` followed by the pieces joined with `---` |
| Manifest.NormalizedManifestIdentity | pkg/common/common.go:320-361 | a manifest made of `---` and pieces that all carry `apiVersion` and are neither Deployment nor Ingress comes out unchanged |
| Common.SetHelmOwnership | pkg/common/common.go:350-351 | the fixed Ingress is Helm-owned: managed-by is `Helm` and release-name is the release label (see `SetHelmOwnershipSpec`) |
| Common.SetHelmOwnershipSpec | pkg/common/common.go:350-351 | after the Ingress fix, managed-by is `Helm` and release-name is the release label; no other field changes; an owned Ingress is unchanged |
| Common.LoadErrorMessage | pkg/common/common.go:272 | the wrapped load error starts with `Failed to load mapping file: ` and the file name, and ends with the cause |
| Common.RuleVersionErrorMessage | pkg/common/common.go:295 | the invalid-threshold message starts with the fixed prefix and is as long as the prefix and the API together (its content is `RuleVersionErrorMessageNamesAPI`) |
| Common.RuleVersionErrorMessageNamesAPI | pkg/common/common.go:295 | after the prefix, the message is the deprecated API character by character, with each line break made a space |
| Common.RuleVersionErrorMessageOneLine | pkg/common/common.go:294-296 | the invalid-threshold message holds no line break, whatever the API text |
| Common.RewriteStep | pkg/common/common.go:289-317 | one iteration of the rule loop: an earlier error is kept; otherwise it succeeds exactly when the rule's threshold is valid, with the rule applied to the text |
| Common.Rewrite | pkg/common/common.go:285-318 | the rule loop with its error path; on success its text is the gated rewrite of the whole table (see `RewriteSuccess`, `RewriteFirstInvalid`) |
| Common.RewriteSuccess | pkg/common/common.go:285-318 | the rule pass succeeds exactly when every threshold is valid, and its text is then the gated rewrite of the whole table |
| Common.RewriteFailurePersists | pkg/common/common.go:294-296 | once a rule fails, the pass fails with that error and later rules are not looked at |
| Common.DeprecationVersionDecides | pkg/common/common.go:289-296 | when a deprecation version is set, the rule fails exactly when that version is invalid, whatever the removal version holds |
| Common.RewriteFirstInvalid | pkg/common/common.go:289-296 | the error names, with line breaks made spaces, the deprecated API of the first rule whose effective threshold is invalid |
| Common.RewriteDeprecatedAPIs | pkg/common/common.go:285-318 | the rule loop returns the rule pass's text, or `""` and the pass's error |
| Common.ReplaceManifestUnSupportedAPIs | pkg/common/common.go:265-364 | the function returns the upgrade's output and no error, or `""` and the upgrade's error |
| Common.Upgrade | pkg/common/common.go:265-364 | the whole upgrade; success implies the table loaded and the cluster version was read and is valid, and its output is the document pass over the gated rewrite (see `UpgradeSuccess`) |
| Common.UpgradeSuccess | pkg/common/common.go:265-364 | the upgrade succeeds exactly when the table loads, the cluster version is read and valid, and every threshold is valid; its output is then the document pass over the gated rewrite |
| Common.UpgradeLoadFailure | pkg/common/common.go:271-273 | a mapping file that does not load fails the upgrade with the wrapped load error |
| Common.UpgradeInvalidClusterVersion | pkg/common/common.go:280-282 | an invalid cluster version fails the upgrade with the server-version error, whatever the rules |
| Common.UpgradeNothingDue | pkg/common/common.go:309-313 | when every threshold is above the cluster version, the output is the document pass over the original text |
| MainPackage.ClearOwnership | test.go:217-218 | the fixed Ingress has neither ownership field (see `ClearOwnershipSpec`) |
| MainPackage.ClearOwnershipSpec | test.go:217-218 | after the fix, the managed-by label and the release-name annotation are empty whatever they held; no other field changes |
| MainPackage.RewriteDeprecatedAPIs | test.go:155-185 | the rule loop returns the gated rewrite of the whole table at `v1.16`, with no error path |
| MainPackage.RunMain | test.go:143-230 | nothing is printed when the mapping fails to load; otherwise the document pass over the rewrite is printed with a trailing line break |
| MainPackage.InvalidThresholdApplies | test.go:158-183 | an invalid threshold orders below `v1.16`, so its rule is always applied |
| MainPackage.ValidThresholdGate | test.go:176-183 | a rule with a valid threshold is skipped exactly when that version is above 1.16.0 |
| MainPackage.SameRulePassAsUpgrade | test.go:155-185 | on a table with only valid thresholds, the rule pass equals the upgrade's rule pass at cluster version `v1.16` |

## Left out

- Reading the cluster's version (`getKubernetesServerVersion`, pkg/common/common.go:366-376) is a network call. Its outcome, a version string or an error message, is the input `serverVersion`.
- Loading the mapping file (`mapping.LoadMapfile`) is file I/O in a package that is not part of this model. Its outcome, the rule table or an error message, is the input `mapping`.
- Text.ReplaceAll: the deprecated API is compiled as a regular expression in the source. The model treats it as a literal pattern, with leftmost non-overlapping matches, and an empty pattern matching at every position. Regular-expression metacharacters, `$` expansion in the replacement, and the panic on an invalid pattern are not modelled.
- The YAML codec (`yaml.Unmarshal`/`yaml.Marshal`) is a parameter (`Manifest.Codec`). The model does not capture YAML text, field order, fields that the Go structs do not declare (which the codec drops), or what a decode error leaves in the record. Container, probe and volume fields sit in an opaque string.
- Logging (`log.Printf`) is left out. So is the process exit through `log.Fatalf` when encoding fails: the codec's encode functions are total.
- Semver.Parse: pre-release and build suffixes (`-rc.1`, `+meta`) are not modelled. A string carrying one is treated as invalid, whereas `golang.org/x/mod/semver` accepts it.
- MainPackage.RunMain: the manifest literal embedded in test.go is the parameter `origManifest`. The mapping file's fixed path is not modelled.
- The `KubeConfig`/`MapOptions` configuration records, `UpgradeDescription`, and the unused `ManifestYaml` record are not part of the transformation.
- Idempotence of the whole upgrade is not claimed. A rule whose new API contains its deprecated API would rewrite again on a second run.
