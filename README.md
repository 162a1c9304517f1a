# Elastic axis plugin: label-to-node resolver

This project models the core of the Jenkins *elastic axis* plugin. A matrix
project axis is configured with a label string such as
`"linux, windows || mac"`. When the axis is asked for its values, the label
string is split on commas and each piece is trimmed. Each trimmed term is
looked up in Jenkins' label registry. Every matching node that passes the
eligibility check (`shouldAddNode`) contributes its self label. The axis
exposes this through two call sites:

- `getValues` never restricts to online nodes, so it lists every matched node.
- `rebuild`, used when a build runs, restricts to online nodes when
  `ignoreOffline` is set.

The project also models the descriptor's form validation `doCheckLabelString`.
It splits the value on single spaces, not on commas. It then returns the first
per-piece check that is not ok, and ok when there is none.

Files:

- `java_strings.dfy` (module `JavaStrings`): Java's `String.split` for a
  one-character literal separator with limit 0, and `String.trim`. The split
  keeps the case where no separator occurs as `[s]`, so `""` gives `[""]`. It
  drops trailing empty pieces, so `",,"` gives `[]`. Trim removes characters
  up to U+0020 at both ends.
- `fleet.dfy` (module `Fleet`): nodes, their optional computer, and the
  registry. The registry is a fixed snapshot given as a function from a term
  to the nodes matching it.
- `elastic_axis.dfy` (module `ElasticAxisPlugin`): `shouldAddNode`, the
  resolver, `computeAllNodesInLabel`, and the axis with its getters,
  `getValues` and `rebuild`. The resolver exists in three forms. `Resolve` is a
  recursive fold. `ComputeNodesInLabel` is the method with the source's nested
  loops, proved equal to `Resolve`. The flat reading `Matched`/`Eligible`/
  `SelfLabels` is also proved equal to `Resolve`.
- `descriptor.dfy` (module `ElasticAxisDescriptor`): `checkOneLabel` with its
  blank rule, the `doCheckLabelString` loop, and lemmas about its result.

The axis object never reassigns its fields after construction. It is
therefore a datatype, and `NewElasticAxis` plays the constructor. The
constructor records the unrestricted values of the snapshot it is built
against, as the superclass constructor call does.

Behaviour of the code worth noting:

- The code performs no deduplication at all (`OccursOncePerMatch`,
  `MatchedByTwoTermsListedTwice`).
- The code has no "don't expand labels" (literal) mode and no
  `getDontExpandLabels`; the result is always the nodes' self labels.
- The code does not treat the empty label string as having no terms:
  `"".split(",")` is `[""]`, so the empty term is still looked up, and the
  result is empty only if the registry matches nothing for `""`
  (`EmptyLabelStringQueriesEmptyTerm`). A string made only of commas does
  have no terms (`OnlyCommasNoValues`).

## Model

| member | source | states |
|---|---|---|
| `ElasticAxisPlugin.ShouldAddNode` | src/main/java/org/jenkinsci/plugins/elasticaxisplugin/ElasticAxis.java:78-84 | `shouldAddNode` on a node's optional computer; its contract is `ShouldAddNodeCases`. |
| `ElasticAxisPlugin.ShouldAddNodeCases` | src/main/java/org/jenkinsci/plugins/elasticaxisplugin/ElasticAxis.java:78-84 | A node without a computer is always added. An unrestricted query adds every node. A restricted query adds a node with a computer iff it is (online or connecting) and accepting tasks. Anything added under the restriction is also added without it. |
| `ElasticAxisPlugin.ComputeNodesInLabel` | src/main/java/org/jenkinsci/plugins/elasticaxisplugin/ElasticAxis.java:65-76 | The nested loops over the split terms and each term's nodes build exactly `NodesInLabel` of the same label string, flag and snapshot. |
| `ElasticAxisPlugin.NodesInLabel` | src/main/java/org/jenkinsci/plugins/elasticaxisplugin/ElasticAxis.java:65-76 | The result is the self labels of the eligible nodes among all matched nodes, in term order and then registry order. Its length is the number of eligible (term, node) pairs. |
| `ElasticAxisPlugin.Eligible` | src/main/java/org/jenkinsci/plugins/elasticaxisplugin/ElasticAxis.java:70 | The kept nodes are exactly those of the input that pass `shouldAddNode`, and there are no more of them than input nodes. |
| `ElasticAxisPlugin.SelfLabels` | src/main/java/org/jenkinsci/plugins/elasticaxisplugin/ElasticAxis.java:71 | Position k of the result is the self-label expression of node k, and the lengths agree. |
| `ElasticAxisPlugin.ResolveIsFilterMap` | src/main/java/org/jenkinsci/plugins/elasticaxisplugin/ElasticAxis.java:66-72 | The fold over terms, then over nodes, equals the self labels of the eligible nodes of the flat concatenation of all terms' matches. |
| `ElasticAxisPlugin.ResolveAppend` | src/main/java/org/jenkinsci/plugins/elasticaxisplugin/ElasticAxis.java:67-73 | The result for two lists of terms is the result for the first followed by the result for the second (concatenation in term order, no sort). |
| `ElasticAxisPlugin.ResolveMembers` | src/main/java/org/jenkinsci/plugins/elasticaxisplugin/ElasticAxis.java:68-72 | A string is an entry iff it is the self label of some node that one of the terms matches and that passes `shouldAddNode`. |
| `ElasticAxisPlugin.MatchedByTwoTermsListedTwice` | src/main/java/org/jenkinsci/plugins/elasticaxisplugin/ElasticAxis.java:66-71 | No deduplication: an eligible node matched by two terms appears at least twice in the result. |
| `ElasticAxisPlugin.OccursOncePerMatch` | src/main/java/org/jenkinsci/plugins/elasticaxisplugin/ElasticAxis.java:66-72 | For any label string, a value occurs in the result exactly as many times as there are eligible (term, node) matches whose self label is that value. |
| `ElasticAxisPlugin.NoComputerAlwaysListed` | src/main/java/org/jenkinsci/plugins/elasticaxisplugin/ElasticAxis.java:70-79 | A matched node with no computer is listed whatever the restriction flag. |
| `ElasticAxisPlugin.UnrestrictedListsAllMatched` | src/main/java/org/jenkinsci/plugins/elasticaxisplugin/ElasticAxis.java:78-80 | Without the restriction, the result is the self label of every matched node. |
| `ElasticAxisPlugin.RestrictionMonotone` | src/main/java/org/jenkinsci/plugins/elasticaxisplugin/ElasticAxis.java:65-84 | For the same terms and snapshot, the restricted result is a subsequence of the unrestricted one. |
| `ElasticAxisPlugin.NoMatchesNoValues` | src/main/java/org/jenkinsci/plugins/elasticaxisplugin/ElasticAxis.java:68-72 | When no term matches any node, the result is empty whatever the flag. |
| `ElasticAxisPlugin.OnlyCommasNoValues` | src/main/java/org/jenkinsci/plugins/elasticaxisplugin/ElasticAxis.java:67 | A non-empty label string made only of commas has no terms and resolves to nothing, whatever the registry. |
| `ElasticAxisPlugin.EmptyLabelStringQueriesEmptyTerm` | src/main/java/org/jenkinsci/plugins/elasticaxisplugin/ElasticAxis.java:67-69 | The empty label string is looked up as the single term `""`. The result is the eligible self labels the registry gives for `""`. |
| `ElasticAxisPlugin.ComputeAllNodesInLabel` | src/main/java/org/jenkinsci/plugins/elasticaxisplugin/ElasticAxis.java:61-63 | It lists the self label of every matched node, whatever the nodes' computer state. |
| `ElasticAxisPlugin.ElasticAxis.GetValues` | src/main/java/org/jenkinsci/plugins/elasticaxisplugin/ElasticAxis.java:56-59 | It lists the self label of every node matched by the axis' terms, whatever `ignoreOffline` says. |
| `ElasticAxisPlugin.ElasticAxis.Rebuild` | src/main/java/org/jenkinsci/plugins/elasticaxisplugin/ElasticAxis.java:51-54 | Its result is the self labels of the matched nodes that pass `shouldAddNode` under `ignoreOffline`, term order then registry order. It is a subsequence of what `GetValues` gives for the same snapshot, so no value occurs more often. With `ignoreOffline` false it equals `GetValues`. |
| `ElasticAxisPlugin.NewElasticAxis` | src/main/java/org/jenkinsci/plugins/elasticaxisplugin/ElasticAxis.java:36-49 | The getters return the label string and flag given to the constructor. The recorded values are what `GetValues` gives on the construction-time snapshot. |
| `ElasticAxisPlugin.ControllerListedByBoth` | src/test/java/org/jenkinsci/plugins/elasticaxisplugin/ElasticAxisTest.java:116-124 | A matched node without a computer (the controller) is listed by both `Rebuild` and `GetValues`, for either value of `ignoreOffline`. |
| `ElasticAxisPlugin.NoMatchAxisEmpty` | src/test/java/org/jenkinsci/plugins/elasticaxisplugin/ElasticAxisTest.java:106-114 | If none of the axis' terms matches a node, both `Rebuild` and `GetValues` are empty. |
| `JavaStrings.TrimCuts` | src/main/java/org/jenkinsci/plugins/elasticaxisplugin/ElasticAxis.java:69 | The trimmed term is a contiguous piece of the input. Everything cut off is a character up to U+0020, and the piece neither starts nor ends with one. |
| `JavaStrings.TrimIdempotent` | src/main/java/org/jenkinsci/plugins/elasticaxisplugin/ElasticAxis.java:69 | Trimming a trimmed term changes nothing. |
| `JavaStrings.TrimBlank` | src/main/java/org/jenkinsci/plugins/elasticaxisplugin/ElasticAxis.java:106 | A piece made only of characters up to U+0020 trims to the empty string. |
| `JavaStrings.JoinPieces` | src/main/java/org/jenkinsci/plugins/elasticaxisplugin/ElasticAxis.java:67 | Joining the pieces of a string with the separator gives the string back. |
| `JavaStrings.PiecesUnique` | src/main/java/org/jenkinsci/plugins/elasticaxisplugin/ElasticAxis.java:67 | Any non-empty list of separator-free pieces that joins to the string is its list of pieces. |
| `JavaStrings.Split` | src/main/java/org/jenkinsci/plugins/elasticaxisplugin/ElasticAxis.java:67 | No piece of the split contains the separator. |
| `JavaStrings.SplitRecovers` | src/main/java/org/jenkinsci/plugins/elasticaxisplugin/ElasticAxis.java:67 | The split loses only empty trailing pieces: some number of empty pieces appended to it join back to the input. |
| `JavaStrings.SplitEmpty` | src/main/java/org/jenkinsci/plugins/elasticaxisplugin/ElasticAxis.java:67 | `"".split(sep)` is one empty piece. |
| `JavaStrings.SplitOnlySeparators` | src/main/java/org/jenkinsci/plugins/elasticaxisplugin/ElasticAxis.java:67 | A non-empty string made only of separators splits into no pieces. |
| `JavaStrings.SplitLastNonEmpty` | src/main/java/org/jenkinsci/plugins/elasticaxisplugin/ElasticAxis.java:67 | When the separator occurs, the split never ends with an empty piece. |
| `ElasticAxisDescriptor.CheckOneLabel` | src/main/java/org/jenkinsci/plugins/elasticaxisplugin/ElasticAxis.java:113-128 | An empty piece is `Ok` without calling the registry; any other piece gets the `LabelCheck` answer. Lines 117-127 are that input. |
| `ElasticAxisDescriptor.DoCheckLabelString` | src/main/java/org/jenkinsci/plugins/elasticaxisplugin/ElasticAxis.java:103-111 | The loop with early return gives the first result that is not ok among the trimmed space-separated pieces, and ok when there is none. |
| `ElasticAxisDescriptor.FirstFailureOkIff` | src/main/java/org/jenkinsci/plugins/elasticaxisplugin/ElasticAxis.java:103-111 | The validation is ok iff every trimmed piece checks ok. |
| `ElasticAxisDescriptor.FirstFailureIsFirst` | src/main/java/org/jenkinsci/plugins/elasticaxisplugin/ElasticAxis.java:105-108 | A result that is not ok is the check of some piece, and every earlier piece checks ok. |
| `ElasticAxisDescriptor.FirstFailureAppend` | src/main/java/org/jenkinsci/plugins/elasticaxisplugin/ElasticAxis.java:105-110 | Pieces after a failing prefix do not affect the result. After an all-ok prefix, the result is that of the rest. |
| `ElasticAxisDescriptor.BlankValueOk` | src/main/java/org/jenkinsci/plugins/elasticaxisplugin/ElasticAxis.java:104-115 | A value made only of whitespace validates ok whatever the registry says, because every piece is blank after trimming. |
| `ElasticAxisDescriptor.SeparatorAsymmetry` | src/main/java/org/jenkinsci/plugins/elasticaxisplugin/ElasticAxis.java:104 | For every string, a string with no space is a single validation piece and a string with no comma is a single resolver term. Concretely, `"a,b"` is two terms for the resolver but one piece for the validation, and `"a b"` is the other way round. |

## Left out

- The Jenkins runtime: `Jenkins.getInstance().getLabel`, `Label.getNodes`, `Node.toComputer`, `getSelfLabel().getExpression()` and the computer status calls. These become the `Registry` input and the `Node`/`Computer` records.
- Label-expression syntax (`||`, `&&`). The registry evaluates it, and here it is an opaque term.
- The registry's node collection. Jenkins returns a set of nodes per label. The model takes a sequence in iteration order, so it also covers a node listed twice for one term. The iteration order of the Jenkins set is not modelled.
- Concurrent changes to the fleet between the per-term lookups. Each call sees one fixed snapshot.
- `checkOneLabel` beyond its blank rule. The registry lookup, `listAtoms`, `LabelAtom.findNearest` and the localised warning messages are the `LabelCheck` input.
- `doAutoCompleteLabelString`. It is a UI endpoint and depends on `AutoCompleteSeeder`, which is not part of this model.
- `DescriptorImpl.newInstance` (form binding), `getDisplayName`, `@Extension`, and the `LabelAxis`/`Axis` superclass beyond the name and recorded values. Also left out: `Collections.unmodifiableList`, since a Dafny sequence is already immutable.
- `equals`/`hashCode` and the "don't expand labels" constructor and getter that the tests use. They are not in the modelled source.
- A null label string, and the `NullPointerException` it would raise in `split`. The model takes a string.
- Idempotence of resolution against an unchanged snapshot. Dafny functions are deterministic, so it holds by construction and is not stated as a lemma.
