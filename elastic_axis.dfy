/**
  The elastic axis of a Jenkins matrix project: a configured label string
  such as `"linux, windows || mac"` is resolved, term by term, into the self
  labels of the nodes that currently carry each term.

  - `ShouldAddNode` decides whether one matched node is kept.
  - `Resolve` is the resolver as the source writes it: an outer fold over the
    comma-separated terms and an inner fold over each term's nodes;
    `ComputeNodesInLabel` is the same fold written as the source's loops.
  - `Matched`, `Eligible` and `SelfLabels` give an independent, flat reading
    of the result (all matched nodes, then the eligible ones, then their self
    labels), and `ResolveIsFilterMap` proves the two readings equal.
  - `ElasticAxis` is the axis object with its two call sites: `GetValues`
    (never restricted) and `Rebuild` (restricted by `ignoreOffline`).
 */
module ElasticAxisPlugin {
  import opened Fleet
  import opened JavaStrings

  // ---------------------------------------------------------------------
  // Eligibility of one node

  /** `shouldAddNode`: a node without a computer is always kept; otherwise an
      unrestricted query keeps every node, and a restricted one keeps a node
      whose computer is online or connecting and accepts tasks. */
  function ShouldAddNode(restrictToOnlineNodes: bool, c: Option<Computer>): bool {
    if c.None? then true
    else if !restrictToOnlineNodes then true
    else
      var isNodeAvailable := (c.value.online || c.value.connecting) && c.value.acceptingTasks;
      isNodeAvailable
  }

  /** The three cases of the predicate, and that restricting never admits a
      node the unrestricted query would drop. */
  lemma ShouldAddNodeCases(restrictToOnlineNodes: bool, c: Option<Computer>)
    ensures c.None? ==> ShouldAddNode(restrictToOnlineNodes, c)
    ensures !restrictToOnlineNodes ==> ShouldAddNode(restrictToOnlineNodes, c)
    ensures restrictToOnlineNodes && c.Some? ==>
              (ShouldAddNode(restrictToOnlineNodes, c) <==>
                 (c.value.online || c.value.connecting) && c.value.acceptingTasks)
    ensures ShouldAddNode(restrictToOnlineNodes, c) ==> ShouldAddNode(false, c)
  {
  }

  // ---------------------------------------------------------------------
  // The resolver, as the source's nested loops compute it

  /** What the inner loop appends for one term's nodes: the self label of
      every node that passes `ShouldAddNode`, in node order. */
  function Contribution(nodes: seq<Node>, restrictToOnlineNodes: bool): seq<string>
    decreases |nodes|
  {
    if nodes == [] then []
    else
      var node := nodes[|nodes| - 1];
      Contribution(nodes[..|nodes| - 1], restrictToOnlineNodes)
        + (if ShouldAddNode(restrictToOnlineNodes, node.computer) then [node.selfLabel] else [])
  }

  /** What the outer loop has built after the given split pieces: each piece
      is trimmed and looked up in the registry, and its contribution appended. */
  function Resolve(labels: seq<string>, restrictToOnlineNodes: bool, registry: Registry): seq<string>
    decreases |labels|
  {
    if labels == [] then []
    else
      Resolve(labels[..|labels| - 1], restrictToOnlineNodes, registry)
        + Contribution(registry(Trim(labels[|labels| - 1])), restrictToOnlineNodes)
  }

  /** The comma-separated terms of a label string, untrimmed. */
  function Terms(labelWithNodes: string): seq<string> {
    Split(labelWithNodes, ',')
  }

  // ---------------------------------------------------------------------
  // An independent, flat reading of the same result

  /** Every matched node, term after term, each term's nodes in registry order
      (one entry per matching (term, node) pair). */
  function Matched(labels: seq<string>, registry: Registry): seq<Node>
    decreases |labels|
  {
    if labels == [] then [] else registry(Trim(labels[0])) + Matched(labels[1..], registry)
  }

  /** The nodes that pass `ShouldAddNode`, in their original order. */
  function Eligible(nodes: seq<Node>, restrictToOnlineNodes: bool): (r: seq<Node>)
    ensures |r| <= |nodes|
    ensures forall n :: n in r <==> n in nodes && ShouldAddNode(restrictToOnlineNodes, n.computer)
    decreases |nodes|
  {
    if nodes == [] then []
    else if ShouldAddNode(restrictToOnlineNodes, nodes[0].computer) then
      [nodes[0]] + Eligible(nodes[1..], restrictToOnlineNodes)
    else Eligible(nodes[1..], restrictToOnlineNodes)
  }

  /** The self label of each node, position by position. */
  function SelfLabels(nodes: seq<Node>): (r: seq<string>)
    ensures |r| == |nodes|
    ensures forall k :: 0 <= k < |nodes| ==> r[k] == nodes[k].selfLabel
    decreases |nodes|
  {
    if nodes == [] then [] else [nodes[0].selfLabel] + SelfLabels(nodes[1..])
  }

  /** `a` is `b` with some entries left out and the rest kept in order. */
  ghost predicate IsSubsequence<T>(a: seq<T>, b: seq<T>)
    decreases |b|
  {
    a == [] || (b != [] && ((a[0] == b[0] && IsSubsequence(a[1..], b[1..])) || IsSubsequence(a, b[1..])))
  }

  // ---------------------------------------------------------------------
  // computeNodesInLabel and its two entry points

  /** `computeNodesInLabel` on a registry snapshot: the result is exactly the
      self labels of the eligible matched nodes, in term order and then
      registry order, with one entry per passing (term, node) pair. */
  function NodesInLabel(labelWithNodes: string, restrictToOnlineNodes: bool, registry: Registry): (r: seq<string>)
    ensures r == SelfLabels(Eligible(Matched(Terms(labelWithNodes), registry), restrictToOnlineNodes))
    ensures |r| == |Eligible(Matched(Terms(labelWithNodes), registry), restrictToOnlineNodes)|
  {
    ResolveIsFilterMap(Terms(labelWithNodes), restrictToOnlineNodes, registry);
    Resolve(Terms(labelWithNodes), restrictToOnlineNodes, registry)
  }

  /** `computeNodesInLabel` as the source runs it: a growing list filled by a
      loop over the split terms and, inside it, a loop over each term's nodes. */
  method ComputeNodesInLabel(labelWithNodes: string, restrictToOnlineNodes: bool, registry: Registry)
    returns (computedNodes: seq<string>)
    ensures computedNodes == NodesInLabel(labelWithNodes, restrictToOnlineNodes, registry)
  {
    computedNodes := [];
    var labels := Split(labelWithNodes, ',');
    for i := 0 to |labels|
      invariant computedNodes == Resolve(labels[..i], restrictToOnlineNodes, registry)
    {
      var aLabel := labels[i];
      var nodes := registry(Trim(aLabel));
      ghost var before := computedNodes;
      for j := 0 to |nodes|
        invariant computedNodes == before + Contribution(nodes[..j], restrictToOnlineNodes)
      {
        var node := nodes[j];
        ContributionStep(nodes, j, restrictToOnlineNodes);
        if ShouldAddNode(restrictToOnlineNodes, node.computer) {
          computedNodes := computedNodes + [node.selfLabel];
        }
      }
      assert nodes[..|nodes|] == nodes;
      ResolveStep(labels, i, restrictToOnlineNodes, registry);
    }
    assert labels[..|labels|] == labels;
  }

  /** One more node of the inner loop. */
  lemma ContributionStep(nodes: seq<Node>, j: int, restrictToOnlineNodes: bool)
    requires 0 <= j < |nodes|
    ensures Contribution(nodes[..j + 1], restrictToOnlineNodes)
            == Contribution(nodes[..j], restrictToOnlineNodes)
               + (if ShouldAddNode(restrictToOnlineNodes, nodes[j].computer) then [nodes[j].selfLabel] else [])
  {
    assert nodes[..j + 1][..j] == nodes[..j];
  }

  /** One more term of the outer loop, after its whole node list. */
  lemma ResolveStep(labels: seq<string>, i: int, restrictToOnlineNodes: bool, registry: Registry)
    requires 0 <= i < |labels|
    ensures Resolve(labels[..i + 1], restrictToOnlineNodes, registry)
            == Resolve(labels[..i], restrictToOnlineNodes, registry)
               + Contribution(registry(Trim(labels[i])), restrictToOnlineNodes)
  {
    assert labels[..i + 1][..i] == labels[..i];
  }

  /** One more term appended to the terms. */
  lemma ResolveSnoc(labels: seq<string>, term: string, restrictToOnlineNodes: bool, registry: Registry)
    ensures Resolve(labels + [term], restrictToOnlineNodes, registry)
            == Resolve(labels, restrictToOnlineNodes, registry)
               + Contribution(registry(Trim(term)), restrictToOnlineNodes)
  {
    assert (labels + [term])[..|labels|] == labels;
  }

  /** `computeAllNodesInLabel`: the unrestricted resolver lists the self label
      of every matched node, whatever its computer's state. */
  function ComputeAllNodesInLabel(labelName: string, registry: Registry): (r: seq<string>)
    ensures r == SelfLabels(Matched(Terms(labelName), registry))
  {
    UnrestrictedListsAllMatched(Terms(labelName), registry);
    NodesInLabel(labelName, false, registry)
  }

  /** The axis. Its fields are set once, by the constructor, and never
      reassigned; `values` is what the superclass constructor records. */
  datatype ElasticAxis = ElasticAxis(name: string, labelString: string, ignoreOffline: bool, values: seq<string>)
  {
    function GetLabelString(): string {
      labelString
    }

    function GetIgnoreOffline(): bool {
      ignoreOffline
    }

    /** `getValues`: always unrestricted, so every matched node is listed
        whatever `ignoreOffline` says. */
    function GetValues(registry: Registry): (r: seq<string>)
      ensures r == SelfLabels(Matched(Terms(labelString), registry))
    {
      ComputeAllNodesInLabel(labelString, registry)
    }

    /** `rebuild`: the self labels of the matched nodes that pass
        `ShouldAddNode` under `ignoreOffline`; against the same snapshot it
        keeps a subsequence of what `GetValues` lists, and all of it when
        `ignoreOffline` is false. */
    function Rebuild(registry: Registry): (r: seq<string>)
      ensures r == SelfLabels(Eligible(Matched(Terms(labelString), registry), ignoreOffline))
      ensures IsSubsequence(r, GetValues(registry))
      ensures multiset(r) <= multiset(GetValues(registry))
      ensures !ignoreOffline ==> r == GetValues(registry)
    {
      RestrictionMonotone(Terms(labelString), ignoreOffline, registry);
      ResolveIsFilterMap(Terms(labelString), false, registry);
      SubsequenceMultiset(NodesInLabel(labelString, ignoreOffline, registry), GetValues(registry));
      NodesInLabel(labelString, ignoreOffline, registry)
    }
  }

  /** The constructor: it keeps the name, the label string and the flag, and
      records the unrestricted values of the snapshot it is built against. */
  function NewElasticAxis(name: string, labelString: string, ignoreOffline: bool, registry: Registry)
    : (a: ElasticAxis)
    ensures a.name == name
    ensures a.GetLabelString() == labelString
    ensures a.GetIgnoreOffline() == ignoreOffline
    ensures a.values == a.GetValues(registry)
  {
    ElasticAxis(name, labelString, ignoreOffline, ComputeAllNodesInLabel(labelString, registry))
  }

  // ---------------------------------------------------------------------
  // Lemmas: the nested fold equals the flat reading

  lemma {:induction false} EligibleAppend(a: seq<Node>, b: seq<Node>, restrictToOnlineNodes: bool)
    ensures Eligible(a + b, restrictToOnlineNodes)
            == Eligible(a, restrictToOnlineNodes) + Eligible(b, restrictToOnlineNodes)
    decreases |a|
  {
    if a == [] {
      assert a + b == b;
    } else {
      assert (a + b)[0] == a[0];
      assert (a + b)[1..] == a[1..] + b;
      EligibleAppend(a[1..], b, restrictToOnlineNodes);
    }
  }

  lemma SelfLabelsAppend(a: seq<Node>, b: seq<Node>)
    ensures SelfLabels(a + b) == SelfLabels(a) + SelfLabels(b)
  {
  }

  lemma {:induction false} MatchedAppend(labels: seq<string>, term: string, registry: Registry)
    ensures Matched(labels + [term], registry) == Matched(labels, registry) + registry(Trim(term))
    decreases |labels|
  {
    if labels == [] {
      assert labels + [term] == [term];
    } else {
      assert (labels + [term])[0] == labels[0];
      assert (labels + [term])[1..] == labels[1..] + [term];
      MatchedAppend(labels[1..], term, registry);
    }
  }

  /** The inner loop is a filter followed by a map. */
  lemma {:induction false} ContributionIsFilterMap(nodes: seq<Node>, restrictToOnlineNodes: bool)
    ensures Contribution(nodes, restrictToOnlineNodes) == SelfLabels(Eligible(nodes, restrictToOnlineNodes))
    decreases |nodes|
  {
    if nodes != [] {
      var init, node := nodes[..|nodes| - 1], nodes[|nodes| - 1];
      assert nodes == init + [node];
      ContributionIsFilterMap(init, restrictToOnlineNodes);
      EligibleAppend(init, [node], restrictToOnlineNodes);
      SelfLabelsAppend(Eligible(init, restrictToOnlineNodes), Eligible([node], restrictToOnlineNodes));
    }
  }

  /** The nested fold over terms and nodes is the flat filter-then-map of all
      matched nodes. */
  lemma {:induction false} ResolveIsFilterMap(labels: seq<string>, restrictToOnlineNodes: bool, registry: Registry)
    ensures Resolve(labels, restrictToOnlineNodes, registry)
            == SelfLabels(Eligible(Matched(labels, registry), restrictToOnlineNodes))
    decreases |labels|
  {
    if labels != [] {
      var init, term := labels[..|labels| - 1], labels[|labels| - 1];
      assert labels == init + [term];
      ResolveIsFilterMap(init, restrictToOnlineNodes, registry);
      ContributionIsFilterMap(registry(Trim(term)), restrictToOnlineNodes);
      MatchedAppend(init, term, registry);
      EligibleAppend(Matched(init, registry), registry(Trim(term)), restrictToOnlineNodes);
      SelfLabelsAppend(Eligible(Matched(init, registry), restrictToOnlineNodes),
                       Eligible(registry(Trim(term)), restrictToOnlineNodes));
    }
  }

  // ---------------------------------------------------------------------
  // Lemmas: order, multiplicity and membership

  /** The result is the concatenation of the terms' results, in term order. */
  lemma {:induction false} ResolveAppend(a: seq<string>, b: seq<string>, restrictToOnlineNodes: bool, registry: Registry)
    ensures Resolve(a + b, restrictToOnlineNodes, registry)
            == Resolve(a, restrictToOnlineNodes, registry) + Resolve(b, restrictToOnlineNodes, registry)
    decreases |b|
  {
    if b == [] {
      assert a + b == a;
    } else {
      var init, term := b[..|b| - 1], b[|b| - 1];
      var share := Contribution(registry(Trim(term)), restrictToOnlineNodes);
      assert b == init + [term];
      assert a + b == (a + init) + [term];
      calc {
        Resolve(a + b, restrictToOnlineNodes, registry);
        { ResolveSnoc(a + init, term, restrictToOnlineNodes, registry); }
        Resolve(a + init, restrictToOnlineNodes, registry) + share;
        { ResolveAppend(a, init, restrictToOnlineNodes, registry); }
        (Resolve(a, restrictToOnlineNodes, registry) + Resolve(init, restrictToOnlineNodes, registry)) + share;
        Resolve(a, restrictToOnlineNodes, registry) + (Resolve(init, restrictToOnlineNodes, registry) + share);
        { ResolveSnoc(init, term, restrictToOnlineNodes, registry); }
        Resolve(a, restrictToOnlineNodes, registry) + Resolve(b, restrictToOnlineNodes, registry);
      }
    }
  }

  lemma {:induction false} MatchedMembers(labels: seq<string>, registry: Registry, n: Node)
    ensures n in Matched(labels, registry) <==>
            exists i :: 0 <= i < |labels| && n in registry(Trim(labels[i]))
    decreases |labels|
  {
    if labels != [] {
      MatchedMembers(labels[1..], registry, n);
      if n in Matched(labels[1..], registry) {
        var i :| 0 <= i < |labels[1..]| && n in registry(Trim(labels[1..][i]));
        assert labels[1..][i] == labels[i + 1];
      }
      if exists i :: 0 <= i < |labels| && n in registry(Trim(labels[i])) {
        var i :| 0 <= i < |labels| && n in registry(Trim(labels[i]));
        if i > 0 {
          assert labels[1..][i - 1] == labels[i];
        }
      }
    }
  }

  lemma SelfLabelsMembers(nodes: seq<Node>, x: string)
    ensures x in SelfLabels(nodes) <==> exists n :: n in nodes && n.selfLabel == x
  {
    var r := SelfLabels(nodes);
    if x in r {
      var k :| 0 <= k < |r| && r[k] == x;
      assert nodes[k] in nodes;
    }
    if exists n :: n in nodes && n.selfLabel == x {
      var n :| n in nodes && n.selfLabel == x;
      var k :| 0 <= k < |nodes| && nodes[k] == n;
      assert r[k] == x;
    }
  }

  /** Every entry is the self label of an eligible node matched by one of the
      terms, and every such node's self label is an entry. */
  lemma ResolveMembers(labels: seq<string>, restrictToOnlineNodes: bool, registry: Registry, x: string)
    ensures x in Resolve(labels, restrictToOnlineNodes, registry) <==>
            exists i, n :: 0 <= i < |labels| && n in registry(Trim(labels[i]))
                           && ShouldAddNode(restrictToOnlineNodes, n.computer) && n.selfLabel == x
  {
    var m := Matched(labels, registry);
    ResolveIsFilterMap(labels, restrictToOnlineNodes, registry);
    SelfLabelsMembers(Eligible(m, restrictToOnlineNodes), x);
    if x in Resolve(labels, restrictToOnlineNodes, registry) {
      var n :| n in Eligible(m, restrictToOnlineNodes) && n.selfLabel == x;
      MatchedMembers(labels, registry, n);
    }
    if exists i, n :: 0 <= i < |labels| && n in registry(Trim(labels[i]))
                      && ShouldAddNode(restrictToOnlineNodes, n.computer) && n.selfLabel == x {
      var i, n :| 0 <= i < |labels| && n in registry(Trim(labels[i]))
                  && ShouldAddNode(restrictToOnlineNodes, n.computer) && n.selfLabel == x;
      MatchedMembers(labels, registry, n);
    }
  }

  /** No deduplication: a node that passes and is matched by two terms is
      listed twice. */
  lemma MatchedByTwoTermsListedTwice(t1: string, t2: string, n: Node, restrictToOnlineNodes: bool, registry: Registry)
    requires n in registry(Trim(t1)) && n in registry(Trim(t2))
    requires ShouldAddNode(restrictToOnlineNodes, n.computer)
    ensures multiset(Resolve([t1, t2], restrictToOnlineNodes, registry))[n.selfLabel] >= 2
  {
    var c1 := Contribution(registry(Trim(t1)), restrictToOnlineNodes);
    var c2 := Contribution(registry(Trim(t2)), restrictToOnlineNodes);
    ResolveSnoc([], t1, restrictToOnlineNodes, registry);
    ResolveSnoc([t1], t2, restrictToOnlineNodes, registry);
    assert [] + [t1] == [t1] && [t1] + [t2] == [t1, t2];
    ListedByContribution(registry(Trim(t1)), n, restrictToOnlineNodes);
    ListedByContribution(registry(Trim(t2)), n, restrictToOnlineNodes);
    assert multiset(c1 + c2) == multiset(c1) + multiset(c2);
  }

  /** An eligible node of a term's node list is listed in that term's share. */
  lemma ListedByContribution(nodes: seq<Node>, n: Node, restrictToOnlineNodes: bool)
    requires n in nodes && ShouldAddNode(restrictToOnlineNodes, n.computer)
    ensures n.selfLabel in Contribution(nodes, restrictToOnlineNodes)
  {
    ContributionIsFilterMap(nodes, restrictToOnlineNodes);
    SelfLabelsMembers(Eligible(nodes, restrictToOnlineNodes), n.selfLabel);
  }

  /** How many of the nodes have the given self label. */
  function Occurrences(nodes: seq<Node>, x: string): nat
    decreases |nodes|
  {
    if nodes == [] then 0
    else (if nodes[0].selfLabel == x then 1 else 0) + Occurrences(nodes[1..], x)
  }

  lemma {:induction false} SelfLabelsCount(nodes: seq<Node>, x: string)
    ensures multiset(SelfLabels(nodes))[x] == Occurrences(nodes, x)
    decreases |nodes|
  {
    if nodes != [] {
      SelfLabelsCount(nodes[1..], x);
      assert SelfLabels(nodes) == [nodes[0].selfLabel] + SelfLabels(nodes[1..]);
      assert multiset(SelfLabels(nodes))
             == multiset([nodes[0].selfLabel]) + multiset(SelfLabels(nodes[1..]));
    }
  }

  /** No deduplication, for any label string: a value occurs in the result
      exactly as often as there are eligible (term, node) matches with that
      self label. */
  lemma OccursOncePerMatch(labelWithNodes: string, restrictToOnlineNodes: bool, registry: Registry, x: string)
    ensures multiset(NodesInLabel(labelWithNodes, restrictToOnlineNodes, registry))[x]
            == Occurrences(Eligible(Matched(Terms(labelWithNodes), registry), restrictToOnlineNodes), x)
  {
    SelfLabelsCount(Eligible(Matched(Terms(labelWithNodes), registry), restrictToOnlineNodes), x);
  }

  // ---------------------------------------------------------------------
  // Lemmas: the restriction flag

  /** A node without a computer is listed whatever the restriction. */
  lemma NoComputerAlwaysListed(labels: seq<string>, restrictToOnlineNodes: bool, registry: Registry, i: int, n: Node)
    requires 0 <= i < |labels| && n in registry(Trim(labels[i]))
    requires n.computer.None?
    ensures n.selfLabel in Resolve(labels, restrictToOnlineNodes, registry)
  {
    ResolveMembers(labels, restrictToOnlineNodes, registry, n.selfLabel);
  }

  lemma {:induction false} EligibleUnrestricted(nodes: seq<Node>)
    ensures Eligible(nodes, false) == nodes
    decreases |nodes|
  {
    if nodes != [] {
      EligibleUnrestricted(nodes[1..]);
    }
  }

  /** Unrestricted, every matched node is listed. */
  lemma UnrestrictedListsAllMatched(labels: seq<string>, registry: Registry)
    ensures Resolve(labels, false, registry) == SelfLabels(Matched(labels, registry))
  {
    ResolveIsFilterMap(labels, false, registry);
    EligibleUnrestricted(Matched(labels, registry));
  }

  lemma {:induction false} EligibleSubsequence(nodes: seq<Node>, restrictToOnlineNodes: bool)
    ensures IsSubsequence(SelfLabels(Eligible(nodes, restrictToOnlineNodes)), SelfLabels(nodes))
    decreases |nodes|
  {
    if nodes != [] {
      EligibleSubsequence(nodes[1..], restrictToOnlineNodes);
      var a := SelfLabels(Eligible(nodes, restrictToOnlineNodes));
      var b := SelfLabels(nodes);
      assert b[1..] == SelfLabels(nodes[1..]);
      if ShouldAddNode(restrictToOnlineNodes, nodes[0].computer) {
        assert a[1..] == SelfLabels(Eligible(nodes[1..], restrictToOnlineNodes));
        assert a[0] == b[0];
      }
    }
  }

  /** Monotonicity: the restricted result is a subsequence of the
      unrestricted one for the same terms and snapshot. */
  lemma RestrictionMonotone(labels: seq<string>, restrictToOnlineNodes: bool, registry: Registry)
    ensures IsSubsequence(Resolve(labels, restrictToOnlineNodes, registry), Resolve(labels, false, registry))
  {
    ResolveIsFilterMap(labels, restrictToOnlineNodes, registry);
    UnrestrictedListsAllMatched(labels, registry);
    EligibleSubsequence(Matched(labels, registry), restrictToOnlineNodes);
  }

  /** A subsequence uses each value no more often than the sequence does. */
  lemma {:induction false} SubsequenceMultiset<T>(a: seq<T>, b: seq<T>)
    requires IsSubsequence(a, b)
    ensures multiset(a) <= multiset(b)
    decreases |b|
  {
    if a != [] {
      assert b == [b[0]] + b[1..];
      if a[0] == b[0] && IsSubsequence(a[1..], b[1..]) {
        SubsequenceMultiset(a[1..], b[1..]);
        assert a == [a[0]] + a[1..];
      } else {
        SubsequenceMultiset(a, b[1..]);
      }
    }
  }

  // ---------------------------------------------------------------------
  // Lemmas: terms that match nothing

  /** Terms matching no node contribute nothing; if no term matches, the
      result is empty. */
  lemma {:induction false} NoMatchesNoValues(labels: seq<string>, restrictToOnlineNodes: bool, registry: Registry)
    requires forall i :: 0 <= i < |labels| ==> registry(Trim(labels[i])) == []
    ensures Resolve(labels, restrictToOnlineNodes, registry) == []
    decreases |labels|
  {
    if labels != [] {
      var init := labels[..|labels| - 1];
      assert forall i :: 0 <= i < |init| ==> init[i] == labels[i];
      NoMatchesNoValues(init, restrictToOnlineNodes, registry);
    }
  }

  /** A label string made only of commas has no terms and yields nothing. */
  lemma OnlyCommasNoValues(labelWithNodes: string, restrictToOnlineNodes: bool, registry: Registry)
    requires labelWithNodes != []
    requires forall k :: 0 <= k < |labelWithNodes| ==> labelWithNodes[k] == ','
    ensures NodesInLabel(labelWithNodes, restrictToOnlineNodes, registry) == []
  {
    SplitOnlySeparators(labelWithNodes, ',');
  }

  /** The empty label string is one empty term, which is still looked up:
      the result is whatever the registry answers for `""`. */
  lemma EmptyLabelStringQueriesEmptyTerm(restrictToOnlineNodes: bool, registry: Registry)
    ensures NodesInLabel([], restrictToOnlineNodes, registry)
            == SelfLabels(Eligible(registry([]), restrictToOnlineNodes))
  {
    SplitEmpty(',');
    assert Trim([]) == [];
    assert registry(Trim([])) + [] == registry([]);
  }

  // ---------------------------------------------------------------------
  // Lemmas: the two call sites of an axis

  /** A node without a computer (the controller) is listed by both call
      sites, whatever `ignoreOffline` is. */
  lemma ControllerListedByBoth(axis: ElasticAxis, registry: Registry, i: int, n: Node)
    requires 0 <= i < |Terms(axis.labelString)| && n in registry(Trim(Terms(axis.labelString)[i]))
    requires n.computer.None?
    ensures n.selfLabel in axis.Rebuild(registry)
    ensures n.selfLabel in axis.GetValues(registry)
  {
    NoComputerAlwaysListed(Terms(axis.labelString), axis.ignoreOffline, registry, i, n);
    NoComputerAlwaysListed(Terms(axis.labelString), false, registry, i, n);
  }

  /** A label string none of whose terms matches a node gives an empty list
      from both call sites. */
  lemma NoMatchAxisEmpty(axis: ElasticAxis, registry: Registry)
    requires forall i :: 0 <= i < |Terms(axis.labelString)| ==> registry(Trim(Terms(axis.labelString)[i])) == []
    ensures axis.Rebuild(registry) == []
    ensures axis.GetValues(registry) == []
  {
    NoMatchesNoValues(Terms(axis.labelString), axis.ignoreOffline, registry);
    NoMatchesNoValues(Terms(axis.labelString), false, registry);
  }
}
