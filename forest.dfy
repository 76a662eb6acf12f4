/**
 * The acyclic forest generator of generate_nodes.py (`generate_nodes`).
 *
 * Nodes are created one index at a time. A node's identity (its NodeId) is its
 * creation index, so a parent reference is the index of an earlier node. Every
 * random draw of the source is an explicit input: one `Draw` per index. A draw
 * "uniformly among L values" is a natural number u that selects value u % L;
 * the draws u < L are exactly the choices the random module can make.
 */
module Forest {
  import opened Wrappers

  /** The `Source` field: the "CDN" sentinel, or the NodeId of the parent. */
  datatype Source = Cdn | Parent(index: nat)

  /** A node record, reduced to the fields that shape the forest. */
  datatype Node = Node(source: Source, level: int)

  /** The random draws made while creating one node. */
  datatype Draw = Draw(
    root: bool,   // random.random() < root_share
    parent: nat,  // random.randint(0, i - 1), as parent % i
    pick: nat     // random.choice(eligible), as eligible[pick % |eligible|]
  )

  /** `random.choice` was handed an empty list while creating node `at`. */
  datatype GenError = EmptyChoice(at: nat)

  /** The keys of every record dictionary the generator builds. */
  const RecordKeys: set<string> := {"timestamp", "NodeId", "BufferHealth", "SessionId", "Source", "level"}

  /**
   * A draw u read as a uniform choice among `bound` values: the draws below
   * `bound` denote themselves, and every draw denotes one of the values.
   */
  function Below(u: nat, bound: nat): (k: nat)
    requires bound > 0
    ensures k < bound
    ensures u < bound ==> k == u
  {
    u % bound
  }

  /** `range(n)` is empty for a negative n. */
  function RowCount(n: int): nat
  {
    if n < 0 then 0 else n
  }

  // ---------------------------------------------------------------------------
  // Shape of a generated forest

  /** Every parent reference names a node created strictly earlier. */
  predicate ParentsEarlier(nodes: seq<Node>)
  {
    forall i :: 0 <= i < |nodes| && nodes[i].source.Parent? ==> nodes[i].source.index < i
  }

  /** A root sits at level 1; any other node one level below the node it names. */
  predicate LevelFollowsSource(nodes: seq<Node>, i: nat)
    requires i < |nodes|
  {
    match nodes[i].source
    case Cdn => nodes[i].level == 1
    case Parent(j) => j < |nodes| && nodes[i].level == nodes[j].level + 1
  }

  /** Every node's level follows from its source. */
  predicate LevelsFollowSources(nodes: seq<Node>)
  {
    forall i :: 0 <= i < |nodes| ==> LevelFollowsSource(nodes, i)
  }

  /** Acyclic parent references, with levels that count the depth. */
  predicate IsForest(nodes: seq<Node>)
  {
    ParentsEarlier(nodes) && LevelsFollowSources(nodes)
  }

  /** No node is deeper than `maxLevel`, and every level is at least 1. */
  predicate LevelsWithin(nodes: seq<Node>, maxLevel: int)
  {
    forall i :: 0 <= i < |nodes| ==> 1 <= nodes[i].level <= maxLevel
  }

  // ---------------------------------------------------------------------------
  // Specification of the generator

  /**
   * The indices of the nodes whose level is still below `maxLevel`, in creation
   * order: what `notes_under_max_level` holds, found by scanning the history.
   */
  function UnderMax(nodes: seq<Node>, maxLevel: int): seq<nat>
  {
    if |nodes| == 0 then []
    else
      var prev := UnderMax(nodes[..|nodes| - 1], maxLevel);
      if nodes[|nodes| - 1].level < maxLevel then prev + [|nodes| - 1] else prev
  }

  /**
   * `UnderMax` is `nodes` filtered to the levels below `maxLevel`: it holds
   * exactly those indices, each once, in creation order.
   */
  lemma {:induction false} UnderMaxIsFilter(nodes: seq<Node>, maxLevel: int)
    ensures forall k :: 0 <= k < |UnderMax(nodes, maxLevel)| ==>
      UnderMax(nodes, maxLevel)[k] < |nodes| && nodes[UnderMax(nodes, maxLevel)[k]].level < maxLevel
    ensures forall j :: 0 <= j < |nodes| && nodes[j].level < maxLevel ==> j in UnderMax(nodes, maxLevel)
    ensures forall a, b :: 0 <= a < b < |UnderMax(nodes, maxLevel)| ==>
      UnderMax(nodes, maxLevel)[a] < UnderMax(nodes, maxLevel)[b]
  {
    if |nodes| > 0 {
      var init := nodes[..|nodes| - 1];
      UnderMaxIsFilter(init, maxLevel);
      forall j | 0 <= j < |init|
        ensures init[j] == nodes[j]
      {
      }
    }
  }

  /**
   * How node `node`, created after the nodes `before`, follows its draw: index 0
   * and root draws give a `CDN` root at level 1; otherwise the node attaches to
   * its drawn parent when that parent is below the ceiling, and else to some
   * node of the fallback list, one level below it.
   */
  predicate FollowsDraw(before: seq<Node>, node: Node, d: Draw, maxLevel: int)
  {
    if |before| == 0 || d.root then node == Node(Cdn, 1)
    else
      var p := Below(d.parent, |before|);
      if before[p].level < maxLevel then node == Node(Parent(p), before[p].level + 1)
      else
        node.source.Parent? && node.source.index in UnderMax(before, maxLevel) &&
        node.source.index < |before| && node.level == before[node.source.index].level + 1
  }

  /** The node created at index |nodes|, given the nodes created before it. */
  function NextNode(nodes: seq<Node>, d: Draw, maxLevel: int): (r: Result<Node, GenError>)
    ensures r.Success? && r.value.source == Cdn ==> r.value.level == 1
    ensures r.Success? && r.value.source.Parent? ==>
      r.value.source.index < |nodes| &&
      r.value.level == nodes[r.value.source.index].level + 1 &&
      r.value.level <= maxLevel
    ensures r.Success? ==> FollowsDraw(nodes, r.value, d, maxLevel)
    ensures r.Failure? ==>
      r.error == EmptyChoice(|nodes|) && |nodes| > 0 && !d.root &&
      nodes[Below(d.parent, |nodes|)].level >= maxLevel && UnderMax(nodes, maxLevel) == []
  {
    var i := |nodes|;
    if i == 0 || d.root then Success(Node(Cdn, 1))
    else
      var p := Below(d.parent, i);
      if nodes[p].level <= maxLevel - 1 then Success(Node(Parent(p), nodes[p].level + 1))
      else
        var under := UnderMax(nodes, maxLevel);
        if |under| == 0 then Failure(EmptyChoice(i))
        else
          UnderMaxIsFilter(nodes, maxLevel);
          var q := under[Below(d.pick, |under|)];
          Success(Node(Parent(q), nodes[q].level + 1))
  }

  /** The first `n` nodes, or the error that stopped the run before them. */
  function Generate(n: nat, maxLevel: int, draws: seq<Draw>): (r: Result<seq<Node>, GenError>)
    requires n <= |draws|
    ensures r.Success? ==> |r.value| == n
    ensures r.Failure? ==> 0 < r.error.at < n && !draws[r.error.at].root
  {
    if n == 0 then Success([])
    else
      match Generate(n - 1, maxLevel, draws)
      case Failure(e) => Failure(e)
      case Success(nodes) =>
        match NextNode(nodes, draws[n - 1], maxLevel)
        case Failure(e) => Failure(e)
        case Success(node) => Success(nodes + [node])
  }

  // ---------------------------------------------------------------------------
  // The generator loop

  /**
   * `generate_nodes`: appends one node per index to `nodes`, and to `underMax`
   * every node whose level is below `maxLevel`. `maxLevel` is not validated.
   */
  method GenerateNodes(n: int, maxLevel: int, draws: seq<Draw>) returns (r: Result<seq<Node>, GenError>)
    requires RowCount(n) <= |draws|
    ensures r == Generate(RowCount(n), maxLevel, draws)
    ensures r.Success? ==>
      |r.value| == RowCount(n) && IsForest(r.value) &&
      (maxLevel >= 1 ==> LevelsWithin(r.value, maxLevel))
    ensures r.Success? ==> forall i :: 0 <= i < RowCount(n) ==>
      FollowsDraw(r.value[..i], r.value[i], draws[i], maxLevel)
    ensures r.Failure? <==> maxLevel <= 1 && exists i :: 0 < i < RowCount(n) && !draws[i].root
  {
    var nodes: seq<Node> := [];
    var underMax: seq<nat> := [];
    var i := 0;
    while i < n
      invariant 0 <= i <= RowCount(n)
      invariant Generate(i, maxLevel, draws) == Success(nodes)
      invariant underMax == UnderMax(nodes, maxLevel)
    {
      var next := MakeNode(nodes, underMax, draws[i], maxLevel);
      GenerateStep(i, maxLevel, draws, nodes);
      if next.Failure? {
        r := Failure(next.error);
        FailureSticks(i + 1, RowCount(n), maxLevel, draws);
        GenerateFailsIff(RowCount(n), maxLevel, draws);
        return;
      }
      var node := next.value;
      UnderMaxSnoc(nodes, node, maxLevel);
      nodes := nodes + [node];
      if node.level < maxLevel {
        underMax := underMax + [i];
      }
      i := i + 1;
    }
    r := Success(nodes);
    GenerateIsForest(RowCount(n), maxLevel, draws);
    GenerateFollowsDraws(RowCount(n), maxLevel, draws);
    GenerateFailsIff(RowCount(n), maxLevel, draws);
  }

  /**
   * The body of the loop of `generate_nodes` up to the record it appends: node
   * |nodes| is a root, or attaches to its drawn parent when that is below the
   * ceiling, or else to a node drawn from the incrementally kept `underMax`.
   */
  method MakeNode(nodes: seq<Node>, underMax: seq<nat>, d: Draw, maxLevel: int) returns (r: Result<Node, GenError>)
    requires underMax == UnderMax(nodes, maxLevel)
    ensures r == NextNode(nodes, d, maxLevel)
  {
    var i := |nodes|;
    var level := 1;
    var source := Cdn;
    if i == 0 || d.root {
      source := Cdn;
    } else {
      var parentIndex := Below(d.parent, i);
      if nodes[parentIndex].level <= maxLevel - 1 {
        level := nodes[parentIndex].level + 1;
        source := Parent(parentIndex);
      } else {
        if |underMax| == 0 {
          // `random.choice([])` raises
          return Failure(EmptyChoice(i));
        }
        UnderMaxIsFilter(nodes, maxLevel);
        var chosen := underMax[Below(d.pick, |underMax|)];
        level := nodes[chosen].level + 1;
        source := Parent(chosen);
      }
    }
    r := Success(Node(source, level));
  }

  /** One more iteration of the loop extends the run by `NextNode`. */
  lemma GenerateStep(i: nat, maxLevel: int, draws: seq<Draw>, nodes: seq<Node>)
    requires i < |draws|
    requires Generate(i, maxLevel, draws) == Success(nodes)
    ensures Generate(i + 1, maxLevel, draws) ==
      match NextNode(nodes, draws[i], maxLevel)
      case Failure(e) => Failure(e)
      case Success(node) => Success(nodes + [node])
  {
  }

  /** Appending a node appends its index to the eligible list iff it is below the ceiling. */
  lemma UnderMaxSnoc(nodes: seq<Node>, node: Node, maxLevel: int)
    ensures UnderMax(nodes + [node], maxLevel) ==
      UnderMax(nodes, maxLevel) + (if node.level < maxLevel then [|nodes|] else [])
  {
    assert (nodes + [node])[..|nodes|] == nodes;
  }

  // ---------------------------------------------------------------------------
  // Properties of the generator

  /** Once a run has failed, a longer run fails with the same error. */
  lemma {:induction false} FailureSticks(k: nat, n: nat, maxLevel: int, draws: seq<Draw>)
    requires k <= n <= |draws|
    requires Generate(k, maxLevel, draws).Failure?
    ensures Generate(n, maxLevel, draws) == Generate(k, maxLevel, draws)
  {
    if k < n {
      FailureSticks(k, n - 1, maxLevel, draws);
    }
  }

  /** Earlier records are never changed: a shorter run is a prefix of a longer one. */
  lemma {:induction false} GeneratePrefix(k: nat, n: nat, maxLevel: int, draws: seq<Draw>)
    requires k <= n <= |draws|
    requires Generate(n, maxLevel, draws).Success?
    ensures Generate(k, maxLevel, draws) == Success(Generate(n, maxLevel, draws).value[..k])
    decreases n
  {
    var all := Generate(n, maxLevel, draws).value;
    if k == n {
      assert all[..k] == all;
    } else {
      var prev := Generate(n - 1, maxLevel, draws).value;
      assert all[..n - 1] == prev;
      GeneratePrefix(k, n - 1, maxLevel, draws);
      assert all[..k] == prev[..k];
    }
  }

  /** Record 0 is always a root at level 1. */
  lemma GenerateFirstIsRoot(n: nat, maxLevel: int, draws: seq<Draw>)
    requires 1 <= n <= |draws|
    requires Generate(n, maxLevel, draws).Success?
    ensures Generate(n, maxLevel, draws).value[0] == Node(Cdn, 1)
  {
    GeneratePrefix(1, n, maxLevel, draws);
  }

  /** In a successful run every node follows its own draw, given the nodes created before it. */
  lemma GenerateFollowsDraws(n: nat, maxLevel: int, draws: seq<Draw>)
    requires n <= |draws|
    requires Generate(n, maxLevel, draws).Success?
    ensures forall i :: 0 <= i < n ==>
      FollowsDraw(Generate(n, maxLevel, draws).value[..i], Generate(n, maxLevel, draws).value[i], draws[i], maxLevel)
  {
    forall i | 0 <= i < n
      ensures FollowsDraw(Generate(n, maxLevel, draws).value[..i], Generate(n, maxLevel, draws).value[i], draws[i], maxLevel)
    {
      NodeFollowsDraw(i, n, maxLevel, draws);
    }
  }

  /** Node `i` of a successful run is the `NextNode` of the nodes before it. */
  lemma NodeFollowsDraw(i: nat, n: nat, maxLevel: int, draws: seq<Draw>)
    requires i < n <= |draws|
    requires Generate(n, maxLevel, draws).Success?
    ensures NextNode(Generate(n, maxLevel, draws).value[..i], draws[i], maxLevel) ==
      Success(Generate(n, maxLevel, draws).value[i])
  {
    var all := Generate(n, maxLevel, draws).value;
    GeneratePrefix(i, n, maxLevel, draws);
    GeneratePrefix(i + 1, n, maxLevel, draws);
    GenerateStep(i, maxLevel, draws, all[..i]);
    assert all[..i + 1] == all[..i] + [all[i]];
  }

  /**
   * Every generated sequence is a forest: parents are earlier, levels count the
   * depth, and only roots may exceed `maxLevel` (when `maxLevel` < 1).
   */
  lemma {:induction false} GenerateIsForest(n: nat, maxLevel: int, draws: seq<Draw>)
    requires n <= |draws|
    requires Generate(n, maxLevel, draws).Success?
    ensures IsForest(Generate(n, maxLevel, draws).value)
    ensures forall i :: 0 <= i < n ==> Generate(n, maxLevel, draws).value[i].level >= 1
    ensures maxLevel >= 1 ==> LevelsWithin(Generate(n, maxLevel, draws).value, maxLevel)
    ensures maxLevel < 1 ==> forall i :: 0 <= i < n ==> Generate(n, maxLevel, draws).value[i].source == Cdn
  {
    if n > 0 {
      GenerateIsForest(n - 1, maxLevel, draws);
      var prev := Generate(n - 1, maxLevel, draws).value;
      var node := NextNode(prev, draws[n - 1], maxLevel).value;
      var all := prev + [node];
      assert Generate(n, maxLevel, draws).value == all;
      forall i | 0 <= i < |all|
        ensures LevelFollowsSource(all, i)
      {
        if i < |prev| {
          assert LevelFollowsSource(prev, i);
        }
      }
    }
  }

  /** In a forest a node's level is at most its index plus one. */
  lemma LevelAtMostIndex(nodes: seq<Node>, j: nat)
    requires IsForest(nodes) && j < |nodes|
    ensures nodes[j].level <= j + 1
    decreases j
  {
    assert LevelFollowsSource(nodes, j);
    if nodes[j].source.Parent? {
      LevelAtMostIndex(nodes, nodes[j].source.index);
    }
  }

  /**
   * With no root draws after index 0 and a ceiling above the row count, no
   * parent ever reaches the ceiling: the run succeeds, and every node after the
   * first attaches to the parent it drew, one level below it.
   */
  lemma NoRootsAttachToDrawnParents(n: nat, maxLevel: int, draws: seq<Draw>)
    requires n <= |draws| && maxLevel > n
    requires forall i :: 0 < i < n ==> !draws[i].root
    ensures Generate(n, maxLevel, draws).Success?
    ensures forall i :: 0 < i < n ==>
      var nodes := Generate(n, maxLevel, draws).value;
      nodes[i] == Node(Parent(Below(draws[i].parent, i)), nodes[Below(draws[i].parent, i)].level + 1)
  {
    GenerateFailsIff(n, maxLevel, draws);
    var nodes := Generate(n, maxLevel, draws).value;
    GenerateIsForest(n, maxLevel, draws);
    GenerateFollowsDraws(n, maxLevel, draws);
    forall i | 0 < i < n
      ensures nodes[i] == Node(Parent(Below(draws[i].parent, i)), nodes[Below(draws[i].parent, i)].level + 1)
    {
      var p := Below(draws[i].parent, i);
      LevelAtMostIndex(nodes, p);
      assert FollowsDraw(nodes[..i], nodes[i], draws[i], maxLevel);
      assert nodes[..i][p] == nodes[p];
    }
  }

  /**
   * The run fails exactly when `maxLevel` <= 1 and some node after the first
   * is not a root: the fallback list is then empty. With `maxLevel` >= 2 node 0
   * is always eligible, so the fallback choice always succeeds.
   */
  lemma {:induction false} GenerateFailsIff(n: nat, maxLevel: int, draws: seq<Draw>)
    requires n <= |draws|
    ensures Generate(n, maxLevel, draws).Failure? <==>
      maxLevel <= 1 && exists i :: 0 < i < n && !draws[i].root
  {
    if n > 0 {
      GenerateFailsIff(n - 1, maxLevel, draws);
      var g := Generate(n - 1, maxLevel, draws);
      if g.Success? {
        var prev := g.value;
        GenerateStep(n - 1, maxLevel, draws, prev);
        GenerateIsForest(n - 1, maxLevel, draws);
        if maxLevel >= 2 {
          if n - 1 > 0 {
            GenerateFirstIsRoot(n - 1, maxLevel, draws);
          }
          FallbackNeverEmpty(prev, draws[n - 1], maxLevel);
        } else {
          FallbackAlwaysEmpty(prev, draws[n - 1], maxLevel);
        }
      } else {
        var i :| 0 < i < n - 1 && !draws[i].root;
      }
    }
  }

  /** With a ceiling of at least 2 and a root at index 0, creating the next node never fails. */
  lemma FallbackNeverEmpty(nodes: seq<Node>, d: Draw, maxLevel: int)
    requires maxLevel >= 2
    requires |nodes| > 0 ==> nodes[0] == Node(Cdn, 1)
    ensures NextNode(nodes, d, maxLevel).Success?
  {
    UnderMaxIsFilter(nodes, maxLevel);
  }

  /**
   * With a ceiling of at most 1 no node of level 1 or more is eligible, so
   * creating the next node fails exactly when it is not a root.
   */
  lemma FallbackAlwaysEmpty(nodes: seq<Node>, d: Draw, maxLevel: int)
    requires maxLevel <= 1
    requires forall i :: 0 <= i < |nodes| ==> nodes[i].level >= 1
    ensures NextNode(nodes, d, maxLevel).Failure? <==> |nodes| > 0 && !d.root
  {
    UnderMaxIsFilter(nodes, maxLevel);
  }

  /**
   * `max_level_tree` is never validated: with a ceiling below 1, a one-row run
   * still succeeds and its root exceeds the ceiling.
   */
  lemma DepthBoundNeedsPositiveCeiling(maxLevel: int, draws: seq<Draw>)
    requires maxLevel <= 0 && 1 <= |draws|
    ensures Generate(1, maxLevel, draws) == Success([Node(Cdn, 1)])
    ensures !LevelsWithin(Generate(1, maxLevel, draws).value, maxLevel)
  {
    var g := Generate(1, maxLevel, draws);
    assert g.Success? && g.value == [Node(Cdn, 1)];
    assert g.value[0].level > maxLevel;
  }
}
