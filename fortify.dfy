/**
 * `fortify`: the parsed tree as a table with one edge record per node that has a parent, in
 * preorder.
 */
module Fortify {
  import opened Wrappers
  import opened Arena
  import opened Traversal

  /** One row of the table: the edge from a node's parent down to the node. */
  datatype Edge = Edge(
    parentId: Option<nat>,
    parentLabel: Option<string>,
    childId: Option<nat>,
    childLabel: Option<string>,
    branchLength: BranchLength,
    isTip: bool)

  /** The record for node `j`, which has a parent. */
  function EdgeTo(nodes: seq<Node>, j: nat): Edge
    requires WellFormed(nodes) && j < |nodes| && nodes[j].parent.Some?
  {
    assert LinkedToParent(nodes, j);
    var parent := nodes[nodes[j].parent.value];
    Edge(parent.id, parent.nodeLabel, nodes[j].id, nodes[j].nodeLabel, nodes[j].branchLength, |nodes[j].children| == 0)
  }

  /** The records for the entries of `s` in order, the root (which has no parent) skipped. */
  function Edges(nodes: seq<Node>, s: seq<nat>): seq<Edge>
    requires WellFormed(nodes) && InArena(nodes, s)
  {
    if s == [] then []
    else
      var j := s[|s| - 1];
      Edges(nodes, s[..|s| - 1]) + (if nodes[j].parent.None? then [] else [EdgeTo(nodes, j)])
  }

  /**
   * `fortify(tree)`: walks `preorder(tree)`, skips the node whose parent is `null`, and pushes
   * one record for every other node (public/js/phylo.js:142-160).
   */
  method Fortify(nodes: seq<Node>, tree: nat) returns (df: seq<Edge>)
    requires WellFormed(nodes) && tree < |nodes|
    ensures df == Edges(nodes, Preorder(nodes, tree))
  {
    df := [];
    var order := PreorderInto(nodes, tree, []);
    assert order == Preorder(nodes, tree);
    for k := 0 to |order|
      invariant InArena(nodes, order[..k])
      invariant df == Edges(nodes, order[..k])
    {
      var node := order[k];
      EdgesStep(nodes, order, k);
      if nodes[node].parent == None {
        continue;
      }
      var parent := nodes[node].parent.value;
      ParentInArena(nodes, node);
      df := df + [Edge(nodes[parent].id, nodes[parent].nodeLabel, nodes[node].id, nodes[node].nodeLabel,
                       nodes[node].branchLength, |nodes[node].children| == 0)];
    }
    assert order[..|order|] == order;
  }

  /** A node with a parent is not the root, and its parent comes before it. */
  lemma ParentInArena(nodes: seq<Node>, j: nat)
    requires WellFormed(nodes) && j < |nodes| && nodes[j].parent.Some?
    ensures 0 < j && nodes[j].parent.value < j
  {
    assert LinkedToParent(nodes, j);
  }

  /** One more entry of `s` adds its record, if it has a parent. */
  lemma EdgesStep(nodes: seq<Node>, s: seq<nat>, k: nat)
    requires WellFormed(nodes) && InArena(nodes, s) && k < |s|
    ensures InArena(nodes, s[..k]) && InArena(nodes, s[..k + 1])
    ensures Edges(nodes, s[..k + 1]) ==
      Edges(nodes, s[..k]) + (if nodes[s[k]].parent.None? then [] else [EdgeTo(nodes, s[k])])
  {
    assert s[..k + 1][..k] == s[..k] && s[..k + 1][k] == s[k];
  }

  lemma {:induction false} EdgesConcat(nodes: seq<Node>, a: seq<nat>, b: seq<nat>)
    requires WellFormed(nodes) && InArena(nodes, a) && InArena(nodes, b)
    ensures InArena(nodes, a + b)
    ensures Edges(nodes, a + b) == Edges(nodes, a) + Edges(nodes, b)
    decreases |b|
  {
    assert InArena(nodes, a + b) by {
      forall m | 0 <= m < |a + b| ensures (a + b)[m] < |nodes| {
        if m >= |a| { assert (a + b)[m] == b[m - |a|]; }
      }
    }
    if b == [] {
      assert a + b == a;
    } else {
      var b' := b[..|b| - 1];
      assert (a + b)[..|a + b| - 1] == a + b';
      assert (a + b)[|a + b| - 1] == b[|b| - 1];
      EdgesConcat(nodes, a, b');
    }
  }

  /** A list without the root gets one record per entry, in the same order. */
  lemma {:induction false} EdgesWithoutRoot(nodes: seq<Node>, s: seq<nat>)
    requires WellFormed(nodes) && InArena(nodes, s)
    requires forall m :: 0 <= m < |s| ==> nodes[s[m]].parent.Some?
    ensures |Edges(nodes, s)| == |s|
    ensures forall k :: 0 <= k < |s| ==> Edges(nodes, s)[k] == EdgeTo(nodes, s[k])
    decreases |s|
  {
    if s != [] {
      var s' := s[..|s| - 1];
      EdgesWithoutRoot(nodes, s');
      forall k | 0 <= k < |s'| ensures s'[k] == s[k] { }
    }
  }

  /** Below the first entry of a preorder, every node has a parent. */
  lemma PreorderRestHasParents(nodes: seq<Node>, tree: nat)
    requires WellFormed(nodes) && tree < |nodes|
    ensures var rest := Preorder(nodes, tree)[1..];
      InArena(nodes, rest) && forall m :: 0 <= m < |rest| ==> nodes[rest[m]].parent.Some?
  {
    var s := Preorder(nodes, tree);
    PreorderParentsFirst(nodes, tree);
    forall m | 0 <= m < |s| - 1 ensures s[1..][m] < |nodes| && nodes[s[1..][m]].parent.Some? {
      assert s[1..][m] == s[m + 1];
      assert ParentEarlier(nodes, s, m + 1);
    }
  }

  /** The records of a preorder are those of its entries that have a parent: all but a root. */
  lemma PreorderRecords(nodes: seq<Node>, tree: nat)
    requires WellFormed(nodes) && tree < |nodes|
    ensures var s := Preorder(nodes, tree);
      var skip := if tree == 0 then 1 else 0;
      && InArena(nodes, s[skip..]) && (forall m :: 0 <= m < |s[skip..]| ==> nodes[s[skip..][m]].parent.Some?)
      && Edges(nodes, s) == Edges(nodes, s[skip..])
  {
    var s := Preorder(nodes, tree);
    var rest := s[1..];
    assert s == [tree] + rest;
    PreorderRestHasParents(nodes, tree);
    EdgesConcat(nodes, [tree], rest);
    assert [tree][..0] == [];
    if tree == 0 {
      assert Edges(nodes, [tree]) == [];
    } else {
      assert LinkedToParent(nodes, tree);
      assert s[0..] == s;
    }
  }

  /**
   * `fortify(tree)` has one record per node of the subtree except the root, in preorder: from
   * the root, one per non-root node of the whole tree. Each record copies the ids and labels of
   * the node and its parent and the node's branch length, and is marked a tip exactly when the
   * node has no children.
   */
  lemma FortifyRecords(nodes: seq<Node>, tree: nat)
    requires WellFormed(nodes) && tree < |nodes|
    ensures var s := Preorder(nodes, tree);
      var skip := if tree == 0 then 1 else 0;
      var r := Edges(nodes, s);
      && |r| == |s| - skip
      && forall k :: 0 <= k < |r| ==>
        var j := s[k + skip];
        && j < |nodes| && nodes[j].parent.Some? && nodes[j].parent.value < |nodes|
        && r[k].parentId == nodes[nodes[j].parent.value].id
        && r[k].parentLabel == nodes[nodes[j].parent.value].nodeLabel
        && r[k].childId == nodes[j].id
        && r[k].childLabel == nodes[j].nodeLabel
        && r[k].branchLength == nodes[j].branchLength
        && (r[k].isTip <==> |nodes[j].children| == 0)
  {
    var s := Preorder(nodes, tree);
    var skip := if tree == 0 then 1 else 0;
    PreorderRecords(nodes, tree);
    EdgesWithoutRoot(nodes, s[skip..]);
    forall j: nat | j < |nodes| && nodes[j].parent.Some? ensures nodes[j].parent.value < |nodes| {
      assert j != 0 && LinkedToParent(nodes, j);
    }
    forall k | 0 <= k < |s| - skip ensures s[skip..][k] == s[k + skip] { }
  }
}
