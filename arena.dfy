/**
 * The tree that `readTree` builds, as an arena of node records addressed by index. The root
 * sits at index 0 and has no parent (the JavaScript `parent: null`); every other record holds
 * its parent's index and the indices of its children in left-to-right order.
 */
module Arena {
  import opened Wrappers

  /**
   * A node's `branchLength`: never assigned (`undefined`), assigned `null` (a label without a
   * colon), or the text after the colon, which the source hands to `parseFloat`.
   */
  datatype BranchLength = Undefined | Null | Length(text: string)

  datatype Node = Node(
    parent: Option<nat>,
    children: seq<nat>,
    nodeLabel: Option<string>,     // the JavaScript `label`; None: never assigned
    branchLength: BranchLength,
    id: Option<nat>)               // None: never assigned

  /** A node as `readTree` creates it: only `parent` and an empty `children` list are set. */
  function NewNode(parent: Option<nat>): Node
  {
    Node(parent, [], None, Undefined, None)
  }

  predicate IsTip(n: Node)
  {
    |n.children| == 0
  }

  /** Node `j`'s parent exists, precedes it, and lists `j` among its children. */
  ghost predicate LinkedToParent(nodes: seq<Node>, j: nat)
    requires j < |nodes|
  {
    nodes[j].parent.Some? && nodes[j].parent.value < j && j in nodes[nodes[j].parent.value].children
  }

  /**
   * The shape of a tree: node 0 is the only node without a parent, parent and child links
   * agree, and each children list is strictly increasing (so holds no node twice).
   */
  ghost predicate WellFormed(nodes: seq<Node>)
  {
    && |nodes| > 0
    && nodes[0].parent == None
    && (forall j :: 0 < j < |nodes| ==> LinkedToParent(nodes, j))
    && (forall i, k :: 0 <= i < |nodes| && 0 <= k < |nodes[i].children| ==>
          i < nodes[i].children[k] < |nodes| && nodes[nodes[i].children[k]].parent == Some(i))
    && (forall i, k, m :: 0 <= i < |nodes| && 0 <= k < m < |nodes[i].children| ==>
          nodes[i].children[k] < nodes[i].children[m])
  }

  /** `j` is `a` or lies below `a`: following parent links from `j` reaches `a`. */
  ghost predicate Descends(nodes: seq<Node>, a: nat, j: nat)
    decreases j
  {
    j == a ||
    (j < |nodes| && nodes[j].parent.Some? && nodes[j].parent.value < j &&
     Descends(nodes, a, nodes[j].parent.value))
  }

  /** The nodes of the subtree rooted at `i`. */
  ghost function Subtree(nodes: seq<Node>, i: nat): set<nat>
  {
    set j | 0 <= j < |nodes| && Descends(nodes, i, j)
  }

  /**
   * `curnode.children.push({parent: curnode, children: []})`: a new node at the end of the
   * arena, appended to the children of `p`.
   */
  function AddChild(nodes: seq<Node>, p: nat): (r: seq<Node>)
    requires WellFormed(nodes) && p < |nodes|
    ensures WellFormed(r)
    ensures |r| == |nodes| + 1 && r[|nodes|] == NewNode(Some(p))
    ensures r[p] == nodes[p].(children := nodes[p].children + [|nodes|])
    ensures forall j :: 0 <= j < |nodes| && j != p ==> r[j] == nodes[j]
  {
    var r := nodes[p := nodes[p].(children := nodes[p].children + [|nodes|])] + [NewNode(Some(p))];
    AddChildWellFormed(nodes, p, r);
    r
  }

  lemma AddChildWellFormed(nodes: seq<Node>, p: nat, r: seq<Node>)
    requires WellFormed(nodes) && p < |nodes|
    requires r == nodes[p := nodes[p].(children := nodes[p].children + [|nodes|])] + [NewNode(Some(p))]
    ensures WellFormed(r)
  {
    var n := |nodes|;
    assert |r| == n + 1 && r[n] == NewNode(Some(p));
    assert forall j :: 0 <= j < n && j != p ==> r[j] == nodes[j];
    assert r[p].children == nodes[p].children + [n];
    forall j | 0 < j < n
      ensures LinkedToParent(r, j)
    {
      assert LinkedToParent(nodes, j);
      var q := nodes[j].parent.value;
      assert j in r[q].children by {
        if q == p {
          assert r[q].children == nodes[q].children + [n];
        }
      }
    }
    assert LinkedToParent(r, n) by {
      assert r[p].children[|r[p].children| - 1] == n;
    }
    forall i, k | 0 <= i < |r| && 0 <= k < |r[i].children|
      ensures i < r[i].children[k] < |r| && r[r[i].children[k]].parent == Some(i)
    {
      if i == p && k == |nodes[p].children| {
        assert r[i].children[k] == n;
      } else {
        assert i < n && r[i].children[k] == nodes[i].children[k];
      }
    }
    forall i, k, m | 0 <= i < |r| && 0 <= k < m < |r[i].children|
      ensures r[i].children[k] < r[i].children[m]
    {
      assert i < n;
      if i == p && m == |nodes[p].children| {
        assert r[i].children[k] == nodes[i].children[k] < n;
      }
    }
  }

  /** Two arenas with the same parent and children links; the other fields may differ. */
  ghost predicate SameShape(a: seq<Node>, b: seq<Node>)
  {
    |a| == |b| && forall j :: 0 <= j < |a| ==> a[j].parent == b[j].parent && a[j].children == b[j].children
  }

  /** Well-formedness depends on the links alone. */
  lemma ShapeKeepsWellFormed(a: seq<Node>, b: seq<Node>)
    requires WellFormed(a) && SameShape(a, b)
    ensures WellFormed(b)
  {
    forall j | 0 < j < |b|
      ensures LinkedToParent(b, j)
    {
      assert LinkedToParent(a, j);
    }
  }

  // ---------------------------------------------------------------------------------------
  // The ancestor relation

  lemma {:induction false} DescendsOrder(nodes: seq<Node>, a: nat, j: nat)
    requires Descends(nodes, a, j)
    ensures a <= j
    decreases j
  {
    if j != a {
      DescendsOrder(nodes, a, nodes[j].parent.value);
    }
  }

  /** Whatever lies below a child of `i` lies below `i`. */
  lemma {:induction false} DescendsThroughParent(nodes: seq<Node>, i: nat, c: nat, j: nat)
    requires WellFormed(nodes) && c < |nodes| && nodes[c].parent == Some(i)
    requires Descends(nodes, c, j)
    ensures Descends(nodes, i, j)
    decreases j
  {
    if j == c {
      assert c != 0;
      assert LinkedToParent(nodes, c);
    } else {
      DescendsThroughParent(nodes, i, c, nodes[j].parent.value);
    }
  }

  /** A node strictly below `i` lies below one of `i`'s children. */
  lemma {:induction false} DescendsViaChild(nodes: seq<Node>, i: nat, j: nat) returns (k: nat)
    requires WellFormed(nodes) && i < |nodes| && j < |nodes|
    requires Descends(nodes, i, j) && j != i
    ensures k < |nodes[i].children| && Descends(nodes, nodes[i].children[k], j)
    decreases j
  {
    var p := nodes[j].parent.value;
    if p == i {
      assert LinkedToParent(nodes, j);
      k :| 0 <= k < |nodes[i].children| && nodes[i].children[k] == j;
    } else {
      k := DescendsViaChild(nodes, i, p);
    }
  }

  /** Two ancestors of the same node are ancestors one of the other. */
  lemma {:induction false} DescendsComparable(nodes: seq<Node>, a: nat, b: nat, x: nat)
    requires Descends(nodes, a, x) && Descends(nodes, b, x)
    ensures Descends(nodes, a, b) || Descends(nodes, b, a)
    decreases x
  {
    if x != a && x != b {
      DescendsComparable(nodes, a, b, nodes[x].parent.value);
    }
  }

  /** Subtrees of two different children of the same node share no node. */
  lemma SiblingSubtreesDisjoint(nodes: seq<Node>, i: nat, k1: nat, k2: nat, x: nat)
    requires WellFormed(nodes) && i < |nodes|
    requires k1 < |nodes[i].children| && k2 < |nodes[i].children| && k1 != k2
    requires Descends(nodes, nodes[i].children[k1], x)
    ensures !Descends(nodes, nodes[i].children[k2], x)
  {
    var c1, c2 := nodes[i].children[k1], nodes[i].children[k2];
    assert c1 != c2 by {
      if k1 < k2 { assert c1 < c2; } else { assert c2 < c1; }
    }
    if Descends(nodes, c2, x) {
      DescendsComparable(nodes, c1, c2, x);
      if Descends(nodes, c1, c2) {
        DescendsOrder(nodes, c1, nodes[c2].parent.value);
      } else {
        DescendsOrder(nodes, c2, nodes[c1].parent.value);
      }
      assert false;
    }
  }

  /** Every node of a well-formed arena lies below the root. */
  lemma {:induction false} RootReachesAll(nodes: seq<Node>, j: nat)
    requires WellFormed(nodes) && j < |nodes|
    ensures Descends(nodes, 0, j)
    decreases j
  {
    if j != 0 {
      assert LinkedToParent(nodes, j);
      RootReachesAll(nodes, nodes[j].parent.value);
    }
  }
}
