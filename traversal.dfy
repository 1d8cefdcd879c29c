/**
 * The traversals of a parsed tree: `preorder`, `postorder` (which, as written, collects the
 * preorder of each child before the node), `levelorder` (a stack walk) and `numTips`.
 *
 * The recursive `preorder` and `postorder` append to a list they are handed; `PreorderInto` and
 * `PostorderInto` are those procedures, proved to append what the functions `Preorder` and
 * `Postorder` describe. `Levelorder` and `NumTips` are the loops, proved against
 * `MirrorPreorder` and `TipCount`.
 */
module Traversal {
  import opened Wrappers
  import opened Arena

  // ---------------------------------------------------------------------------------------
  // Pre-order

  /** Every entry is an index of the arena. */
  predicate InArena(nodes: seq<Node>, s: seq<nat>)
  {
    forall m :: 0 <= m < |s| ==> s[m] < |nodes|
  }

  /** `preorder(node)`: the node, then the preorder of each child in child order. */
  function Preorder(nodes: seq<Node>, i: nat): (r: seq<nat>)
    requires WellFormed(nodes) && i < |nodes|
    ensures |r| >= 1 && r[0] == i && InArena(nodes, r)
    decreases |nodes| - i, 1
  {
    [i] + PreorderChildren(nodes, i, 0)
  }

  /** The preorders of the children of `i` from the `k`-th on, one after another. */
  function PreorderChildren(nodes: seq<Node>, i: nat, k: nat): (r: seq<nat>)
    requires WellFormed(nodes) && i < |nodes| && k <= |nodes[i].children|
    ensures InArena(nodes, r)
    decreases |nodes| - i, 0, |nodes[i].children| - k
  {
    if k == |nodes[i].children| then []
    else Preorder(nodes, nodes[i].children[k]) + PreorderChildren(nodes, i, k + 1)
  }

  /**
   * `preorder(node, list)`: pushes `node` onto `list`, then hands the list to the preorder of
   * each child in turn (public/js/phylo.js:91-97).
   */
  method PreorderInto(nodes: seq<Node>, node: nat, list: seq<nat>) returns (out: seq<nat>)
    requires WellFormed(nodes) && node < |nodes|
    ensures out == list + Preorder(nodes, node)
    decreases |nodes| - node
  {
    out := list + [node];
    var children := nodes[node].children;
    for k := 0 to |children|
      invariant out + PreorderChildren(nodes, node, k) == list + Preorder(nodes, node)
    {
      var before := out;
      out := PreorderInto(nodes, children[k], out);
      assert PreorderChildren(nodes, node, k) ==
             Preorder(nodes, children[k]) + PreorderChildren(nodes, node, k + 1);
      assert before + PreorderChildren(nodes, node, k) == out + PreorderChildren(nodes, node, k + 1);
    }
  }

  /** No element occurs twice. */
  predicate Distinct(s: seq<nat>)
  {
    forall a, b :: 0 <= a < b < |s| ==> s[a] != s[b]
  }

  /** The elements of a list of children's preorders are the elements of those preorders. */
  lemma {:induction false} PreorderChildrenMembers(nodes: seq<Node>, i: nat, k: nat, x: nat)
    requires WellFormed(nodes) && i < |nodes| && k <= |nodes[i].children|
    ensures x in PreorderChildren(nodes, i, k) <==>
      exists m :: k <= m < |nodes[i].children| && x in Preorder(nodes, nodes[i].children[m])
    decreases |nodes[i].children| - k
  {
    if k < |nodes[i].children| {
      PreorderChildrenMembers(nodes, i, k + 1, x);
    }
  }

  /** Each node of a preorder lies below its first node, and the preorder holds all of them. */
  lemma {:induction false} PreorderMembers(nodes: seq<Node>, i: nat)
    requires WellFormed(nodes) && i < |nodes|
    ensures forall x: nat :: x in Preorder(nodes, i) <==> x < |nodes| && Descends(nodes, i, x)
    decreases |nodes| - i
  {
    var ch := nodes[i].children;
    forall m | 0 <= m < |ch| {
      PreorderMembers(nodes, ch[m]);
    }
    forall x: nat
      ensures x in Preorder(nodes, i) <==> x < |nodes| && Descends(nodes, i, x)
    {
      PreorderChildrenMembers(nodes, i, 0, x);
      if x in PreorderChildren(nodes, i, 0) {
        var m :| 0 <= m < |ch| && x in Preorder(nodes, ch[m]);
        DescendsThroughParent(nodes, i, ch[m], x);
      }
      if x < |nodes| && Descends(nodes, i, x) && x != i {
        var m := DescendsViaChild(nodes, i, x);
        assert x in Preorder(nodes, ch[m]);
      }
    }
  }

  lemma DistinctConcat(a: seq<nat>, b: seq<nat>)
    requires Distinct(a) && Distinct(b)
    requires forall x :: x in a ==> x !in b
    ensures Distinct(a + b)
  {
    forall p, q | 0 <= p < q < |a + b|
      ensures (a + b)[p] != (a + b)[q]
    {
      if q < |a| {
      } else if p >= |a| {
        assert (a + b)[p] == b[p - |a|] && (a + b)[q] == b[q - |a|];
      } else {
        assert (a + b)[p] in a && (a + b)[q] == b[q - |a|];
      }
    }
  }

  lemma {:induction false} PreorderChildrenDistinct(nodes: seq<Node>, i: nat, k: nat)
    requires WellFormed(nodes) && i < |nodes| && k <= |nodes[i].children|
    requires forall m :: 0 <= m < |nodes[i].children| ==> Distinct(Preorder(nodes, nodes[i].children[m]))
    ensures Distinct(PreorderChildren(nodes, i, k))
    decreases |nodes[i].children| - k
  {
    var ch := nodes[i].children;
    if k < |ch| {
      PreorderChildrenDistinct(nodes, i, k + 1);
      forall x | x in Preorder(nodes, ch[k])
        ensures x !in PreorderChildren(nodes, i, k + 1)
      {
        PreorderMembers(nodes, ch[k]);
        PreorderChildrenMembers(nodes, i, k + 1, x);
        if x in PreorderChildren(nodes, i, k + 1) {
          var m :| k + 1 <= m < |ch| && x in Preorder(nodes, ch[m]);
          PreorderMembers(nodes, ch[m]);
          SiblingSubtreesDisjoint(nodes, i, k, m, x);
        }
      }
      DistinctConcat(Preorder(nodes, ch[k]), PreorderChildren(nodes, i, k + 1));
    }
  }

  /** Each node of the subtree appears exactly once. */
  lemma {:induction false} PreorderDistinct(nodes: seq<Node>, i: nat)
    requires WellFormed(nodes) && i < |nodes|
    ensures Distinct(Preorder(nodes, i))
    decreases |nodes| - i
  {
    var ch := nodes[i].children;
    forall m | 0 <= m < |ch| {
      PreorderDistinct(nodes, ch[m]);
    }
    PreorderChildrenDistinct(nodes, i, 0);
    forall x | x in PreorderChildren(nodes, i, 0)
      ensures x != i
    {
      PreorderChildrenMembers(nodes, i, 0, x);
      var m :| 0 <= m < |ch| && x in Preorder(nodes, ch[m]);
      PreorderMembers(nodes, ch[m]);
      DescendsOrder(nodes, ch[m], x);
    }
    DistinctConcat([i], PreorderChildren(nodes, i, 0));
  }

  /** The set of elements of a list. */
  function Elems(s: seq<nat>): set<nat>
  {
    set x | x in s
  }

  /** A list without repetitions has as many entries as elements. */
  lemma {:induction false} DistinctCard(s: seq<nat>)
    requires Distinct(s)
    ensures |Elems(s)| == |s|
  {
    if s != [] {
      assert Distinct(s[1..]) by {
        forall a, b | 0 <= a < b < |s[1..]| ensures s[1..][a] != s[1..][b] {
          assert s[1..][a] == s[a + 1] && s[1..][b] == s[b + 1];
        }
      }
      DistinctCard(s[1..]);
      assert Elems(s) == {s[0]} + Elems(s[1..]);
      assert s[0] !in Elems(s[1..]) by {
        forall b | 0 <= b < |s[1..]| ensures s[1..][b] != s[0] {
          assert s[1..][b] == s[b + 1];
        }
      }
    }
  }

  /** A preorder has as many entries as the subtree has nodes. */
  lemma PreorderSize(nodes: seq<Node>, i: nat)
    requires WellFormed(nodes) && i < |nodes|
    ensures Elems(Preorder(nodes, i)) == Subtree(nodes, i)
    ensures |Preorder(nodes, i)| == |Subtree(nodes, i)|
  {
    PreorderMembers(nodes, i);
    PreorderDistinct(nodes, i);
    DistinctCard(Preorder(nodes, i));
  }

  /** The indices `0`, ..., `n - 1` in order. */
  function Range(n: nat): (r: seq<nat>)
    ensures |r| == n && forall k :: 0 <= k < n ==> r[k] == k
  {
    if n == 0 then [] else Range(n - 1) + [n - 1]
  }

  /** From the root, the preorder lists every node of the tree exactly once. */
  lemma PreorderFromRoot(nodes: seq<Node>)
    requires WellFormed(nodes)
    ensures Distinct(Preorder(nodes, 0)) && |Preorder(nodes, 0)| == |nodes|
    ensures forall x: nat :: x in Preorder(nodes, 0) <==> x < |nodes|
  {
    PreorderMembers(nodes, 0);
    PreorderDistinct(nodes, 0);
    DistinctCard(Preorder(nodes, 0));
    var r := Range(|nodes|);
    assert Distinct(r);
    DistinctCard(r);
    forall x: nat | x < |nodes| ensures Descends(nodes, 0, x) && x in r {
      RootReachesAll(nodes, x);
      assert r[x] == x;
    }
    assert Elems(Preorder(nodes, 0)) == Elems(r);
  }

  /** Entry `q` of `s` is a node whose parent occurs earlier in `s`. */
  predicate ParentEarlier(nodes: seq<Node>, s: seq<nat>, q: nat)
    requires q < |s|
  {
    s[q] < |nodes| && nodes[s[q]].parent.Some? &&
    exists p :: 0 <= p < q && s[p] == nodes[s[q]].parent.value
  }

  /** Within children's preorders, each node either is a child of `i` or follows its parent. */
  lemma {:induction false} PreorderChildrenParentsFirst(nodes: seq<Node>, i: nat, k: nat)
    requires WellFormed(nodes) && i < |nodes| && k <= |nodes[i].children|
    ensures forall q :: 0 <= q < |PreorderChildren(nodes, i, k)| ==>
      var s := PreorderChildren(nodes, i, k);
      s[q] < |nodes| && (nodes[s[q]].parent == Some(i) || ParentEarlier(nodes, s, q))
    decreases |nodes| - i, 0, |nodes[i].children| - k
  {
    var ch := nodes[i].children;
    if k < |ch| {
      var c := ch[k];
      PreorderParentsFirst(nodes, c);
      PreorderChildrenParentsFirst(nodes, i, k + 1);
      var a, b := Preorder(nodes, c), PreorderChildren(nodes, i, k + 1);
      var s := a + b;
      assert PreorderChildren(nodes, i, k) == s;
      forall q | 0 <= q < |s|
        ensures s[q] < |nodes| && (nodes[s[q]].parent == Some(i) || ParentEarlier(nodes, s, q))
      {
        if q == 0 {
          assert s[0] == c;
        } else if q < |a| {
          assert ParentEarlier(nodes, a, q);
          var p :| 0 <= p < q && a[p] == nodes[a[q]].parent.value;
          assert s[p] == a[p];
        } else {
          var q' := q - |a|;
          assert 0 <= q' < |b| && s[q] == b[q'];
          if nodes[s[q]].parent != Some(i) {
            assert ParentEarlier(nodes, b, q');
            var p :| 0 <= p < q' && b[p] == nodes[b[q']].parent.value;
            assert s[p + |a|] == b[p];
          }
        }
      }
    }
  }

  /** Every node of a preorder after the first is preceded by its parent. */
  lemma {:induction false} PreorderParentsFirst(nodes: seq<Node>, i: nat)
    requires WellFormed(nodes) && i < |nodes|
    ensures Preorder(nodes, i)[0] == i
    ensures forall q :: 0 < q < |Preorder(nodes, i)| ==> ParentEarlier(nodes, Preorder(nodes, i), q)
    decreases |nodes| - i, 1
  {
    PreorderChildrenParentsFirst(nodes, i, 0);
    var s := Preorder(nodes, i);
    var b := PreorderChildren(nodes, i, 0);
    forall q | 0 < q < |s|
      ensures ParentEarlier(nodes, s, q)
    {
      var q' := q - 1;
      assert 0 <= q' < |b| && s[q] == b[q'];
      if nodes[s[q]].parent == Some(i) {
        assert s[0] == i;
      } else {
        assert ParentEarlier(nodes, b, q');
        var p :| 0 <= p < q' && b[p] == nodes[b[q']].parent.value;
        assert s[p + 1] == b[p];
      }
    }
  }

  // ---------------------------------------------------------------------------------------
  // Post-order

  /**
   * `postorder(node)` as written: the preorder (not the postorder) of each child in child
   * order, then the node.
   */
  function Postorder(nodes: seq<Node>, i: nat): seq<nat>
    requires WellFormed(nodes) && i < |nodes|
  {
    PreorderChildren(nodes, i, 0) + [i]
  }

  /** `postorder(node, list)`: each child's subtree through `preorder`, then the node itself. */
  method PostorderInto(nodes: seq<Node>, node: nat, list: seq<nat>) returns (out: seq<nat>)
    requires WellFormed(nodes) && node < |nodes|
    ensures out == list + Postorder(nodes, node)
  {
    out := list;
    var children := nodes[node].children;
    for k := 0 to |children|
      invariant out + PreorderChildren(nodes, node, k) == list + PreorderChildren(nodes, node, 0)
    {
      var before := out;
      out := PreorderInto(nodes, children[k], out);
      assert PreorderChildren(nodes, node, k) ==
             Preorder(nodes, children[k]) + PreorderChildren(nodes, node, k + 1);
      assert before + PreorderChildren(nodes, node, k) == out + PreorderChildren(nodes, node, k + 1);
    }
    assert PreorderChildren(nodes, node, |children|) == [];
    assert out == list + PreorderChildren(nodes, node, 0);
    out := out + [node];
  }

  /** What `postorder` computes is the preorder with its first node moved to the end. */
  lemma PostorderRotatesPreorder(nodes: seq<Node>, i: nat)
    requires WellFormed(nodes) && i < |nodes|
    ensures Postorder(nodes, i) == Preorder(nodes, i)[1..] + [Preorder(nodes, i)[0]]
    ensures multiset(Postorder(nodes, i)) == multiset(Preorder(nodes, i))
  {
    var s := Preorder(nodes, i);
    assert s[1..] == PreorderChildren(nodes, i, 0);
    assert s == [s[0]] + s[1..];
    assert multiset(s) == multiset([s[0]]) + multiset(s[1..]);
    assert multiset(Postorder(nodes, i)) == multiset(s[1..]) + multiset([s[0]]);
  }

  /** A post-order proper: the postorder of each child in child order, then the node. */
  function TruePostorder(nodes: seq<Node>, i: nat): seq<nat>
    requires WellFormed(nodes) && i < |nodes|
    decreases |nodes| - i, 1
  {
    TruePostorderChildren(nodes, i, 0) + [i]
  }

  function TruePostorderChildren(nodes: seq<Node>, i: nat, k: nat): seq<nat>
    requires WellFormed(nodes) && i < |nodes| && k <= |nodes[i].children|
    decreases |nodes| - i, 0, |nodes[i].children| - k
  {
    if k == |nodes[i].children| then []
    else TruePostorder(nodes, nodes[i].children[k]) + TruePostorderChildren(nodes, i, k + 1)
  }

  /** Entry `q` of `s` is a node whose parent occurs later in `s`. */
  predicate ParentLater(nodes: seq<Node>, s: seq<nat>, q: nat)
    requires q < |s|
  {
    s[q] < |nodes| && nodes[s[q]].parent.Some? &&
    exists p :: q < p < |s| && s[p] == nodes[s[q]].parent.value
  }

  lemma {:induction false} TruePostorderChildrenFirst(nodes: seq<Node>, i: nat, k: nat)
    requires WellFormed(nodes) && i < |nodes| && k <= |nodes[i].children|
    ensures forall q :: 0 <= q < |TruePostorderChildren(nodes, i, k)| ==>
      var s := TruePostorderChildren(nodes, i, k);
      s[q] < |nodes| && (nodes[s[q]].parent == Some(i) || ParentLater(nodes, s, q))
    decreases |nodes| - i, 0, |nodes[i].children| - k
  {
    var ch := nodes[i].children;
    if k < |ch| {
      var c := ch[k];
      TruePostorderChildrenFirst(nodes, c, 0);
      TruePostorderChildrenFirst(nodes, i, k + 1);
      var a, b := TruePostorder(nodes, c), TruePostorderChildren(nodes, i, k + 1);
      var a' := TruePostorderChildren(nodes, c, 0);
      var s := a + b;
      assert TruePostorderChildren(nodes, i, k) == s;
      forall q | 0 <= q < |s|
        ensures s[q] < |nodes| && (nodes[s[q]].parent == Some(i) || ParentLater(nodes, s, q))
      {
        if q == |a| - 1 {
          assert s[q] == c;
        } else if q < |a| - 1 {
          assert s[q] == a'[q];
          if nodes[a'[q]].parent == Some(c) {
            assert s[|a| - 1] == c;
          } else {
            assert ParentLater(nodes, a', q);
            var p :| q < p < |a'| && a'[p] == nodes[a'[q]].parent.value;
            assert s[p] == a'[p];
          }
        } else {
          var q' := q - |a|;
          assert 0 <= q' < |b| && s[q] == b[q'];
          if nodes[s[q]].parent != Some(i) {
            assert ParentLater(nodes, b, q');
            var p :| q' < p < |b| && b[p] == nodes[b[q']].parent.value;
            assert s[p + |a|] == b[p];
          }
        }
      }
    }
  }

  /** In a post-order proper every node but the last is followed by its parent. */
  lemma TruePostorderChildrenBeforeParents(nodes: seq<Node>, i: nat)
    requires WellFormed(nodes) && i < |nodes|
    ensures TruePostorder(nodes, i)[|TruePostorder(nodes, i)| - 1] == i
    ensures forall q :: 0 <= q < |TruePostorder(nodes, i)| - 1 ==> ParentLater(nodes, TruePostorder(nodes, i), q)
  {
    TruePostorderChildrenFirst(nodes, i, 0);
    var s := TruePostorder(nodes, i);
    var b := TruePostorderChildren(nodes, i, 0);
    forall q | 0 <= q < |s| - 1
      ensures ParentLater(nodes, s, q)
    {
      assert s[q] == b[q];
      if nodes[s[q]].parent == Some(i) {
        assert s[|s| - 1] == i;
      } else {
        assert ParentLater(nodes, b, q);
        var p :| q < p < |b| && b[p] == nodes[b[q]].parent.value;
        assert s[p] == b[p];
      }
    }
  }

  /** A root with one child, which has one child of its own. */
  function Chain(): seq<Node>
  {
    [Node(None, [1], None, Undefined, None),
     Node(Some(0), [2], None, Undefined, None),
     Node(Some(1), [], None, Undefined, None)]
  }

  lemma ChainWellFormed(nodes: seq<Node>)
    requires nodes == Chain()
    ensures WellFormed(nodes)
  {
    assert LinkedToParent(nodes, 1) && LinkedToParent(nodes, 2);
  }

  /**
   * On the chain 0 - 1 - 2, `postorder` as written lists 1 before its child 2: its result is not
   * a post-order, while the corrected traversal gives 2, 1, 0.
   */
  lemma PostorderCounterexample(nodes: seq<Node>)
    requires nodes == Chain()
    ensures WellFormed(nodes)
    ensures Postorder(nodes, 0) == [1, 2, 0] && !ParentLater(nodes, Postorder(nodes, 0), 1)
    ensures TruePostorder(nodes, 0) == [2, 1, 0]
  {
    ChainWellFormed(nodes);
    ChainPreorder(nodes);
    ChainTruePostorder(nodes);
  }

  lemma ChainPreorder(nodes: seq<Node>)
    requires nodes == Chain() && WellFormed(nodes)
    ensures PreorderChildren(nodes, 0, 0) == [1, 2]
  {
    assert Preorder(nodes, 2) == [2];
    assert PreorderChildren(nodes, 1, 0) == [2];
    assert Preorder(nodes, 1) == [1, 2];
  }

  lemma ChainTruePostorder(nodes: seq<Node>)
    requires nodes == Chain() && WellFormed(nodes)
    ensures TruePostorder(nodes, 0) == [2, 1, 0]
  {
    ChainTruePostorderOf2(nodes);
    assert TruePostorderChildren(nodes, 1, 0) == [2];
  }

  lemma ChainTruePostorderOf2(nodes: seq<Node>)
    requires nodes == Chain() && WellFormed(nodes)
    ensures TruePostorder(nodes, 2) == [2] && TruePostorderChildren(nodes, 1, 1) == [] && TruePostorderChildren(nodes, 0, 1) == []
  {
  }

  // ---------------------------------------------------------------------------------------
  // The stack walk of `levelorder`

  /** A pre-order that visits the children from the last to the first. */
  function MirrorPreorder(nodes: seq<Node>, i: nat): (r: seq<nat>)
    requires WellFormed(nodes) && i < |nodes|
    ensures |r| >= 1 && r[0] == i && InArena(nodes, r)
    decreases |nodes| - i, 1, 0
  {
    [i] + MirrorChildren(nodes, i, |nodes[i].children|)
  }

  /** The mirrored preorders of the first `k` children of `i`, from the `k`-th down to the first. */
  function MirrorChildren(nodes: seq<Node>, i: nat, k: nat): (r: seq<nat>)
    requires WellFormed(nodes) && i < |nodes| && k <= |nodes[i].children|
    ensures InArena(nodes, r)
    decreases |nodes| - i, 0, k
  {
    if k == 0 then []
    else MirrorPreorder(nodes, nodes[i].children[k - 1]) + MirrorChildren(nodes, i, k - 1)
  }

  /** What popping `stack` to the end yields: the walk below its top entry, then below the rest. */
  function StackWalk(nodes: seq<Node>, stack: seq<nat>): seq<nat>
    requires WellFormed(nodes) && InArena(nodes, stack)
    decreases |stack|
  {
    if stack == [] then []
    else MirrorPreorder(nodes, stack[|stack| - 1]) + StackWalk(nodes, stack[..|stack| - 1])
  }

  /** Entries pushed last are walked first. */
  lemma {:induction false} StackWalkConcat(nodes: seq<Node>, a: seq<nat>, b: seq<nat>)
    requires WellFormed(nodes) && InArena(nodes, a) && InArena(nodes, b)
    ensures InArena(nodes, a + b)
    ensures StackWalk(nodes, a + b) == StackWalk(nodes, b) + StackWalk(nodes, a)
    decreases |b|
  {
    assert InArena(nodes, a + b) by {
      forall m | 0 <= m < |a + b| ensures (a + b)[m] < |nodes| {
        if m >= |a| { assert (a + b)[m] == b[m - |a|]; }
      }
    }
    if b == [] {
      assert a + b == a;
    } else {
      var b' := b[..|b| - 1];
      assert (a + b)[..|a + b| - 1] == a + b';
      assert (a + b)[|a + b| - 1] == b[|b| - 1];
      StackWalkConcat(nodes, a, b');
    }
  }

  /** Popping the top entry of a stack and pushing its children walks the same nodes after it. */
  lemma StackWalkPop(nodes: seq<Node>, rest: seq<nat>, top: nat)
    requires WellFormed(nodes) && InArena(nodes, rest) && top < |nodes|
    ensures InArena(nodes, rest + [top]) && InArena(nodes, rest + nodes[top].children)
    ensures StackWalk(nodes, rest + [top]) == [top] + StackWalk(nodes, rest + nodes[top].children)
  {
    var ch := nodes[top].children;
    StackWalkChildren(nodes, top, |ch|);
    assert ch[..|ch|] == ch;
    StackWalkConcat(nodes, rest, ch);
    StackWalkConcat(nodes, rest, [top]);
    assert [top][..0] == [];
    SeqRegroup([top], StackWalk(nodes, ch), StackWalk(nodes, rest));
  }

  lemma SeqRegroup(a: seq<nat>, b: seq<nat>, c: seq<nat>)
    ensures (a + b) + c == a + (b + c)
  {
  }

  /** Pushing the children of `i` in order and popping them walks `MirrorChildren`. */
  lemma {:induction false} StackWalkChildren(nodes: seq<Node>, i: nat, k: nat)
    requires WellFormed(nodes) && i < |nodes| && k <= |nodes[i].children|
    ensures InArena(nodes, nodes[i].children[..k])
    ensures StackWalk(nodes, nodes[i].children[..k]) == MirrorChildren(nodes, i, k)
    decreases k
  {
    var ch := nodes[i].children;
    if k > 0 {
      StackWalkChildren(nodes, i, k - 1);
      assert ch[..k][..k - 1] == ch[..k - 1];
    }
  }

  /**
   * `levelorder(root)`: pop the last entry of the list, record it, push its children in order;
   * despite its name, a depth-first walk that visits children from the last to the first
   * (public/js/phylo.js:107-121).
   */
  method Levelorder(nodes: seq<Node>, root: nat) returns (result: seq<nat>)
    requires WellFormed(nodes) && root < |nodes|
    ensures result == MirrorPreorder(nodes, root)
  {
    var queue := [root];
    result := [];
    assert queue[..0] == [];
    while |queue| > 0
      invariant InArena(nodes, queue)
      invariant result + StackWalk(nodes, queue) == MirrorPreorder(nodes, root)
      decreases |StackWalk(nodes, queue)|
    {
      ghost var before := queue;
      ghost var prefix := result;
      var curnode := queue[|queue| - 1];
      queue := queue[..|queue| - 1];
      ghost var rest := queue;
      assert before == rest + [curnode];
      StackWalkPop(nodes, rest, curnode);
      result := result + [curnode];
      var children := nodes[curnode].children;
      for k := 0 to |children|
        invariant queue == rest + children[..k]
      {
        assert children[..k + 1] == children[..k] + [children[k]];
        queue := queue + [children[k]];
      }
      assert queue == rest + children by {
        assert children[..|children|] == children;
      }
      SeqRegroup(prefix, [curnode], StackWalk(nodes, queue));
    }
  }

  lemma {:induction false} MirrorChildrenPermutes(nodes: seq<Node>, i: nat, k: nat)
    requires WellFormed(nodes) && i < |nodes| && k <= |nodes[i].children|
    ensures multiset(MirrorChildren(nodes, i, k)) + multiset(PreorderChildren(nodes, i, k)) ==
            multiset(PreorderChildren(nodes, i, 0))
    decreases |nodes| - i, 0, k
  {
    if k > 0 {
      var c := nodes[i].children[k - 1];
      MirrorPermutesPreorder(nodes, c);
      MirrorChildrenPermutes(nodes, i, k - 1);
      assert MirrorChildren(nodes, i, k) == MirrorPreorder(nodes, c) + MirrorChildren(nodes, i, k - 1);
      assert PreorderChildren(nodes, i, k - 1) == Preorder(nodes, c) + PreorderChildren(nodes, i, k);
      assert multiset(MirrorChildren(nodes, i, k)) == multiset(Preorder(nodes, c)) + multiset(MirrorChildren(nodes, i, k - 1));
      assert multiset(PreorderChildren(nodes, i, k - 1)) == multiset(Preorder(nodes, c)) + multiset(PreorderChildren(nodes, i, k));
      MultisetRegroup(multiset(Preorder(nodes, c)), multiset(MirrorChildren(nodes, i, k - 1)), multiset(PreorderChildren(nodes, i, k)));
    } else {
      assert MirrorChildren(nodes, i, 0) == [];
    }
  }

  lemma MultisetRegroup(p: multiset<nat>, b: multiset<nat>, q: multiset<nat>)
    ensures (p + b) + q == b + (p + q)
  {
  }

  /** The mirrored walk visits the same nodes as the preorder, each as often. */
  lemma {:induction false} MirrorPermutesPreorder(nodes: seq<Node>, i: nat)
    requires WellFormed(nodes) && i < |nodes|
    ensures multiset(MirrorPreorder(nodes, i)) == multiset(Preorder(nodes, i))
    decreases |nodes| - i, 1
  {
    var ch := nodes[i].children;
    MirrorChildrenPermutes(nodes, i, |ch|);
    assert PreorderChildren(nodes, i, |ch|) == [];
  }

  /** A list without repetitions holds each element once. */
  lemma {:induction false} DistinctMultiplicity(s: seq<nat>)
    ensures Distinct(s) <==> forall x :: multiset(s)[x] <= 1
  {
    if s != [] {
      var t := s[1..];
      DistinctMultiplicity(t);
      assert s == [s[0]] + t;
      assert multiset(s) == multiset{s[0]} + multiset(t);
      if Distinct(s) {
        assert Distinct(t) by {
          forall a, b | 0 <= a < b < |t| ensures t[a] != t[b] {
            assert t[a] == s[a + 1] && t[b] == s[b + 1];
          }
        }
        assert s[0] !in t by {
          forall b | 0 <= b < |t| ensures t[b] != s[0] {
            assert t[b] == s[b + 1];
          }
        }
      } else {
        var a, b :| 0 <= a < b < |s| && s[a] == s[b];
        if a == 0 {
          assert s[b] == t[b - 1];
          assert multiset(s)[s[0]] >= 2;
        } else {
          assert t[a - 1] == s[a] && t[b - 1] == s[b];
          assert !Distinct(t);
          var x :| multiset(t)[x] > 1;
          assert multiset(s)[x] > 1;
        }
      }
    }
  }

  /**
   * What `levelorder` returns starts with its argument and lists every node of its subtree
   * exactly once: a permutation of the preorder.
   */
  lemma LevelorderVisitsSubtree(nodes: seq<Node>, i: nat)
    requires WellFormed(nodes) && i < |nodes|
    ensures MirrorPreorder(nodes, i)[0] == i
    ensures multiset(MirrorPreorder(nodes, i)) == multiset(Preorder(nodes, i))
    ensures Distinct(MirrorPreorder(nodes, i))
    ensures forall x: nat :: x in MirrorPreorder(nodes, i) <==> x < |nodes| && Descends(nodes, i, x)
  {
    MirrorPermutesPreorder(nodes, i);
    PreorderDistinct(nodes, i);
    PreorderMembers(nodes, i);
    DistinctMultiplicity(Preorder(nodes, i));
    DistinctMultiplicity(MirrorPreorder(nodes, i));
    forall x: nat ensures x in MirrorPreorder(nodes, i) <==> x in Preorder(nodes, i) {
      assert x in MirrorPreorder(nodes, i) <==> x in multiset(MirrorPreorder(nodes, i));
      assert x in Preorder(nodes, i) <==> x in multiset(Preorder(nodes, i));
    }
  }

  /** A root with children 1 and 2, where 2 has a child 3. */
  function Fork(): seq<Node>
  {
    [Node(None, [1, 2], None, Undefined, None),
     Node(Some(0), [], None, Undefined, None),
     Node(Some(0), [3], None, Undefined, None),
     Node(Some(2), [], None, Undefined, None)]
  }

  /**
   * `levelorder` is not breadth-first: on Fork it visits the grandchild 3 before the child 1,
   * where a breadth-first walk would give 0, 1, 2, 3.
   */
  lemma LevelorderNotBreadthFirst(nodes: seq<Node>)
    requires nodes == Fork()
    ensures WellFormed(nodes)
    ensures MirrorPreorder(nodes, 0) == [0, 2, 3, 1]
  {
    ForkWellFormed(nodes);
    ForkMirror(nodes);
  }

  lemma ForkWellFormed(nodes: seq<Node>)
    requires nodes == Fork()
    ensures WellFormed(nodes)
  {
    assert |nodes| == 4;
    var c0, c2 := nodes[0].children, nodes[2].children;
    assert c0 == [1, 2] && c2 == [3] && |nodes[1].children| == 0 && |nodes[3].children| == 0;
    forall j | 0 < j < |nodes| ensures LinkedToParent(nodes, j) {
      if j == 1 { assert 1 in c0; } else if j == 2 { assert 2 in c0; } else { assert 3 in c2; }
    }
    forall i, k | 0 <= i < |nodes| && 0 <= k < |nodes[i].children|
      ensures i < nodes[i].children[k] < |nodes| && nodes[nodes[i].children[k]].parent == Some(i)
    {
      if i == 0 { assert nodes[i].children[k] == k + 1; } else { assert i == 2 && k == 0; }
    }
    forall i, k, m | 0 <= i < |nodes| && 0 <= k < m < |nodes[i].children|
      ensures nodes[i].children[k] < nodes[i].children[m]
    {
      assert i == 0 && k == 0 && m == 1;
    }
  }

  lemma ForkMirror(nodes: seq<Node>)
    requires nodes == Fork() && WellFormed(nodes)
    ensures MirrorPreorder(nodes, 0) == [0, 2, 3, 1]
  {
    assert MirrorPreorder(nodes, 3) == [3];
    assert MirrorPreorder(nodes, 1) == [1];
    assert MirrorChildren(nodes, 2, 1) == [3];
    assert MirrorPreorder(nodes, 2) == [2, 3];
    assert MirrorChildren(nodes, 0, 1) == [1];
    assert MirrorChildren(nodes, 0, 2) == [2, 3, 1];
  }

  // ---------------------------------------------------------------------------------------
  // Counting tips

  /** The number of entries of `s` that are childless nodes. */
  function CountTips(nodes: seq<Node>, s: seq<nat>): nat
    requires InArena(nodes, s)
  {
    if s == [] then 0
    else CountTips(nodes, s[..|s| - 1]) + (if IsTip(nodes[s[|s| - 1]]) then 1 else 0)
  }

  /** The tips of the subtree of `i`: the childless nodes its preorder lists. */
  function TipCount(nodes: seq<Node>, i: nat): nat
    requires WellFormed(nodes) && i < |nodes|
  {
    CountTips(nodes, Preorder(nodes, i))
  }

  /** The childless nodes below `i`. */
  ghost function SubtreeTips(nodes: seq<Node>, i: nat): set<nat>
  {
    set j | 0 <= j < |nodes| && Descends(nodes, i, j) && IsTip(nodes[j])
  }

  lemma {:induction false} CountTipsConcat(nodes: seq<Node>, a: seq<nat>, b: seq<nat>)
    requires InArena(nodes, a) && InArena(nodes, b)
    ensures InArena(nodes, a + b)
    ensures CountTips(nodes, a + b) == CountTips(nodes, a) + CountTips(nodes, b)
    decreases |b|
  {
    assert InArena(nodes, a + b) by {
      forall m | 0 <= m < |a + b| ensures (a + b)[m] < |nodes| {
        if m >= |a| { assert (a + b)[m] == b[m - |a|]; }
      }
    }
    if b == [] {
      assert a + b == a;
    } else {
      var b' := b[..|b| - 1];
      assert (a + b)[..|a + b| - 1] == a + b';
      assert (a + b)[|a + b| - 1] == b[|b| - 1];
      CountTipsConcat(nodes, a, b');
    }
  }

  /** Taking entry `j` out of a list removes its share of the count. */
  lemma CountTipsRemove(nodes: seq<Node>, b: seq<nat>, j: nat)
    requires InArena(nodes, b) && j < |b|
    ensures InArena(nodes, b[..j] + b[j + 1..])
    ensures CountTips(nodes, b) == CountTips(nodes, b[..j] + b[j + 1..]) + (if IsTip(nodes[b[j]]) then 1 else 0)
  {
    var b1, b2, x := b[..j], b[j + 1..], b[j];
    assert b == b1 + [x] + b2;
    assert InArena(nodes, b1) && InArena(nodes, b2) by {
      forall m | 0 <= m < |b1| ensures b1[m] < |nodes| { assert b1[m] == b[m]; }
      forall m | 0 <= m < |b2| ensures b2[m] < |nodes| { assert b2[m] == b[m + j + 1]; }
    }
    CountTipsConcat(nodes, b1, b2);
    CountTipsConcat(nodes, b1, [x]);
    CountTipsConcat(nodes, b1 + [x], b2);
    assert [x][..0] == [];
  }

  /** The last entry of `a` occurs in any list with the same multiset. */
  lemma MultisetIndex(a: seq<nat>, b: seq<nat>) returns (j: nat)
    requires a != [] && multiset(a) == multiset(b)
    ensures j < |b| && b[j] == a[|a| - 1]
  {
    assert a[|a| - 1] in multiset(a);
    j :| 0 <= j < |b| && b[j] == a[|a| - 1];
  }

  lemma RemoveShrinksMultiset(a: seq<nat>, b: seq<nat>, j: nat)
    requires a != [] && multiset(a) == multiset(b) && j < |b| && b[j] == a[|a| - 1]
    ensures multiset(a[..|a| - 1]) == multiset(b[..j] + b[j + 1..])
  {
    var x := b[j];
    assert a == a[..|a| - 1] + [x];
    assert b == b[..j] + [x] + b[j + 1..];
    assert multiset(a) == multiset(a[..|a| - 1]) + multiset{x};
    assert multiset(b) == multiset(b[..j]) + multiset{x} + multiset(b[j + 1..]);
    assert multiset(b[..j] + b[j + 1..]) == multiset(b[..j]) + multiset(b[j + 1..]);
    var ma, mb := multiset(a[..|a| - 1]), multiset(b[..j] + b[j + 1..]);
    forall y ensures ma[y] == mb[y] {
      assert multiset(a)[y] == ma[y] + multiset{x}[y];
      assert multiset(b)[y] == mb[y] + multiset{x}[y];
    }
  }

  /** The count depends only on which entries occur how often. */
  lemma {:induction false} CountTipsPermutation(nodes: seq<Node>, a: seq<nat>, b: seq<nat>)
    requires InArena(nodes, a) && InArena(nodes, b) && multiset(a) == multiset(b)
    ensures CountTips(nodes, a) == CountTips(nodes, b)
    decreases |a|
  {
    if a == [] {
      assert |multiset(b)| == 0;
    } else {
      var x := a[|a| - 1];
      var a' := a[..|a| - 1];
      assert InArena(nodes, a') by {
        forall m | 0 <= m < |a'| ensures a'[m] < |nodes| { assert a'[m] == a[m]; }
      }
      assert CountTips(nodes, a) == CountTips(nodes, a') + (if IsTip(nodes[x]) then 1 else 0);
      var j := MultisetIndex(a, b);
      CountTipsRemove(nodes, b, j);
      var b' := b[..j] + b[j + 1..];
      RemoveShrinksMultiset(a, b, j);
      CountTipsPermutation(nodes, a', b');
    }
  }

  /**
   * `numTips(thisnode)`: one for every childless node `levelorder` returns
   * (public/js/phylo.js:127-133).
   */
  method NumTips(nodes: seq<Node>, thisnode: nat) returns (result: nat)
    requires WellFormed(nodes) && thisnode < |nodes|
    ensures result == TipCount(nodes, thisnode)
  {
    result := 0;
    var order := Levelorder(nodes, thisnode);
    for k := 0 to |order|
      invariant InArena(nodes, order[..k])
      invariant result == CountTips(nodes, order[..k])
    {
      assert order[..k + 1][..k] == order[..k];
      if |nodes[order[k]].children| == 0 {
        result := result + 1;
      }
    }
    assert order[..|order|] == order;
    MirrorPermutesPreorder(nodes, thisnode);
    CountTipsPermutation(nodes, order, Preorder(nodes, thisnode));
  }

  /** The tips of the first `k` children of `i`, added up. */
  function TipsBefore(nodes: seq<Node>, i: nat, k: nat): nat
    requires WellFormed(nodes) && i < |nodes| && k <= |nodes[i].children|
  {
    if k == 0 then 0 else TipsBefore(nodes, i, k - 1) + TipCount(nodes, nodes[i].children[k - 1])
  }

  lemma {:induction false} CountPreorderChildren(nodes: seq<Node>, i: nat, k: nat)
    requires WellFormed(nodes) && i < |nodes| && k <= |nodes[i].children|
    ensures CountTips(nodes, PreorderChildren(nodes, i, k)) + TipsBefore(nodes, i, k) ==
            TipsBefore(nodes, i, |nodes[i].children|)
    decreases |nodes[i].children| - k
  {
    var ch := nodes[i].children;
    if k < |ch| {
      CountPreorderChildren(nodes, i, k + 1);
      CountTipsConcat(nodes, Preorder(nodes, ch[k]), PreorderChildren(nodes, i, k + 1));
    }
  }

  /** A tip counts itself; an inner node counts the tips of its children, added up. */
  lemma TipCountSplits(nodes: seq<Node>, i: nat)
    requires WellFormed(nodes) && i < |nodes|
    ensures IsTip(nodes[i]) ==> TipCount(nodes, i) == 1
    ensures !IsTip(nodes[i]) ==> TipCount(nodes, i) == TipsBefore(nodes, i, |nodes[i].children|)
  {
    CountTipsConcat(nodes, [i], PreorderChildren(nodes, i, 0));
    assert [i][..0] == [];
    CountPreorderChildren(nodes, i, 0);
  }

  lemma {:induction false} TipsBeforeAtLeast(nodes: seq<Node>, i: nat, k: nat)
    requires WellFormed(nodes) && i < |nodes| && k <= |nodes[i].children|
    requires forall m :: 0 <= m < |nodes[i].children| ==> TipCount(nodes, nodes[i].children[m]) >= 1
    ensures TipsBefore(nodes, i, k) >= k
    decreases k
  {
    if k > 0 {
      TipsBeforeAtLeast(nodes, i, k - 1);
    }
  }

  /** Every subtree has a tip, so the divisions of the layout never divide by zero. */
  lemma {:induction false} TipCountPositive(nodes: seq<Node>, i: nat)
    requires WellFormed(nodes) && i < |nodes|
    ensures TipCount(nodes, i) >= 1
    decreases |nodes| - i
  {
    var ch := nodes[i].children;
    forall m | 0 <= m < |ch| {
      TipCountPositive(nodes, ch[m]);
    }
    TipCountSplits(nodes, i);
    TipsBeforeAtLeast(nodes, i, |ch|);
  }

  /** The childless nodes among the entries of `s`. */
  function TipSet(nodes: seq<Node>, s: seq<nat>): set<nat>
  {
    set y | y in s && y < |nodes| && IsTip(nodes[y])
  }

  lemma TipSetSnoc(nodes: seq<Node>, s: seq<nat>, x: nat)
    requires x < |nodes|
    ensures TipSet(nodes, s + [x]) == TipSet(nodes, s) + (if IsTip(nodes[x]) then {x} else {})
  {
    assert forall y :: y in s + [x] <==> y in s || y == x;
  }

  lemma {:induction false} CountTipsDistinct(nodes: seq<Node>, s: seq<nat>)
    requires InArena(nodes, s) && Distinct(s)
    ensures CountTips(nodes, s) == |TipSet(nodes, s)|
    decreases |s|
  {
    if s != [] {
      var x := s[|s| - 1];
      var s' := s[..|s| - 1];
      assert Distinct(s') by {
        forall a, b | 0 <= a < b < |s'| ensures s'[a] != s'[b] {
          assert s'[a] == s[a] && s'[b] == s[b];
        }
      }
      CountTipsDistinct(nodes, s');
      assert x !in TipSet(nodes, s') by {
        forall b | 0 <= b < |s'| ensures s'[b] != x { assert s'[b] == s[b]; }
      }
      assert s == s' + [x];
      TipSetSnoc(nodes, s', x);
    }
  }

  /** `numTips` counts exactly the childless nodes of the subtree. */
  lemma TipCountIsSubtreeTips(nodes: seq<Node>, i: nat)
    requires WellFormed(nodes) && i < |nodes|
    ensures TipCount(nodes, i) == |SubtreeTips(nodes, i)|
  {
    PreorderMembers(nodes, i);
    PreorderDistinct(nodes, i);
    CountTipsDistinct(nodes, Preorder(nodes, i));
    assert TipSet(nodes, Preorder(nodes, i)) == SubtreeTips(nodes, i);
  }
}
