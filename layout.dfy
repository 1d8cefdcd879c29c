/**
 * The arc part of `equalAngleLayout`: the root owns the arc from 0 to 2 (in units of pi), and
 * every node hands its arc out to its children in proportion to their numbers of tips, left to
 * right, each child's angle being the middle of its arc.
 *
 * The source writes `start`, `end`, `angle` and `ntips` onto the node objects; here they live in
 * an array `lay` parallel to the arena, and the arithmetic is exact (`real`).
 */
module Layout {
  import opened Wrappers
  import opened Arena
  import opened Traversal

  /** The fields `equalAngleLayout` gives a node; `Unset` before it has been laid out. */
  datatype Arc = Unset | Arc(start: real, end: real, angle: real, ntips: nat)

  /** An arc that can be divided among children: its tip count is not zero. */
  predicate Divisible(a: Arc)
  {
    a.Arc? && a.ntips > 0
  }

  /** What the root gets: the whole circle, angle 0, and the tips of the whole tree. */
  function RootArc(nodes: seq<Node>, root: nat): Arc
    requires WellFormed(nodes) && root < |nodes|
  {
    Arc(0.0, 2.0, 0.0, TipCount(nodes, root))
  }

  /** `w * x / t`: the part of a width `w` that `x` tips out of `t` get. */
  function Scaled(w: real, x: real, t: real): real
    requires t > 0.0
  {
    w * x / t
  }

  /** The width handed to child `k` of `p` when `p` owns arc `a`. */
  function Share(nodes: seq<Node>, p: nat, a: Arc, k: nat): real
    requires WellFormed(nodes) && p < |nodes| && k < |nodes[p].children| && Divisible(a)
  {
    Scaled(a.end - a.start, TipCount(nodes, nodes[p].children[k]) as real, a.ntips as real)
  }

  /** `lastStart` once the first `k` children of `p` are laid out. */
  function StartAt(nodes: seq<Node>, p: nat, a: Arc, k: nat): real
    requires WellFormed(nodes) && p < |nodes| && k <= |nodes[p].children| && Divisible(a)
  {
    if k == 0 then a.start else StartAt(nodes, p, a, k - 1) + Share(nodes, p, a, k - 1)
  }

  /** The arc of child `k` of `p`: from `lastStart`, its share wide, angle in the middle. */
  function ChildArc(nodes: seq<Node>, p: nat, a: Arc, k: nat): (r: Arc)
    requires WellFormed(nodes) && p < |nodes| && k < |nodes[p].children| && Divisible(a)
    ensures Divisible(r) && r.ntips == TipCount(nodes, nodes[p].children[k])
  {
    TipCountPositive(nodes, nodes[p].children[k]);
    var start := StartAt(nodes, p, a, k);
    var end := start + Share(nodes, p, a, k);
    Arc(start, end, start + (end - start) / 2.0, TipCount(nodes, nodes[p].children[k]))
  }

  /** The position of `x` in `s`. */
  function IndexOf(s: seq<nat>, x: nat): (k: nat)
    requires x in s
    ensures k < |s| && s[k] == x
  {
    if s[0] == x then 0 else 1 + IndexOf(s[1..], x)
  }

  /** In a children list, which is strictly increasing, a child's position is unique. */
  lemma IndexOfChild(nodes: seq<Node>, p: nat, k: nat)
    requires WellFormed(nodes) && p < |nodes| && k < |nodes[p].children|
    ensures IndexOf(nodes[p].children, nodes[p].children[k]) == k
  {
    var ch := nodes[p].children;
    var m := IndexOf(ch, ch[k]);
    assert ch[m] == ch[k];
  }

  /**
   * The arc node `j` ends up with when `equalAngleLayout` runs from `i`, an ancestor of `j`,
   * and `i` owns arc `a`: each node on the way down takes its child's share in turn.
   */
  ghost function ArcFrom(nodes: seq<Node>, i: nat, a: Arc, j: nat): (r: Arc)
    requires WellFormed(nodes) && i < |nodes| && j < |nodes| && Descends(nodes, i, j) && Divisible(a)
    ensures Divisible(r)
    decreases j
  {
    if j == i then a
    else
      var p := nodes[j].parent.value;
      assert LinkedToParent(nodes, j);
      ChildArc(nodes, p, ArcFrom(nodes, i, a, p), IndexOf(nodes[p].children, j))
  }

  /** `j` lies below one of the first `k` children of `i`. */
  ghost predicate BelowEarlierChild(nodes: seq<Node>, i: nat, k: nat, j: nat)
    requires WellFormed(nodes) && i < |nodes| && k <= |nodes[i].children|
  {
    k > 0 && (Descends(nodes, nodes[i].children[k - 1], j) || BelowEarlierChild(nodes, i, k - 1, j))
  }

  lemma {:induction false} BelowEarlierChildMeans(nodes: seq<Node>, i: nat, k: nat, j: nat)
    requires WellFormed(nodes) && i < |nodes| && k <= |nodes[i].children|
    ensures BelowEarlierChild(nodes, i, k, j) <==> exists m :: 0 <= m < k && Descends(nodes, nodes[i].children[m], j)
  {
    if k > 0 {
      BelowEarlierChildMeans(nodes, i, k - 1, j);
    }
  }

  /** Below one of the first `k` children means below none of the later ones. */
  lemma {:induction false} BelowEarlierChildDisjoint(nodes: seq<Node>, i: nat, k: nat, c: nat, j: nat)
    requires WellFormed(nodes) && i < |nodes| && k <= c < |nodes[i].children|
    requires BelowEarlierChild(nodes, i, k, j)
    ensures !Descends(nodes, nodes[i].children[c], j)
  {
    if Descends(nodes, nodes[i].children[k - 1], j) {
      SiblingSubtreesDisjoint(nodes, i, k - 1, c, j);
    } else {
      BelowEarlierChildDisjoint(nodes, i, k - 1, c, j);
    }
  }

  /** Below child `k` of `i`, laying out from the child with its arc gives the same arcs. */
  lemma {:induction false} ArcFromChild(nodes: seq<Node>, i: nat, a: Arc, k: nat, j: nat)
    requires WellFormed(nodes) && i < |nodes| && k < |nodes[i].children| && Divisible(a)
    requires j < |nodes| && Descends(nodes, nodes[i].children[k], j)
    ensures Descends(nodes, i, j)
    ensures ArcFrom(nodes, i, a, j) == ArcFrom(nodes, nodes[i].children[k], ChildArc(nodes, i, a, k), j)
    decreases j
  {
    var c := nodes[i].children[k];
    DescendsThroughParent(nodes, i, c, j);
    if j == c {
      IndexOfChild(nodes, i, k);
      assert nodes[c].parent == Some(i);
      assert Descends(nodes, i, i);
    } else {
      DescendsOrder(nodes, c, j);
      var p := nodes[j].parent.value;
      ArcFromChild(nodes, i, a, k, p);
    }
  }

  /**
   * `after` is `before` once the subtree of `node` is laid out from arc `a`: `node` holds `a`,
   * each node below it its `ArcFrom`, and every other entry is as it was.
   */
  ghost predicate LaidOut(nodes: seq<Node>, node: nat, a: Arc, before: seq<Arc>, after: seq<Arc>)
    requires WellFormed(nodes) && node < |nodes| && Divisible(a)
  {
    && |before| == |nodes| && |after| == |nodes| && after[node] == a
    && forall j :: 0 <= j < |nodes| && j != node ==>
         after[j] == if Descends(nodes, node, j) then ArcFrom(nodes, node, a, j) else before[j]
  }

  /**
   * `equalAngleLayout(node)`: the root first takes the whole circle; then each child in turn
   * gets its tip count and the next piece of the node's arc, its angle in the middle, and is
   * laid out in turn (public/js/phylo.js:170-203). Every node below `node` ends with the arc
   * `ArcFrom` describes, `node` keeps its own, and no other entry changes.
   */
  method EqualAngleLayout(nodes: seq<Node>, node: nat, lay: array<Arc>)
    requires WellFormed(nodes) && node < |nodes| && lay.Length == |nodes|
    requires nodes[node].parent.Some? ==> Divisible(lay[node])
    modifies lay
    ensures var a := if nodes[node].parent.None? then RootArc(nodes, node) else old(lay[node]);
      Divisible(a) && LaidOut(nodes, node, a, old(lay[..]), lay[..])
    decreases |nodes| - node, 1
  {
    if nodes[node].parent == None {
      var ntips := NumTips(nodes, node);
      TipCountPositive(nodes, node);
      lay[node] := Arc(0.0, 2.0, 0.0, ntips);
    }
    ghost var a := lay[node];
    ghost var before := old(lay[..]);
    var lastStart := lay[node].start;
    var children := nodes[node].children;
    for k := 0 to |children|
      invariant lay[node] == a && Divisible(a)
      invariant lastStart == StartAt(nodes, node, a, k)
      invariant ChildrenDone(nodes, node, a, k, before, lay[..])
    {
      lastStart := LayOutChild(nodes, node, k, lastStart, lay, before);
    }
    AllChildrenLaidOut(nodes, node, a, before, lay[..]);
  }

  /**
   * One pass of the children loop of `equalAngleLayout` (public/js/phylo.js:183-202): child `k`
   * gets its tip count, the next `arc`-wide piece from `lastStart` and the angle in the middle,
   * and is laid out in turn; the result is the next `lastStart`.
   */
  method LayOutChild(nodes: seq<Node>, node: nat, k: nat, lastStart: real, lay: array<Arc>, ghost before: seq<Arc>)
    returns (nextStart: real)
    requires WellFormed(nodes) && node < |nodes| && k < |nodes[node].children| && lay.Length == |nodes|
    requires Divisible(lay[node]) && lastStart == StartAt(nodes, node, lay[node], k)
    requires ChildrenDone(nodes, node, lay[node], k, before, lay[..])
    modifies lay
    ensures lay[node] == old(lay[node]) && nextStart == StartAt(nodes, node, lay[node], k + 1)
    ensures ChildrenDone(nodes, node, lay[node], k + 1, before, lay[..])
    decreases |nodes| - node, 0
  {
    ghost var a := lay[node];
    var child := nodes[node].children[k];
    assert node < child;
    var ntips := NumTips(nodes, child);
    var arc := (lay[node].end - lay[node].start) * (ntips as real) / (lay[node].ntips as real);
    var start := lastStart;
    var end := start + arc;
    ghost var cur := lay[..];
    ghost var ca := ChildArc(nodes, node, a, k);
    LoopChildArc(nodes, node, a, k, ntips, arc);
    lay[child] := Arc(start, end, start + (end - start) / 2.0, ntips);
    assert lay[child] == ca && Divisible(lay[child]);
    assert lay[..] == cur[child := ca];
    nextStart := end;
    EqualAngleLayout(nodes, child, lay);
    ChildLayoutStep(nodes, node, a, k, before, cur, lay[..]);
  }

  /** The arc the loop body of EqualAngleLayout computes for child `k` is `ChildArc`. */
  lemma LoopChildArc(nodes: seq<Node>, node: nat, a: Arc, k: nat, ntips: nat, arc: real)
    requires WellFormed(nodes) && node < |nodes| && k < |nodes[node].children| && Divisible(a)
    requires ntips == TipCount(nodes, nodes[node].children[k])
    requires arc == (a.end - a.start) * (ntips as real) / (a.ntips as real)
    ensures var start := StartAt(nodes, node, a, k);
      var end := start + arc;
      && Arc(start, end, start + (end - start) / 2.0, ntips) == ChildArc(nodes, node, a, k)
      && end == StartAt(nodes, node, a, k + 1)
  {
    assert arc == Share(nodes, node, a, k);
  }

  /**
   * While EqualAngleLayout walks the children of `node`: below the first `k` of them `cur`
   * holds the arcs `ArcFrom` gives, and outside them (and `node`) nothing has changed.
   */
  ghost predicate ChildrenDone(nodes: seq<Node>, node: nat, a: Arc, k: nat, before: seq<Arc>, cur: seq<Arc>)
    requires WellFormed(nodes) && node < |nodes| && k <= |nodes[node].children| && Divisible(a)
  {
    && |before| == |nodes| && |cur| == |nodes|
    && (forall j :: 0 <= j < |nodes| && BelowEarlierChild(nodes, node, k, j) ==>
          Descends(nodes, node, j) && cur[j] == ArcFrom(nodes, node, a, j))
    && (forall j :: 0 <= j < |nodes| && j != node && !BelowEarlierChild(nodes, node, k, j) ==>
          cur[j] == before[j])
  }

  /** Once every child is done, the nodes below some child are exactly those below `node`. */
  lemma AllChildrenLaidOut(nodes: seq<Node>, node: nat, a: Arc, before: seq<Arc>, after: seq<Arc>)
    requires WellFormed(nodes) && node < |nodes| && Divisible(a)
    requires ChildrenDone(nodes, node, a, |nodes[node].children|, before, after) && after[node] == a
    ensures LaidOut(nodes, node, a, before, after)
  {
    var children := nodes[node].children;
    forall j | 0 <= j < |nodes| && j != node
      ensures after[j] == if Descends(nodes, node, j) then ArcFrom(nodes, node, a, j) else before[j]
    {
      if Descends(nodes, node, j) {
        var m := DescendsViaChild(nodes, node, j);
        BelowEarlierChildMeans(nodes, node, |children|, j);
      }
    }
  }

  /**
   * The loop invariant of EqualAngleLayout carries over one child: `cur` is the array before
   * child `k` gets its arc, `after` the array once the child's subtree has been laid out.
   */
  lemma ChildLayoutStep(nodes: seq<Node>, node: nat, a: Arc, k: nat, before: seq<Arc>, cur: seq<Arc>, after: seq<Arc>)
    requires WellFormed(nodes) && node < |nodes| && k < |nodes[node].children| && Divisible(a)
    requires ChildrenDone(nodes, node, a, k, before, cur) && cur[node] == a
    requires var child := nodes[node].children[k];
      var ca := ChildArc(nodes, node, a, k);
      LaidOut(nodes, child, ca, cur[child := ca], after)
    ensures after[node] == a
    ensures ChildrenDone(nodes, node, a, k + 1, before, after)
  {
    var ch := nodes[node].children;
    var child := ch[k];
    var ca := ChildArc(nodes, node, a, k);
    var mid := cur[child := ca];
    assert !Descends(nodes, child, node) by {
      if Descends(nodes, child, node) { DescendsOrder(nodes, child, node); }
    }
    forall j | 0 <= j < |nodes| && BelowEarlierChild(nodes, node, k + 1, j)
      ensures Descends(nodes, node, j) && after[j] == ArcFrom(nodes, node, a, j)
    {
      if Descends(nodes, child, j) {
        ArcFromChild(nodes, node, a, k, j);
      } else {
        assert BelowEarlierChild(nodes, node, k, j);
        BelowEarlierChildDisjoint(nodes, node, k, k, j);
      }
    }
    forall j | 0 <= j < |nodes| && j != node && !BelowEarlierChild(nodes, node, k + 1, j)
      ensures after[j] == before[j]
    {
      assert !Descends(nodes, child, j) && !BelowEarlierChild(nodes, node, k, j);
    }
  }

  // ---------------------------------------------------------------------------------------
  // How a node's arc is shared out among its children

  lemma ScaledAdd(w: real, x: real, y: real, t: real)
    requires t > 0.0
    ensures Scaled(w, x, t) + Scaled(w, y, t) == Scaled(w, x + y, t)
  {
    assert w * (x + y) == w * x + w * y;
  }

  lemma ScaledNone(w: real, t: real)
    requires t > 0.0
    ensures Scaled(w, 0.0, t) == 0.0
  {
  }

  lemma ScaledAll(w: real, t: real)
    requires t > 0.0
    ensures Scaled(w, t, t) == w
  {
  }

  lemma ScaledOne(w: real, t: real)
    requires t > 0.0
    ensures Scaled(w, 1.0, t) == w / t
  {
  }

  lemma ScaledMonotone(w: real, x: real, y: real, t: real)
    requires t > 0.0 && w >= 0.0 && x <= y
    ensures Scaled(w, x, t) <= Scaled(w, y, t)
  {
    assert w * x <= w * y;
  }

  lemma ScaledTwice(w: real, total: real, there: real, here: real)
    requires total > 0.0 && there > 0.0
    ensures Scaled(Scaled(w, there, total), here, there) == Scaled(w, here, total)
  {
    assert w * there / total * here / there == w * (there * here) / (total * there);
  }

  /** `lastStart` after `k` children: the parent's start plus their share of the tips. */
  lemma {:induction false} StartAtClosedForm(nodes: seq<Node>, p: nat, a: Arc, k: nat)
    requires WellFormed(nodes) && p < |nodes| && k <= |nodes[p].children| && Divisible(a)
    ensures StartAt(nodes, p, a, k) ==
            a.start + Scaled(a.end - a.start, TipsBefore(nodes, p, k) as real, a.ntips as real)
  {
    var w, t := a.end - a.start, a.ntips as real;
    if k == 0 {
      ScaledNone(w, t);
    } else {
      StartAtClosedForm(nodes, p, a, k - 1);
      var x := TipsBefore(nodes, p, k - 1) as real;
      var y := TipCount(nodes, nodes[p].children[k - 1]) as real;
      assert TipsBefore(nodes, p, k) as real == x + y;
      ScaledAdd(w, x, y, t);
    }
  }

  lemma {:induction false} TipsBeforeMonotone(nodes: seq<Node>, p: nat, m: nat, k: nat)
    requires WellFormed(nodes) && p < |nodes| && m <= k <= |nodes[p].children|
    ensures TipsBefore(nodes, p, m) <= TipsBefore(nodes, p, k)
    decreases k
  {
    if m < k {
      TipsBeforeMonotone(nodes, p, m, k - 1);
    }
  }

  /** The tips of the first children never outnumber those of the node. */
  lemma TipsBeforeWithin(nodes: seq<Node>, p: nat, m: nat, k: nat)
    requires WellFormed(nodes) && p < |nodes| && m <= k <= |nodes[p].children|
    ensures TipsBefore(nodes, p, m) <= TipsBefore(nodes, p, k) <= TipCount(nodes, p)
  {
    var n := |nodes[p].children|;
    TipsBeforeMonotone(nodes, p, m, k);
    TipsBeforeMonotone(nodes, p, k, n);
    TipCountSplits(nodes, p);
  }

  /** A child's arc is as wide as its share of the parent's tips, and its angle is its middle. */
  lemma ChildArcShape(nodes: seq<Node>, p: nat, a: Arc, k: nat)
    requires WellFormed(nodes) && p < |nodes| && k < |nodes[p].children| && Divisible(a)
    ensures var c := ChildArc(nodes, p, a, k);
      && c.start == StartAt(nodes, p, a, k)
      && c.end == StartAt(nodes, p, a, k + 1)
      && c.angle == (c.start + c.end) / 2.0
      && c.end - c.start ==
         Scaled(a.end - a.start, TipCount(nodes, nodes[p].children[k]) as real, a.ntips as real)
  {
    var c := ChildArc(nodes, p, a, k);
    var x := Share(nodes, p, a, k);
    assert c.end == c.start + x;
  }

  /**
   * When a node's arc counts the node's own tips, its children's arcs tile it: the first starts
   * where the node's starts, each next one where the previous ends, and the last ends where the
   * node's ends.
   */
  lemma ChildArcsPartition(nodes: seq<Node>, p: nat, a: Arc)
    requires WellFormed(nodes) && p < |nodes| && |nodes[p].children| > 0
    requires Divisible(a) && a.ntips == TipCount(nodes, p)
    ensures ChildArc(nodes, p, a, 0).start == a.start
    ensures forall k :: 0 < k < |nodes[p].children| ==>
              ChildArc(nodes, p, a, k).start == ChildArc(nodes, p, a, k - 1).end
    ensures ChildArc(nodes, p, a, |nodes[p].children| - 1).end == a.end
  {
    var n := |nodes[p].children|;
    forall k | 0 < k < n ensures ChildArc(nodes, p, a, k).start == ChildArc(nodes, p, a, k - 1).end {
      ChildArcShape(nodes, p, a, k - 1);
    }
    TipCountSplits(nodes, p);
    var w, t := a.end - a.start, a.ntips as real;
    assert TipsBefore(nodes, p, n) as real == t;
    StartAtClosedForm(nodes, p, a, n);
    ScaledAll(w, t);
    ChildArcShape(nodes, p, a, n - 1);
  }

  /**
   * On an arc that does not run backwards, every child's arc lies inside the parent's with its
   * angle inside its own, and the arcs of earlier children lie before those of later ones.
   */
  lemma ChildArcsNested(nodes: seq<Node>, p: nat, a: Arc)
    requires WellFormed(nodes) && p < |nodes|
    requires Divisible(a) && a.ntips == TipCount(nodes, p) && a.start <= a.end
    ensures forall k :: 0 <= k < |nodes[p].children| ==>
              var c := ChildArc(nodes, p, a, k);
              a.start <= c.start <= c.angle <= c.end <= a.end
    ensures forall m, k :: 0 <= m < k < |nodes[p].children| ==>
              ChildArc(nodes, p, a, m).end <= ChildArc(nodes, p, a, k).start
  {
    var n := |nodes[p].children|;
    forall k | 0 <= k < n
      ensures var c := ChildArc(nodes, p, a, k); a.start <= c.start <= c.angle <= c.end <= a.end
    {
      StartAtBounds(nodes, p, a, k, k + 1);
      ChildArcShape(nodes, p, a, k);
    }
    forall m, k | 0 <= m < k < n
      ensures ChildArc(nodes, p, a, m).end <= ChildArc(nodes, p, a, k).start
    {
      StartAtBounds(nodes, p, a, m + 1, k);
      ChildArcShape(nodes, p, a, m);
      ChildArcShape(nodes, p, a, k);
    }
  }

  /** `lastStart` only moves forward, and never past the parent's end. */
  lemma StartAtBounds(nodes: seq<Node>, p: nat, a: Arc, m: nat, k: nat)
    requires WellFormed(nodes) && p < |nodes| && m <= k <= |nodes[p].children|
    requires Divisible(a) && a.ntips == TipCount(nodes, p) && a.start <= a.end
    ensures a.start <= StartAt(nodes, p, a, m) <= StartAt(nodes, p, a, k) <= a.end
  {
    TipsBeforeWithin(nodes, p, m, k);
    StartAtClosedForm(nodes, p, a, m);
    StartAtClosedForm(nodes, p, a, k);
    SharesBetween(a.start, a.end - a.start, a.ntips as real,
                  TipsBefore(nodes, p, m) as real, TipsBefore(nodes, p, k) as real,
                  StartAt(nodes, p, a, m), StartAt(nodes, p, a, k));
  }

  lemma SharesBetween(s: real, w: real, t: real, x: real, y: real, u: real, v: real)
    requires t > 0.0 && w >= 0.0 && 0.0 <= x <= y <= t
    requires u == s + Scaled(w, x, t) && v == s + Scaled(w, y, t)
    ensures s <= u <= v <= s + w
  {
    ScaledMonotone(w, 0.0, x, t);
    ScaledMonotone(w, x, y, t);
    ScaledMonotone(w, y, t, t);
    ScaledNone(w, t);
    ScaledAll(w, t);
  }

  // ---------------------------------------------------------------------------------------
  // The layout of the whole tree

  /** The arc of node `j` once `equalAngleLayout` has run from the root. */
  ghost function Laid(nodes: seq<Node>, j: nat): (r: Arc)
    requires WellFormed(nodes) && j < |nodes|
    ensures Divisible(r)
  {
    TipCountPositive(nodes, 0);
    RootReachesAll(nodes, j);
    ArcFrom(nodes, 0, RootArc(nodes, 0), j)
  }

  /** From the root, the layout gives every node of the arena its `Laid` arc. */
  lemma RootLayoutCovers(nodes: seq<Node>, before: seq<Arc>, after: seq<Arc>)
    requires WellFormed(nodes)
    requires TipCount(nodes, 0) > 0 && LaidOut(nodes, 0, RootArc(nodes, 0), before, after)
    ensures |after| == |nodes| && forall j :: 0 <= j < |nodes| ==> after[j] == Laid(nodes, j)
  {
    forall j | 0 <= j < |nodes| ensures after[j] == Laid(nodes, j) {
      RootReachesAll(nodes, j);
    }
  }

  /** A child's laid-out arc is the share its parent hands it. */
  lemma LaidChild(nodes: seq<Node>, p: nat, k: nat)
    requires WellFormed(nodes) && p < |nodes| && k < |nodes[p].children|
    ensures Laid(nodes, nodes[p].children[k]) == ChildArc(nodes, p, Laid(nodes, p), k)
  {
    var c := nodes[p].children[k];
    IndexOfChild(nodes, p, k);
    assert nodes[c].parent == Some(p);
    assert c != 0;
  }

  /**
   * Node `j`'s arc counts the node's own tips, lies within [0, 2], and is as wide as its share
   * of all the tips.
   */
  ghost predicate ArcFits(nodes: seq<Node>, j: nat)
    requires WellFormed(nodes) && j < |nodes|
  {
    var r := Laid(nodes, j);
    && TipCount(nodes, 0) > 0
    && r.ntips == TipCount(nodes, j)
    && 0.0 <= r.start <= r.end <= 2.0
    && r.end - r.start == Scaled(2.0, TipCount(nodes, j) as real, TipCount(nodes, 0) as real)
  }

  /**
   * Every node's arc fits (see ArcFits), so every tip gets the same width.
   */
  lemma {:induction false} LaidArc(nodes: seq<Node>, j: nat)
    requires WellFormed(nodes) && j < |nodes|
    ensures TipCount(nodes, 0) > 0
    ensures ArcFits(nodes, j)
    ensures IsTip(nodes[j]) ==> Laid(nodes, j).end - Laid(nodes, j).start == 2.0 / (TipCount(nodes, 0) as real)
    decreases j
  {
    TipCountPositive(nodes, 0);
    if j == 0 {
      LaidRootFits(nodes);
    } else {
      assert LinkedToParent(nodes, j);
      var p := nodes[j].parent.value;
      LaidArc(nodes, p);
      LaidChildFits(nodes, p, j);
    }
    TipCountSplits(nodes, j);
    ScaledOne(2.0, TipCount(nodes, 0) as real);
  }

  lemma LaidRootFits(nodes: seq<Node>)
    requires WellFormed(nodes)
    ensures ArcFits(nodes, 0)
  {
    TipCountPositive(nodes, 0);
    ScaledAll(2.0, TipCount(nodes, 0) as real);
  }

  /** A child's arc fits when its parent's does. */
  lemma LaidChildFits(nodes: seq<Node>, p: nat, j: nat)
    requires WellFormed(nodes) && 0 < j < |nodes| && p < j && nodes[j].parent == Some(p)
    requires ArcFits(nodes, p)
    ensures ArcFits(nodes, j)
  {
    assert LinkedToParent(nodes, j);
    TipCountPositive(nodes, 0);
    var total := TipCount(nodes, 0) as real;
    var k := IndexOf(nodes[p].children, j);
    LaidChild(nodes, p, k);
    var a := Laid(nodes, p);
    ChildArcsNested(nodes, p, a);
    ChildArcShape(nodes, p, a, k);
    TipCountPositive(nodes, p);
    ScaledTwice(2.0, total, TipCount(nodes, p) as real, TipCount(nodes, j) as real);
  }

  /**
   * Laid out from the root, the children of every inner node tile its arc in order: the first
   * starts where the node's arc starts, each next one where the previous ends, and the last
   * ends where the node's arc ends.
   */
  lemma LaidChildrenTile(nodes: seq<Node>, p: nat)
    requires WellFormed(nodes) && p < |nodes| && |nodes[p].children| > 0
    ensures var ch := nodes[p].children;
      && Laid(nodes, ch[0]).start == Laid(nodes, p).start
      && (forall k :: 0 < k < |ch| ==> Laid(nodes, ch[k]).start == Laid(nodes, ch[k - 1]).end)
      && Laid(nodes, ch[|ch| - 1]).end == Laid(nodes, p).end
  {
    var ch := nodes[p].children;
    var a := Laid(nodes, p);
    LaidArc(nodes, p);
    ChildArcsPartition(nodes, p, a);
    forall k | 0 <= k < |ch| ensures Laid(nodes, ch[k]) == ChildArc(nodes, p, a, k) {
      LaidChild(nodes, p, k);
    }
  }

  /**
   * Laid out from the root, each child's arc lies within its parent's, earlier children's
   * arcs before later ones', and each child's angle is the middle of its own arc.
   */
  lemma LaidChildrenInside(nodes: seq<Node>, p: nat)
    requires WellFormed(nodes) && p < |nodes|
    ensures var ch := nodes[p].children;
      && (forall k :: 0 <= k < |ch| ==>
            var c := Laid(nodes, ch[k]);
            && c.angle == (c.start + c.end) / 2.0
            && Laid(nodes, p).start <= c.start <= c.end <= Laid(nodes, p).end)
      && (forall m, k :: 0 <= m < k < |ch| ==> Laid(nodes, ch[m]).end <= Laid(nodes, ch[k]).start)
  {
    var ch := nodes[p].children;
    var a := Laid(nodes, p);
    LaidArc(nodes, p);
    ChildArcsNested(nodes, p, a);
    forall k | 0 <= k < |ch|
      ensures Laid(nodes, ch[k]) == ChildArc(nodes, p, a, k)
      ensures Laid(nodes, ch[k]).angle == (Laid(nodes, ch[k]).start + Laid(nodes, ch[k]).end) / 2.0
    {
      LaidChild(nodes, p, k);
      ChildArcShape(nodes, p, a, k);
    }
  }
}
