/**
 * Value-level model of the HSS partition tree.
 *
 * A partition tree splits an index range recursively in two; every node
 * records only its own size and has either no children or exactly two.
 * The datatype below makes "0 or 2 children" structural.  The functions
 * follow the recursive members of the partition-tree class one by one and
 * the lemmas state what those members promise: counts, depths, the two
 * rebalancings, recursive halving and the flat three-array wire format
 * with its round trip.
 */
module PartitionTreeModel {

  datatype Tree = Leaf(size: int) | Split(size: int, left: Tree, right: Tree)

  function Max(a: int, b: int): int { if a < b then b else a }
  function Min(a: int, b: int): int { if a < b then a else b }

  function Sum(s: seq<int>): int
  {
    if s == [] then 0 else s[0] + Sum(s[1..])
  }

  lemma {:induction false} SumAppend(a: seq<int>, b: seq<int>)
    ensures Sum(a + b) == Sum(a) + Sum(b)
  {
    if a == [] {
      assert a + b == b;
    } else {
      assert (a + b)[1..] == a[1..] + b;
      SumAppend(a[1..], b);
    }
  }

  /** `n` copies of `x`. */
  function Repeat(x: int, n: nat): (r: seq<int>)
    ensures |r| == n
    ensures forall i :: 0 <= i < n ==> r[i] == x
  {
    if n == 0 then [] else [x] + Repeat(x, n - 1)
  }

  lemma {:induction false} RepeatAppend(x: int, m: nat, n: nat)
    ensures Repeat(x, m) + Repeat(x, n) == Repeat(x, m + n)
  {
    var a, b := Repeat(x, m) + Repeat(x, n), Repeat(x, m + n);
    assert |a| == |b|;
    forall i | 0 <= i < |a| ensures a[i] == b[i] {
      if i < m { assert a[i] == Repeat(x, m)[i]; } else { assert a[i] == Repeat(x, n)[i - m]; }
    }
  }

  function Pow2(k: nat): (r: nat)
    ensures r >= 1
  {
    if k == 0 then 1 else 2 * Pow2(k - 1)
  }

  // ------------------------------------------------------------------
  // Counting and listing (nodes, levels, min_levels, is_complete,
  // leaf_sizes).
  // ------------------------------------------------------------------

  /** nodes(): this node plus the nodes of its children. */
  function NodesOf(t: Tree): (n: nat)
    ensures n >= 1
  {
    match t
    case Leaf(_) => 1
    case Split(_, l, r) => 1 + NodesOf(l) + NodesOf(r)
  }

  /** levels(): one more than the deepest child; a leaf has one level. */
  function LevelsOf(t: Tree): (n: nat)
    ensures n >= 1
  {
    match t
    case Leaf(_) => 1
    case Split(_, l, r) => 1 + Max(LevelsOf(l), LevelsOf(r))
  }

  /** min_levels(): starts from levels() and lowers it to 1 + min_levels() of each child. */
  function MinLevelsOf(t: Tree): (n: int)
    ensures 1 <= n <= LevelsOf(t)
  {
    match t
    case Leaf(_) => LevelsOf(t)
    case Split(_, l, r) => Min(Min(LevelsOf(t), 1 + MinLevelsOf(l)), 1 + MinLevelsOf(r))
  }

  /** is_complete() as written: compares only the levels of the two children of the root. */
  function IsCompleteOf(t: Tree): (b: bool)
    ensures b && t.Split? ==> LevelsOf(t.left) == LevelsOf(t) - 1 && LevelsOf(t.right) == LevelsOf(t) - 1
  {
    match t
    case Leaf(_) => true
    case Split(_, l, r) => LevelsOf(l) == LevelsOf(r)
  }

  /** leaf_sizes(): sizes of the leaves, left to right. */
  function LeafSizesOf(t: Tree): seq<int>
  {
    match t
    case Leaf(s) => [s]
    case Split(_, l, r) => LeafSizesOf(l) + LeafSizesOf(r)
  }

  /** Depth of every leaf, left to right, when the root of `t` sits at depth `lvl`. */
  function LeafDepthsFrom(t: Tree, lvl: int): seq<int>
  {
    match t
    case Leaf(_) => [lvl]
    case Split(_, l, r) => LeafDepthsFrom(l, lvl + 1) + LeafDepthsFrom(r, lvl + 1)
  }

  /** Every leaf of `t` (root at depth `lvl`) lies at depth `h`. */
  ghost predicate LeavesAt(t: Tree, lvl: int, h: int)
  {
    forall k :: 0 <= k < |LeafDepthsFrom(t, lvl)| ==> LeafDepthsFrom(t, lvl)[k] == h
  }

  /** The intended meaning of "complete": all leaves at one depth. */
  ghost predicate Balanced(t: Tree)
  {
    LeavesAt(t, 1, LevelsOf(t))
  }

  /** Children sizes add up to the parent's size, at every node. */
  ghost predicate SizesAdd(t: Tree)
  {
    match t
    case Leaf(_) => true
    case Split(s, l, r) => l.size + r.size == s && SizesAdd(l) && SizesAdd(r)
  }

  /** `p` is `t` with some subtrees cut off: every node of `p` is a node of `t` of the same size. */
  ghost predicate PrefixOf(p: Tree, t: Tree)
  {
    p.size == t.size &&
    match p
    case Leaf(_) => true
    case Split(_, pl, pr) => t.Split? && PrefixOf(pl, t.left) && PrefixOf(pr, t.right)
  }

  lemma {:induction false} LeafCounts(t: Tree, lvl: int)
    ensures |LeafDepthsFrom(t, lvl)| == |LeafSizesOf(t)|
    ensures NodesOf(t) == 2 * |LeafSizesOf(t)| - 1
  {
    match t
    case Leaf(_) =>
    case Split(_, l, r) =>
      LeafCounts(l, lvl + 1);
      LeafCounts(r, lvl + 1);
  }

  /** levels() is the depth of the deepest leaf: no leaf is deeper, and one leaf is that deep. */
  lemma {:induction false} LevelsIsDeepestLeaf(t: Tree, lvl: int)
    ensures forall k :: 0 <= k < |LeafDepthsFrom(t, lvl)| ==> LeafDepthsFrom(t, lvl)[k] <= lvl + LevelsOf(t) - 1
    ensures lvl + LevelsOf(t) - 1 in LeafDepthsFrom(t, lvl)
  {
    match t
    case Leaf(_) =>
    case Split(_, l, r) =>
      LevelsIsDeepestLeaf(l, lvl + 1);
      LevelsIsDeepestLeaf(r, lvl + 1);
      var a, b := LeafDepthsFrom(l, lvl + 1), LeafDepthsFrom(r, lvl + 1);
      assert LeafDepthsFrom(t, lvl) == a + b;
      forall k | 0 <= k < |a + b| ensures (a + b)[k] <= lvl + LevelsOf(t) - 1 {
        if k < |a| { assert (a + b)[k] == a[k]; } else { assert (a + b)[k] == b[k - |a|]; }
      }
      if LevelsOf(l) >= LevelsOf(r) {
        var k :| 0 <= k < |a| && a[k] == lvl + 1 + LevelsOf(l) - 1;
        assert (a + b)[k] == a[k];
      } else {
        var k :| 0 <= k < |b| && b[k] == lvl + 1 + LevelsOf(r) - 1;
        assert (a + b)[|a| + k] == b[k];
      }
  }

  /** min_levels() never exceeds levels() and is one more than the smaller child's. */
  lemma {:induction false} MinLevelsShape(t: Tree)
    ensures 1 <= MinLevelsOf(t) <= LevelsOf(t)
    ensures t.Split? ==> MinLevelsOf(t) == 1 + Min(MinLevelsOf(t.left), MinLevelsOf(t.right))
  {
    match t
    case Leaf(_) =>
    case Split(_, l, r) =>
      MinLevelsShape(l);
      MinLevelsShape(r);
  }

  /** min_levels() is the depth of the shallowest leaf: no leaf is shallower, and one leaf is that shallow. */
  lemma {:induction false} MinLevelsIsShallowestLeaf(t: Tree, lvl: int)
    ensures forall k :: 0 <= k < |LeafDepthsFrom(t, lvl)| ==> LeafDepthsFrom(t, lvl)[k] >= lvl + MinLevelsOf(t) - 1
    ensures lvl + MinLevelsOf(t) - 1 in LeafDepthsFrom(t, lvl)
  {
    MinLevelsShape(t);
    match t
    case Leaf(_) =>
    case Split(_, l, r) =>
      MinLevelsIsShallowestLeaf(l, lvl + 1);
      MinLevelsIsShallowestLeaf(r, lvl + 1);
      var a, b := LeafDepthsFrom(l, lvl + 1), LeafDepthsFrom(r, lvl + 1);
      assert LeafDepthsFrom(t, lvl) == a + b;
      forall k | 0 <= k < |a + b| ensures (a + b)[k] >= lvl + MinLevelsOf(t) - 1 {
        if k < |a| { assert (a + b)[k] == a[k]; } else { assert (a + b)[k] == b[k - |a|]; }
      }
      if MinLevelsOf(l) <= MinLevelsOf(r) {
        var k :| 0 <= k < |a| && a[k] == lvl + 1 + MinLevelsOf(l) - 1;
        assert (a + b)[k] == a[k];
      } else {
        var k :| 0 <= k < |b| && b[k] == lvl + 1 + MinLevelsOf(r) - 1;
        assert (a + b)[|a| + k] == b[k];
      }
  }

  lemma LeavesAtSplit(t: Tree, lvl: int, h: int)
    requires t.Split?
    ensures LeavesAt(t, lvl, h) <==> LeavesAt(t.left, lvl + 1, h) && LeavesAt(t.right, lvl + 1, h)
  {
    var a, b := LeafDepthsFrom(t.left, lvl + 1), LeafDepthsFrom(t.right, lvl + 1);
    assert LeafDepthsFrom(t, lvl) == a + b;
    if LeavesAt(t, lvl, h) {
      forall k | 0 <= k < |a| ensures a[k] == h { assert (a + b)[k] == a[k]; }
      forall k | 0 <= k < |b| ensures b[k] == h { assert (a + b)[|a| + k] == b[k]; }
    }
  }

  /** When all leaves lie at one depth, that depth is both levels() and min_levels(). */
  lemma {:induction false} LeavesAtDepth(t: Tree, lvl: int, h: int)
    requires LeavesAt(t, lvl, h)
    ensures h == lvl + LevelsOf(t) - 1 && h == lvl + MinLevelsOf(t) - 1
  {
    LevelsIsDeepestLeaf(t, lvl);
    MinLevelsIsShallowestLeaf(t, lvl);
  }

  /**
   * The intended notion of completeness holds exactly when min_levels()
   * equals levels().
   */
  lemma {:induction false} BalancedIffMinLevelsIsLevels(t: Tree)
    ensures Balanced(t) <==> MinLevelsOf(t) == LevelsOf(t)
  {
    LevelsIsDeepestLeaf(t, 1);
    MinLevelsIsShallowestLeaf(t, 1);
  }

  /**
   * is_complete() as written looks only at the root's two children: it
   * accepts every balanced tree, but also this unbalanced one, whose
   * leaves lie at depths 4, 4, 3, 3, 4, 4.
   */
  lemma IsCompleteAcceptsUnbalanced()
    ensures var u := Split(6, Split(3, Split(2, Leaf(1), Leaf(1)), Leaf(1)),
                              Split(3, Leaf(1), Split(2, Leaf(1), Leaf(1))));
            IsCompleteOf(u) && !Balanced(u)
  {
    var u := Split(6, Split(3, Split(2, Leaf(1), Leaf(1)), Leaf(1)),
                      Split(3, Leaf(1), Split(2, Leaf(1), Leaf(1))));
    assert LeafDepthsFrom(u, 1)[2] == 3 != LevelsOf(u);
  }

  lemma {:induction false} BalancedIsComplete(t: Tree)
    requires Balanced(t)
    ensures IsCompleteOf(t)
  {
    if t.Split? {
      LeavesAtSplit(t, 1, LevelsOf(t));
      LeavesAtDepth(t.left, 2, LevelsOf(t));
      LeavesAtDepth(t.right, 2, LevelsOf(t));
    }
  }

  /** The leaf sizes of a tree whose children sizes add up sum to the root's size. */
  lemma {:induction false} LeafSizesSum(t: Tree)
    requires SizesAdd(t)
    ensures Sum(LeafSizesOf(t)) == t.size
  {
    match t
    case Leaf(s) =>
    case Split(_, l, r) =>
      LeafSizesSum(l);
      LeafSizesSum(r);
      SumAppend(LeafSizesOf(l), LeafSizesOf(r));
  }

  // ------------------------------------------------------------------
  // refine: recursive halving.
  // ------------------------------------------------------------------

  /**
   * The tree that refine(leafSize) builds below a childless node of the
   * given size: split while size > 2*leafSize, into size/2 (the size is
   * positive here, so C++ truncation and Dafny division agree) and the
   * rest.
   */
  function Refined(size: int, leafSize: int): (t: Tree)
    requires leafSize >= 1
    ensures t.size == size && (t.Split? <==> size > 2 * leafSize)
    decreases size
  {
    if size > 2 * leafSize then
      Split(size, Refined(size / 2, leafSize), Refined(size - size / 2, leafSize))
    else Leaf(size)
  }

  /**
   * Recursive halving keeps sizes additive and bounds every leaf by
   * 2*leafSize; a leaf produced by a split is at least leafSize.
   */
  lemma {:induction false} RefinedShape(size: int, leafSize: int)
    requires leafSize >= 1
    ensures SizesAdd(Refined(size, leafSize))
    ensures Refined(size, leafSize).size == size
    ensures forall k :: 0 <= k < |LeafSizesOf(Refined(size, leafSize))| ==>
              LeafSizesOf(Refined(size, leafSize))[k] <= 2 * leafSize
    ensures size > 2 * leafSize ==>
              forall k :: 0 <= k < |LeafSizesOf(Refined(size, leafSize))| ==>
                leafSize <= LeafSizesOf(Refined(size, leafSize))[k]
    decreases size
  {
    if size > 2 * leafSize {
      var a, b := size / 2, size - size / 2;
      RefinedShape(a, leafSize);
      RefinedShape(b, leafSize);
      var la, lb := LeafSizesOf(Refined(a, leafSize)), LeafSizesOf(Refined(b, leafSize));
      assert LeafSizesOf(Refined(size, leafSize)) == la + lb;
      forall k | 0 <= k < |la + lb| ensures leafSize <= (la + lb)[k] <= 2 * leafSize {
        if k < |la| {
          assert (la + lb)[k] == la[k];
          if a <= 2 * leafSize { assert la == [a]; }
        } else {
          assert (la + lb)[k] == lb[k - |la|];
          if b <= 2 * leafSize { assert lb == [b]; }
        }
      }
    }
  }

  // ------------------------------------------------------------------
  // truncate_complete: cut every branch at min_levels().
  // ------------------------------------------------------------------

  /** truncate_complete_rec(lvl, lvls): the node at depth lvls loses its children. */
  function TruncateFrom(t: Tree, lvl: int, lvls: int): (p: Tree)
    ensures p.size == t.size && NodesOf(p) <= NodesOf(t)
  {
    if lvl == lvls then Leaf(t.size)
    else match t
      case Leaf(s) => Leaf(s)
      case Split(s, l, r) => Split(s, TruncateFrom(l, lvl + 1, lvls), TruncateFrom(r, lvl + 1, lvls))
  }

  function Truncated(t: Tree): (p: Tree)
    ensures p.size == t.size && NodesOf(p) <= NodesOf(t)
  {
    TruncateFrom(t, 1, MinLevelsOf(t))
  }

  lemma {:induction false} TruncateFromShape(t: Tree, lvl: int, lvls: int)
    requires lvl <= lvls <= lvl + MinLevelsOf(t) - 1
    ensures LeavesAt(TruncateFrom(t, lvl, lvls), lvl, lvls)
    ensures PrefixOf(TruncateFrom(t, lvl, lvls), t)
  {
    MinLevelsShape(t);
    if lvl != lvls {
      match t
      case Split(s, l, r) =>
        TruncateFromShape(l, lvl + 1, lvls);
        TruncateFromShape(r, lvl + 1, lvls);
        LeavesAtSplit(TruncateFrom(t, lvl, lvls), lvl, lvls);
    }
  }

  /**
   * After truncate_complete(), every leaf lies at depth min_levels() of the
   * original tree, levels() equals that depth, and every surviving node
   * keeps its size.
   */
  lemma TruncatedShape(t: Tree)
    ensures LeavesAt(Truncated(t), 1, MinLevelsOf(t))
    ensures LevelsOf(Truncated(t)) == MinLevelsOf(t)
    ensures Balanced(Truncated(t))
    ensures PrefixOf(Truncated(t), t)
  {
    MinLevelsShape(t);
    TruncateFromShape(t, 1, MinLevelsOf(t));
    LeavesAtDepth(Truncated(t), 1, MinLevelsOf(t));
  }

  lemma {:induction false} TruncateFromBalanced(t: Tree, lvl: int, h: int)
    requires LeavesAt(t, lvl, h)
    ensures TruncateFrom(t, lvl, h) == t
  {
    match t
    case Leaf(_) =>
      assert LeafDepthsFrom(t, lvl)[0] == lvl;
    case Split(_, l, r) =>
      LeavesAtSplit(t, lvl, h);
      LeavesAtDepth(t, lvl, h);
      TruncateFromBalanced(l, lvl + 1, h);
      TruncateFromBalanced(r, lvl + 1, h);
  }

  // ------------------------------------------------------------------
  // expand_complete: pad every branch out to levels().
  // ------------------------------------------------------------------

  /**
   * expand_complete_rec(lvl, lvls, allowZeroNodes): a leaf above depth lvls
   * gets children [size, 0] when zero-size leaves are allowed, and
   * [size - 2^(lvls-lvl-1), 2^(lvls-lvl-1)] otherwise, and they are
   * expanded in turn; inner nodes pass the call on.
   */
  function ExpandFrom(t: Tree, lvl: int, lvls: int, allowZeroNodes: bool): (e: Tree)
    requires lvl + LevelsOf(t) - 1 <= lvls
    ensures e.size == t.size && e.Split? == (t.Split? || lvl < lvls)
    decreases lvls - lvl
  {
    match t
    case Leaf(s) =>
      if lvl == lvls then t
      else
        var l1 := Pow2(lvls - lvl - 1);
        var a := if allowZeroNodes then s else s - l1;
        var b := if allowZeroNodes then 0 else l1;
        Split(s, ExpandFrom(Leaf(a), lvl + 1, lvls, allowZeroNodes),
                 ExpandFrom(Leaf(b), lvl + 1, lvls, allowZeroNodes))
    case Split(s, l, r) =>
      Split(s, ExpandFrom(l, lvl + 1, lvls, allowZeroNodes), ExpandFrom(r, lvl + 1, lvls, allowZeroNodes))
  }

  function Expanded(t: Tree, allowZeroNodes: bool): (e: Tree)
    ensures e.size == t.size && e.Split? == t.Split?
  {
    ExpandFrom(t, 1, LevelsOf(t), allowZeroNodes)
  }

  lemma {:induction false} ExpandFromShape(t: Tree, lvl: int, lvls: int, z: bool)
    requires lvl + LevelsOf(t) - 1 <= lvls
    ensures LeavesAt(ExpandFrom(t, lvl, lvls, z), lvl, lvls)
    ensures PrefixOf(t, ExpandFrom(t, lvl, lvls, z))
    ensures SizesAdd(t) ==> SizesAdd(ExpandFrom(t, lvl, lvls, z))
    decreases lvls - lvl
  {
    var e := ExpandFrom(t, lvl, lvls, z);
    match t
    case Leaf(s) =>
      if lvl != lvls {
        var l1 := Pow2(lvls - lvl - 1);
        ExpandFromShape(Leaf(if z then s else s - l1), lvl + 1, lvls, z);
        ExpandFromShape(Leaf(if z then 0 else l1), lvl + 1, lvls, z);
        LeavesAtSplit(e, lvl, lvls);
      }
    case Split(s, l, r) =>
      ExpandFromShape(l, lvl + 1, lvls, z);
      ExpandFromShape(r, lvl + 1, lvls, z);
      LeavesAtSplit(e, lvl, lvls);
  }

  /**
   * After expand_complete(z), levels() is unchanged, every leaf lies at that
   * depth, every original node keeps its size, and children sizes still add
   * up whenever they did before.
   */
  lemma ExpandedShape(t: Tree, z: bool)
    ensures LeavesAt(Expanded(t, z), 1, LevelsOf(t))
    ensures LevelsOf(Expanded(t, z)) == LevelsOf(t)
    ensures Balanced(Expanded(t, z))
    ensures PrefixOf(t, Expanded(t, z))
    ensures SizesAdd(t) ==> SizesAdd(Expanded(t, z))
  {
    ExpandFromShape(t, 1, LevelsOf(t), z);
    LeavesAtDepth(Expanded(t, z), 1, LevelsOf(t));
  }

  /**
   * The leaves grown below a former leaf of size s that sat k = lvls - lvl
   * levels too shallow: with zero-size leaves allowed, s followed by 2^k - 1
   * empty leaves; otherwise s - (2^k - 1) followed by 2^k - 1 leaves of
   * size 1.
   */
  lemma {:induction false} PaddedLeafSizes(s: int, lvl: int, lvls: int, z: bool)
    requires lvl <= lvls
    ensures LeafSizesOf(ExpandFrom(Leaf(s), lvl, lvls, z)) ==
              if z then [s] + Repeat(0, Pow2(lvls - lvl) - 1)
              else [s - (Pow2(lvls - lvl) - 1)] + Repeat(1, Pow2(lvls - lvl) - 1)
    decreases lvls - lvl
  {
    if lvl != lvls {
      var h := Pow2(lvls - lvl - 1);
      var x := if z then 0 else 1;
      var a := if z then s else s - h;
      PaddedLeafSizes(a, lvl + 1, lvls, z);
      PaddedLeafSizes(if z then 0 else h, lvl + 1, lvls, z);
      assert [x] + Repeat(x, h - 1) == Repeat(x, h);
      RepeatAppend(x, h - 1, h);
    }
  }

  lemma {:induction false} ExpandFromBalanced(t: Tree, lvl: int, h: int, z: bool)
    requires LeavesAt(t, lvl, h)
    ensures lvl + LevelsOf(t) - 1 <= h
    ensures ExpandFrom(t, lvl, h, z) == t
  {
    LeavesAtDepth(t, lvl, h);
    match t
    case Leaf(_) =>
    case Split(_, l, r) =>
      LeavesAtSplit(t, lvl, h);
      ExpandFromBalanced(l, lvl + 1, h, z);
      ExpandFromBalanced(r, lvl + 1, h, z);
  }

  /**
   * A tree whose leaves all lie at one depth is left unchanged by both
   * rebalancings; in particular truncating an expanded tree gives it back.
   */
  lemma BalancedUnchanged(t: Tree, z: bool)
    requires Balanced(t)
    ensures Truncated(t) == t && Expanded(t, z) == t
  {
    BalancedIffMinLevelsIsLevels(t);
    TruncateFromBalanced(t, 1, LevelsOf(t));
    ExpandFromBalanced(t, 1, LevelsOf(t), z);
  }

  lemma TruncateAfterExpand(t: Tree, z: bool)
    ensures Truncated(Expanded(t, z)) == Expanded(t, z)
  {
    ExpandedShape(t, z);
    BalancedUnchanged(Expanded(t, z), z);
  }

  // ------------------------------------------------------------------
  // serialize / de_serialize_rec: three parallel integer arrays.
  // ------------------------------------------------------------------

  /** The slices of the sizes, lchild and rchild arrays that describe one subtree. */
  datatype Columns = Columns(sizes: seq<int>, lchild: seq<int>, rchild: seq<int>)

  /**
   * serialize_rec with the counter starting at `base`: left subtree, right
   * subtree, then the node itself (post-order).  A leaf stores -1 twice; an
   * inner node at slot pid stores the slot of its left root and pid - 1.
   */
  function SerializeFrom(t: Tree, base: int): (cols: Columns)
    ensures |cols.sizes| == NodesOf(t) && |cols.lchild| == NodesOf(t) && |cols.rchild| == NodesOf(t)
  {
    match t
    case Leaf(s) => Columns([s], [-1], [-1])
    case Split(s, l, r) =>
      var a := SerializeFrom(l, base);
      var lroot := base + NodesOf(l);
      var b := SerializeFrom(r, lroot);
      var pid := lroot + NodesOf(r);
      Columns(a.sizes + b.sizes + [s], a.lchild + b.lchild + [lroot - 1], a.rchild + b.rchild + [pid - 1])
  }

  /**
   * One step of the post-order layout: the left subtree's columns start at
   * base, the right subtree's at mid, and the root takes slot last.
   */
  lemma SerializeSplit(x: int, l: Tree, r: Tree, base: int, mid: int, last: int)
    requires mid == base + NodesOf(l) && last == mid + NodesOf(r)
    ensures SerializeFrom(Split(x, l, r), base) ==
      Columns(SerializeFrom(l, base).sizes + SerializeFrom(r, mid).sizes + [x],
              SerializeFrom(l, base).lchild + SerializeFrom(r, mid).lchild + [mid - 1],
              SerializeFrom(l, base).rchild + SerializeFrom(r, mid).rchild + [last - 1])
  {
  }

  /** serialize(): the sizes, lchild and rchild arrays, each nodes() long, one after the other. */
  function Serialized(t: Tree): (buf: seq<int>)
    ensures |buf| == 3 * NodesOf(t)
  {
    var cols := SerializeFrom(t, 0);
    cols.sizes + cols.lchild + cols.rchild
  }

  /**
   * The root is written last, in slot base + nodes() - 1, with its own size;
   * a leaf root has no links, an inner root links to the roots of its left
   * and right subtrees.
   */
  lemma SerializeRoot(t: Tree, base: int)
    ensures var cols := SerializeFrom(t, base);
            var last := NodesOf(t) - 1;
            cols.sizes[last] == t.size &&
            (t.Leaf? ==> cols.lchild[last] == -1 && cols.rchild[last] == -1) &&
            (t.Split? ==> cols.lchild[last] == base + NodesOf(t.left) - 1 &&
                          cols.rchild[last] == base + last - 1 &&
                          cols.rchild[last] == base + NodesOf(t.left) + NodesOf(t.right) - 1)
  {
  }

  /** Slot k of a subtree serialized from `base`: no links at all, or links to two earlier slots. */
  ghost predicate SlotLinksBack(cols: Columns, base: int, k: int)
    requires 0 <= k < |cols.lchild| && k < |cols.rchild|
  {
    (cols.lchild[k] == -1 <==> cols.rchild[k] == -1) &&
    (cols.rchild[k] != -1 ==> base <= cols.lchild[k] < cols.rchild[k] && cols.rchild[k] == base + k - 1)
  }

  /**
   * Every slot either has no links on both sides or two links to earlier
   * slots of the same subtree, the right one being the slot just before it.
   */
  lemma {:induction false} SerializeLinks(t: Tree, base: int)
    requires 0 <= base
    ensures forall k :: 0 <= k < NodesOf(t) ==> SlotLinksBack(SerializeFrom(t, base), base, k)
  {
    var cols := SerializeFrom(t, base);
    match t
    case Leaf(_) =>
    case Split(s, l, r) =>
      var nl := NodesOf(l);
      var a, b := SerializeFrom(l, base), SerializeFrom(r, base + nl);
      SerializeLinks(l, base);
      SerializeLinks(r, base + nl);
      forall k | 0 <= k < NodesOf(t) ensures SlotLinksBack(cols, base, k) {
        if k < nl {
          assert cols.lchild[k] == a.lchild[k] && cols.rchild[k] == a.rchild[k];
          assert SlotLinksBack(a, base, k);
        } else if k < nl + NodesOf(r) {
          var j := k - nl;
          assert cols.lchild[k] == b.lchild[j] && cols.rchild[k] == b.rchild[j];
          assert SlotLinksBack(b, base + nl, j);
        } else {
          assert cols.lchild[k] == base + nl - 1 && cols.rchild[k] == base + k - 1;
        }
      }
  }

  datatype Parsed<T> = Ok(value: T) | Malformed

  /**
   * de_serialize_rec: read the node at slot pid, then (when its rchild is
   * not -1) its right subtree below it and its left subtree below that.
   * Yields the tree and the slot where reading stops.  Only the sizes and
   * rchild arrays are consulted; a slot outside the arrays makes the buffer
   * malformed.
   */
  function DeserializeFrom(sizes: seq<int>, rchild: seq<int>, pid: int): (r: Parsed<(Tree, int)>)
    ensures r.Ok? ==> -1 <= r.value.1 < pid && NodesOf(r.value.0) == pid - r.value.1
    decreases pid
  {
    if pid < 0 || pid >= |sizes| || pid >= |rchild| then Malformed
    else if rchild[pid] == -1 then Ok((Leaf(sizes[pid]), pid - 1))
    else match DeserializeFrom(sizes, rchild, pid - 1)
      case Malformed => Malformed
      case Ok((right, next)) =>
        match DeserializeFrom(sizes, rchild, next)
        case Malformed => Malformed
        case Ok((left, rest)) => Ok((Split(sizes[pid], left, right), rest))
  }

  /** The buffer constructors: n = |buf| / 3 slots, reading starts at slot n - 1. */
  function Deserialized(buf: seq<int>): (r: Parsed<Tree>)
    ensures r.Ok? ==> NodesOf(r.value) <= |buf| / 3
  {
    var n := |buf| / 3;
    match DeserializeFrom(buf[..n], buf[2 * n..3 * n], n - 1)
    case Malformed => Malformed
    case Ok((t, _)) => Ok(t)
  }

  /** A window of `w` that holds x + y + [v] holds x, then y, then v. */
  lemma WindowParts(w: seq<int>, base: int, mid: int, last: int, x: seq<int>, y: seq<int>, v: int)
    requires 0 <= base && mid == base + |x| && last == mid + |y| && last < |w|
    requires w[base..last + 1] == x + y + [v]
    ensures w[base..mid] == x && w[mid..last] == y && w[last] == v
  {
    var win := w[base..last + 1];
    forall i | 0 <= i < |x| ensures w[base..mid][i] == x[i] {
      assert win[i] == x[i];
    }
    forall i | 0 <= i < |y| ensures w[mid..last][i] == y[i] {
      assert win[|x| + i] == y[i];
    }
    assert win[|x| + |y|] == v;
  }

  lemma {:induction false} DeserializeSerializeFrom(t: Tree, base: int, top: int, sizes: seq<int>, rchild: seq<int>)
    requires 0 <= base && top == base + NodesOf(t) - 1 && top < |sizes| && top < |rchild|
    requires sizes[base..top + 1] == SerializeFrom(t, base).sizes
    requires rchild[base..top + 1] == SerializeFrom(t, base).rchild
    ensures DeserializeFrom(sizes, rchild, top) == Ok((t, base - 1))
  {
    match t
    case Leaf(s) =>
      assert sizes[base] == sizes[base..base + 1][0];
      assert rchild[base] == rchild[base..base + 1][0];
    case Split(s, l, r) =>
      var mid := base + NodesOf(l);
      SerializeSplit(s, l, r, base, mid, top);
      var a, b := SerializeFrom(l, base), SerializeFrom(r, mid);
      WindowParts(sizes, base, mid, top, a.sizes, b.sizes, s);
      WindowParts(rchild, base, mid, top, a.rchild, b.rchild, top - 1);
      DeserializeSerializeFrom(r, mid, top - 1, sizes, rchild);
      DeserializeSerializeFrom(l, base, mid - 1, sizes, rchild);
  }

  /** Round trip: building a tree from serialize(t) reproduces t's sizes and shape exactly. */
  lemma RoundTrip(t: Tree)
    ensures Deserialized(Serialized(t)) == Ok(t)
  {
    var cols := SerializeFrom(t, 0);
    var buf := Serialized(t);
    var n := NodesOf(t);
    assert |buf| / 3 == n;
    assert buf[..n] == cols.sizes;
    assert buf[2 * n..3 * n] == cols.rchild;
    DeserializeSerializeFrom(t, 0, n - 1, buf[..n], buf[2 * n..3 * n]);
  }

  // ------------------------------------------------------------------
  // serialize(unordered_map): several keyed trees in one buffer.
  // ------------------------------------------------------------------

  /** One map entry: its key, the length of its tree's buffer, then that buffer. */
  function EntryBuffer(key: int, t: Tree): seq<int>
  {
    [key, |Serialized(t)|] + Serialized(t)
  }

  function EntriesBuffer(es: seq<(int, Tree)>): (buf: seq<int>)
    ensures |buf| >= 2 * |es|
  {
    if es == [] then [] else EntryBuffer(es[0].0, es[0].1) + EntriesBuffer(es[1..])
  }

  /** The map buffer: the number of trees, then each entry in iteration order. */
  function SerializedMap(es: seq<(int, Tree)>): (buf: seq<int>)
    ensures |buf| >= 1 + 2 * |es| && buf[0] == |es|
  {
    [|es|] + EntriesBuffer(es)
  }

  /** 1 + sum over the entries of (2 + 3 * nodes). */
  function MapBufferLength(es: seq<(int, Tree)>): int
  {
    if es == [] then 1 else 2 + 3 * NodesOf(es[0].1) + MapBufferLength(es[1..])
  }

  lemma {:induction false} EntriesBufferAppend(es: seq<(int, Tree)>, key: int, t: Tree)
    ensures EntriesBuffer(es + [(key, t)]) == EntriesBuffer(es) + EntryBuffer(key, t)
  {
    if es == [] {
      assert [] + [(key, t)] == [(key, t)];
    } else {
      assert (es + [(key, t)])[1..] == es[1..] + [(key, t)];
      EntriesBufferAppend(es[1..], key, t);
    }
  }

  lemma {:induction false} SerializedMapLength(es: seq<(int, Tree)>)
    ensures |SerializedMap(es)| == MapBufferLength(es)
  {
    if es != [] {
      SerializedMapLength(es[1..]);
    }
  }

  /** Reads `count` entries and requires the buffer to end right after them. */
  function ParseEntries(buf: seq<int>, count: nat): (r: Parsed<seq<(int, Tree)>>)
    ensures r.Ok? ==> |r.value| == count
    decreases count
  {
    if count == 0 then (if buf == [] then Ok([]) else Malformed)
    else if |buf| < 2 || buf[1] < 0 || |buf| < 2 + buf[1] then Malformed
    else match Deserialized(buf[2..2 + buf[1]])
      case Malformed => Malformed
      case Ok(t) =>
        match ParseEntries(buf[2 + buf[1]..], count - 1)
        case Malformed => Malformed
        case Ok(rest) => Ok([(buf[0], t)] + rest)
  }

  /** The inverse of the map serializer, entry by entry. */
  function ParseMap(buf: seq<int>): (r: Parsed<seq<(int, Tree)>>)
    ensures r.Ok? ==> |buf| >= 1 && |r.value| == buf[0]
  {
    if buf == [] || buf[0] < 0 then Malformed else ParseEntries(buf[1..], buf[0])
  }

  lemma {:induction false} ParseEntriesRoundTrip(es: seq<(int, Tree)>)
    ensures ParseEntries(EntriesBuffer(es), |es|) == Ok(es)
  {
    if es != [] {
      var key, t := es[0].0, es[0].1;
      var buf := EntriesBuffer(es);
      var tb := Serialized(t);
      assert buf == [key, |tb|] + tb + EntriesBuffer(es[1..]);
      assert buf[2..2 + |tb|] == tb;
      assert buf[2 + |tb|..] == EntriesBuffer(es[1..]);
      RoundTrip(t);
      ParseEntriesRoundTrip(es[1..]);
      assert [(key, t)] + es[1..] == es;
    }
  }

  /** Map round trip: every key and tree comes back, in the order written. */
  lemma MapRoundTrip(es: seq<(int, Tree)>)
    ensures ParseMap(SerializedMap(es)) == Ok(es)
  {
    ParseEntriesRoundTrip(es);
    assert SerializedMap(es)[1..] == EntriesBuffer(es);
  }
}
