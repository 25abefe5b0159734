/**
 * The partition-tree class: every node owns its size and a list of zero
 * or two child nodes, and refine, truncate_complete and expand_complete
 * change those in place.  Each node carries a ghost abstract value
 * `Model` (a PartitionTreeModel.Tree) and a footprint `Repr`; every
 * method is proved against the value-level function it implements.
 */
module HSSPartitionTree {
  import opened PartitionTreeModel

  class PartitionTree {
    var size: int
    var c: seq<PartitionTree>
    ghost var Model: Tree
    ghost var Repr: set<PartitionTree>

    /** A node has no children or exactly two, owned exclusively. */
    ghost predicate Valid()
      reads this, Repr
      decreases Repr
    {
      this in Repr &&
      (c == [] ==> Repr == {this} && Model == Leaf(size)) &&
      (c != [] ==>
        |c| == 2 &&
        c[0] in Repr && c[1] in Repr &&
        Repr == {this} + c[0].Repr + c[1].Repr &&
        this !in c[0].Repr && this !in c[1].Repr &&
        c[0].Repr !! c[1].Repr &&
        c[0].Valid() && c[1].Valid() &&
        Model == Split(size, c[0].Model, c[1].Model))
    }

    /** The default constructor: a leaf of size 0. */
    constructor Empty()
      ensures Valid() && fresh(Repr) && Model == Leaf(0)
    {
      size, c := 0, [];
      Model, Repr := Leaf(0), {this};
    }

    /** A single leaf covering n indices. */
    constructor (n: int)
      ensures Valid() && Repr == {this} && Model == Leaf(n)
    {
      size, c := n, [];
      Model, Repr := Leaf(n), {this};
    }

    /** The copy constructor copies the children by value: a deep copy. */
    constructor Copy(h: PartitionTree)
      requires h.Valid()
      ensures Valid() && fresh(Repr) && Model == h.Model
      decreases h.Repr
    {
      size := h.size;
      if h.c == [] {
        c := [];
        Model, Repr := Leaf(h.size), {this};
      } else {
        var c0 := new PartitionTree.Copy(h.c[0]);
        var c1 := new PartitionTree.Copy(h.c[1]);
        c := [c0, c1];
        Model := Split(h.size, c0.Model, c1.Model);
        Repr := {this} + c0.Repr + c1.Repr;
      }
    }

    /** The vector constructor: n = |buf| / 3 slots, read from slot n - 1 downward. */
    constructor FromVector(buf: seq<int>)
      requires Deserialized(buf).Ok?
      ensures Valid() && fresh(Repr) && Model == Deserialized(buf).value
    {
      var n := |buf| / 3;
      size, c := 0, [];
      Model, Repr := Leaf(0), {this};
      new;
      var pid := DeSerializeRec(buf[..n], buf[2 * n..3 * n], n - 1);
    }

    /** The (buf_size, int*) constructor: the same reading over the first bufSize entries. */
    constructor FromBuffer(bufSize: int, buf: array<int>)
      requires 0 <= bufSize <= buf.Length
      requires Deserialized(buf[..bufSize]).Ok?
      ensures Valid() && fresh(Repr) && Model == Deserialized(buf[..bufSize]).value
    {
      var n := bufSize / 3;
      size, c := 0, [];
      Model, Repr := Leaf(0), {this};
      new;
      assert buf[..bufSize][..n] == buf[..n];
      assert buf[..bufSize][2 * n..3 * n] == buf[2 * n..3 * n];
      var pid := DeSerializeRec(buf[..n], buf[2 * n..3 * n], n - 1);
    }

    /**
     * refine(leaf_size) on a node without children: split while
     * size > 2*leafSize, into size/2 and size - size/2, and refine both.
     * For leafSize <= 0 the source recurses forever (a node of size 1 is
     * split into 0 and 1 again and again), so callers pass a positive size.
     */
    method Refine(leafSize: int)
      requires Valid() && c == [] && leafSize >= 1
      modifies this
      ensures Valid() && fresh(Repr - {this})
      ensures Model == Refined(old(size), leafSize)
      decreases size, 0
    {
      if size > 2 * leafSize {
        var c0 := RefinedChild(size / 2, leafSize);
        var c1 := RefinedChild(size - size / 2, leafSize);
        SetChildren(c0, c1);
      }
    }

    /** A child of the given size, refined in turn. */
    static method RefinedChild(n: int, leafSize: int) returns (t: PartitionTree)
      requires leafSize >= 1
      ensures t.Valid() && fresh(t.Repr) && t.Model == Refined(n, leafSize)
      decreases n, 1
    {
      t := new PartitionTree(n);
      t.Refine(leafSize);
    }

    /** c.resize(2) followed by filling both slots: c0 and c1 become the children. */
    method SetChildren(c0: PartitionTree, c1: PartitionTree)
      requires c0.Valid() && c1.Valid()
      requires this !in c0.Repr && this !in c1.Repr && c0.Repr !! c1.Repr
      modifies this
      ensures Valid() && c == [c0, c1] && size == old(size)
      ensures Model == Split(size, c0.Model, c1.Model)
      ensures Repr == {this} + c0.Repr + c1.Repr
    {
      c := [c0, c1];
      Model := Split(size, c0.Model, c1.Model);
      Repr := {this} + c0.Repr + c1.Repr;
    }

    /** nodes(): the node count of the abstract tree. */
    function Nodes(): (n: int)
      reads this, Repr
      requires Valid()
      ensures n == NodesOf(Model)
      decreases Repr
    {
      if c == [] then 1 else 1 + c[0].Nodes() + c[1].Nodes()
    }

    /** levels(): the number of levels of the abstract tree. */
    function Levels(): (n: int)
      reads this, Repr
      requires Valid()
      ensures n == LevelsOf(Model)
      decreases Repr
    {
      if c == [] then 1 else 1 + Max(c[0].Levels(), c[1].Levels())
    }

    /** min_levels(). */
    function MinLevels(): (n: int)
      reads this, Repr
      requires Valid()
      ensures n == MinLevelsOf(Model)
      decreases Repr
    {
      var lvls := Levels();
      if c == [] then lvls else Min(Min(lvls, 1 + c[0].MinLevels()), 1 + c[1].MinLevels())
    }

    /** is_complete(): compares the levels of the two children only. */
    function IsComplete(): (b: bool)
      reads this, Repr
      requires Valid()
      ensures b == IsCompleteOf(Model)
    {
      c == [] || c[0].Levels() == c[1].Levels()
    }

    /** truncate_complete(): cut every branch at depth min_levels(). */
    method TruncateComplete()
      requires Valid()
      modifies Repr
      ensures Valid() && Repr <= old(Repr)
      ensures Model == Truncated(old(Model))
    {
      var lvls := MinLevels();
      TruncateCompleteRec(1, lvls);
    }

    method TruncateCompleteRec(lvl: int, lvls: int)
      requires Valid()
      modifies Repr
      ensures Valid() && Repr <= old(Repr)
      ensures Model == TruncateFrom(old(Model), lvl, lvls)
      decreases Repr
    {
      if lvl == lvls {
        c := [];
        Model, Repr := Leaf(size), {this};
      } else if c != [] {
        var c0, c1 := c[0], c[1];
        c0.TruncateCompleteRec(lvl + 1, lvls);
        c1.TruncateCompleteRec(lvl + 1, lvls);
        SetChildren(c0, c1);
      }
    }

    /** expand_complete(allowZeroNodes): pad every branch out to levels(). */
    method ExpandComplete(allowZeroNodes: bool)
      requires Valid()
      modifies Repr
      ensures Valid() && fresh(Repr - old(Repr))
      ensures Model == Expanded(old(Model), allowZeroNodes)
    {
      var lvls := Levels();
      ExpandCompleteRec(1, lvls, allowZeroNodes);
    }

    /**
     * expand_complete_rec: 2^(lvls-lvl-1) is the value of
     * 1 << (lvls-lvl-1) for shifts that stay inside an int.
     */
    method ExpandCompleteRec(lvl: int, lvls: int, allowZeroNodes: bool)
      requires Valid() && lvl + LevelsOf(Model) - 1 <= lvls
      modifies Repr
      ensures Valid() && fresh(Repr - old(Repr))
      ensures Model == ExpandFrom(old(Model), lvl, lvls, allowZeroNodes)
      decreases lvls - lvl, 0
    {
      if c == [] {
        if lvl != lvls {
          var a, b;
          if allowZeroNodes {
            a, b := size, 0;
          } else {
            var l1 := Pow2(lvls - lvl - 1);
            a, b := size - l1, l1;
          }
          var c0 := ExpandedChild(a, lvl + 1, lvls, allowZeroNodes);
          var c1 := ExpandedChild(b, lvl + 1, lvls, allowZeroNodes);
          SetChildren(c0, c1);
        }
      } else {
        ExpandChildren(lvl + 1, lvls, allowZeroNodes);
      }
    }

    /** The loop of expand_complete_rec over the two existing children, at level childLvl. */
    method ExpandChildren(childLvl: int, lvls: int, allowZeroNodes: bool)
      requires Valid() && c != [] && childLvl + LevelsOf(c[0].Model) - 1 <= lvls
      requires childLvl + LevelsOf(c[1].Model) - 1 <= lvls
      modifies Repr
      ensures Valid() && fresh(Repr - old(Repr))
      ensures Model == Split(old(size), ExpandFrom(old(c[0].Model), childLvl, lvls, allowZeroNodes),
                                   ExpandFrom(old(c[1].Model), childLvl, lvls, allowZeroNodes))
      decreases lvls - childLvl, 2
    {
      var c0, c1 := c[0], c[1];
      c0.ExpandCompleteRec(childLvl, lvls, allowZeroNodes);
      c1.ExpandCompleteRec(childLvl, lvls, allowZeroNodes);
      SetChildren(c0, c1);
    }

    /** A new leaf of size n at level lvl, expanded in turn. */
    static method ExpandedChild(n: int, lvl: int, lvls: int, allowZeroNodes: bool) returns (t: PartitionTree)
      requires lvl <= lvls
      ensures t.Valid() && fresh(t.Repr)
      ensures t.Model == ExpandFrom(Leaf(n), lvl, lvls, allowZeroNodes)
      decreases lvls - lvl, 1
    {
      t := new PartitionTree(n);
      t.ExpandCompleteRec(lvl, lvls, allowZeroNodes);
    }

    /** leaf_sizes(): the leaf sizes, left to right. */
    method LeafSizes() returns (lf: seq<int>)
      requires Valid()
      ensures lf == LeafSizesOf(Model)
    {
      lf := LeafSizesRec([]);
    }

    /** leaf_sizes_rec: appends the leaf sizes of this subtree to lf. */
    method LeafSizesRec(lf: seq<int>) returns (out: seq<int>)
      requires Valid()
      ensures out == lf + LeafSizesOf(Model)
      decreases Repr
    {
      out := lf;
      if c != [] {
        out := c[0].LeafSizesRec(out);
        out := c[1].LeafSizesRec(out);
      } else {
        out := out + [size];
      }
    }

    /**
     * serialize(): a zero-filled buffer of 3 * nodes() entries whose
     * thirds are the sizes, lchild and rchild columns.
     */
    method Serialize() returns (out: seq<int>)
      requires Valid()
      ensures out == Serialized(Model)
    {
      var n := Nodes();
      var buf := new int[3 * n];
      ghost var zeros := buf[..];
      var pid := SerializeRec(buf, n, 0);
      PlaceColumnsWhole(zeros, n, SerializeFrom(Model, 0));
      out := buf[..];
    }

    /**
     * serialize_rec: the sizes column starts at buf[0], lchild at buf[n]
     * and rchild at buf[2n].  Writes this subtree in post-order into
     * slots pid .. pid + nodes() - 1 of each column, leaves every other
     * entry alone, and returns the first slot after it.
     */
    method SerializeRec(buf: array<int>, n: int, pid: int) returns (next: int)
      requires Valid()
      requires buf.Length == 3 * n && 0 <= pid && pid + NodesOf(Model) <= n
      modifies buf
      ensures next == pid + NodesOf(Model)
      ensures buf[..] == PlaceColumns(old(buf[..]), n, pid, SerializeFrom(Model, pid))
      decreases Repr, 1
    {
      if c != [] {
        ghost var b0 := buf[..];
        var lroot;
        lroot, next := SerializeChildren(buf, n, pid);
        ghost var b2, t0, t1 := buf[..], c[0].Model, c[1].Model;
        WriteSlot(buf, n, next, size, lroot - 1, next - 1);
        SerializeStep(b0, b2, buf[..], n, pid, lroot, next, t0, t1, size);
      } else {
        next := pid;
        WriteSlot(buf, n, next, size, -1, -1);
        PlaceColumnsLeaf(old(buf[..]), n, pid, size);
      }
      next := next + 1;
    }

    /** Writes one node's size, left-child and right-child entries at slot pid. */
    static method WriteSlot(buf: array<int>, n: int, pid: int, x: int, l: int, r: int)
      requires buf.Length == 3 * n && 0 <= pid < n
      modifies buf
      ensures buf[..] == old(buf[..])[n + pid := l][2 * n + pid := r][pid := x]
    {
      buf[n + pid] := l;
      buf[2 * n + pid] := r;
      buf[pid] := x;
    }

    /** The two recursive calls of serialize_rec: left subtree at pid, right subtree after it. */
    method SerializeChildren(buf: array<int>, n: int, pid: int) returns (lroot: int, last: int)
      requires Valid() && c != []
      requires buf.Length == 3 * n && 0 <= pid && pid + NodesOf(Model) <= n
      modifies buf
      ensures lroot == pid + NodesOf(c[0].Model) && last == lroot + NodesOf(c[1].Model)
      ensures buf[..] == PlaceColumns(PlaceColumns(old(buf[..]), n, pid, SerializeFrom(c[0].Model, pid)),
                                      n, lroot, SerializeFrom(c[1].Model, lroot))
      decreases Repr, 0
    {
      lroot := c[0].SerializeRec(buf, n, pid);
      last := c[1].SerializeRec(buf, n, lroot);
    }

    /**
     * de_serialize_rec on a node without children: take the size at slot
     * pid; when rchild[pid] is not -1, read the right child from the slots
     * below and then the left child.  lchild is never consulted.
     */
    method DeSerializeRec(sizes: seq<int>, rchild: seq<int>, pid: int) returns (next: int)
      requires Valid() && c == []
      requires DeserializeFrom(sizes, rchild, pid).Ok?
      modifies this
      ensures Valid() && fresh(Repr - old(Repr))
      ensures (Model, next) == DeserializeFrom(sizes, rchild, pid).value
      decreases pid, 0
    {
      size := sizes[pid];
      next := pid - 1;
      if rchild[pid] != -1 {
        var c0, c1;
        c1, next := DeserializedChild(sizes, rchild, next);
        c0, next := DeserializedChild(sizes, rchild, next);
        SetChildren(c0, c1);
      } else {
        Model := Leaf(size);
      }
    }

    /** c.resize(2) default-constructs a child; de_serialize_rec then fills it. */
    static method DeserializedChild(sizes: seq<int>, rchild: seq<int>, pid: int) returns (t: PartitionTree, next: int)
      requires DeserializeFrom(sizes, rchild, pid).Ok?
      ensures t.Valid() && fresh(t.Repr)
      ensures (t.Model, next) == DeserializeFrom(sizes, rchild, pid).value
      decreases pid, 1
    {
      t := new PartitionTree.Empty();
      next := t.DeSerializeRec(sizes, rchild, pid);
    }
  }

  /**
   * `a`, a buffer of three columns of n entries each, with the columns
   * `cols` written from slot pid on in each column.
   */
  ghost function PlaceColumns(a: seq<int>, n: int, pid: int, cols: Columns): (r: seq<int>)
    requires |a| == 3 * n && 0 <= pid && pid + |cols.sizes| <= n
    requires |cols.lchild| == |cols.sizes| && |cols.rchild| == |cols.sizes|
    ensures |r| == |a|
  {
    var m := |cols.sizes|;
    seq(|a|, k requires 0 <= k < |a| =>
      if pid <= k < pid + m then cols.sizes[k - pid]
      else if n + pid <= k < n + pid + m then cols.lchild[k - n - pid]
      else if 2 * n + pid <= k < 2 * n + pid + m then cols.rchild[k - 2 * n - pid]
      else a[k])
  }

  /** A leaf writes one slot in each column. */
  lemma PlaceColumnsLeaf(a: seq<int>, n: int, pid: int, x: int)
    requires |a| == 3 * n && 0 <= pid < n
    ensures a[n + pid := -1][2 * n + pid := -1][pid := x] == PlaceColumns(a, n, pid, Columns([x], [-1], [-1]))
  {
  }

  /**
   * serialize_rec's two recursive calls write the columns p at pid and q
   * at mid = pid + |p|; writing the root slot last = mid + |q| afterwards
   * gives the columns of the whole subtree at pid.
   */
  lemma PlaceColumnsStep(a: seq<int>, n: int, pid: int, mid: int, last: int, p: Columns, q: Columns, x: int)
    requires |a| == 3 * n && 0 <= pid && mid == pid + |p.sizes| && last == mid + |q.sizes| && last < n
    requires |p.lchild| == |p.sizes| && |p.rchild| == |p.sizes|
    requires |q.lchild| == |q.sizes| && |q.rchild| == |q.sizes|
    ensures
      PlaceColumns(PlaceColumns(a, n, pid, p), n, mid, q)[n + last := mid - 1][2 * n + last := last - 1][last := x] ==
      PlaceColumns(a, n, pid, Columns(p.sizes + q.sizes + [x], p.lchild + q.lchild + [mid - 1], p.rchild + q.rchild + [last - 1]))
  {
  }

  /**
   * serialize_rec on Split(x, t0, t1): the left subtree written at pid,
   * the right one at lroot, then the root slot at last.
   */
  lemma SerializeStep(b0: seq<int>, b2: seq<int>, b3: seq<int>, n: int,
                      pid: int, lroot: int, last: int, t0: Tree, t1: Tree, x: int)
    requires |b0| == 3 * n && 0 <= pid && lroot == pid + NodesOf(t0) && last == lroot + NodesOf(t1) && last < n
    requires b2 == PlaceColumns(PlaceColumns(b0, n, pid, SerializeFrom(t0, pid)), n, lroot, SerializeFrom(t1, lroot))
    requires b3 == b2[n + last := lroot - 1][2 * n + last := last - 1][last := x]
    ensures b3 == PlaceColumns(b0, n, pid, SerializeFrom(Split(x, t0, t1), pid))
  {
    SerializeSplit(x, t0, t1, pid, lroot, last);
    PlaceColumnsStep(b0, n, pid, lroot, last, SerializeFrom(t0, pid), SerializeFrom(t1, lroot), x);
  }

  /** Columns that fill the whole buffer are the three columns one after the other. */
  lemma PlaceColumnsWhole(a: seq<int>, n: int, cols: Columns)
    requires |a| == 3 * n && |cols.sizes| == n && |cols.lchild| == n && |cols.rchild| == n
    ensures PlaceColumns(a, n, 0, cols) == cols.sizes + cols.lchild + cols.rchild
  {
  }

  /** The abstract trees of map entries, keys unchanged. */
  ghost function ModelsOf(entries: seq<(int, PartitionTree)>): (r: seq<(int, Tree)>)
    reads set e | e in entries :: e.1
    ensures |r| == |entries|
    ensures forall i :: 0 <= i < |entries| ==> r[i] == (entries[i].0, entries[i].1.Model)
  {
    if entries == [] then []
    else ModelsOf(entries[..|entries| - 1]) + [(entries[|entries| - 1].0, entries[|entries| - 1].1.Model)]
  }

  /**
   * serialize(unordered_map): the number of trees, then per tree its key,
   * the length of its buffer and the buffer.  `entries` lists the map in
   * its iteration order.
   */
  method SerializeMap(entries: seq<(int, PartitionTree)>) returns (buf: seq<int>)
    requires forall i :: 0 <= i < |entries| ==> entries[i].1.Valid()
    ensures buf == SerializedMap(ModelsOf(entries))
  {
    buf := [|entries|];
    ghost var ms: seq<(int, Tree)> := [];
    var i := 0;
    while i < |entries|
      invariant 0 <= i <= |entries| && |ms| == i
      invariant forall j :: 0 <= j < i ==> ms[j] == (entries[j].0, entries[j].1.Model)
      invariant buf == [|entries|] + EntriesBuffer(ms)
    {
      var key, tree := entries[i].0, entries[i].1;
      var treeBuf := tree.Serialize();
      AppendEntry(buf, |entries|, ms, key, tree.Model, treeBuf);
      buf := buf + [key, |treeBuf|] + treeBuf;
      ms := ms + [(key, tree.Model)];
      i := i + 1;
    }
    assert ms == ModelsOf(entries);
  }

  /** One loop step of the map serializer: appending an entry's key, length and buffer. */
  lemma AppendEntry(buf: seq<int>, count: int, ms: seq<(int, Tree)>, key: int, t: Tree, tb: seq<int>)
    requires buf == [count] + EntriesBuffer(ms) && tb == Serialized(t)
    ensures buf + [key, |tb|] + tb == [count] + EntriesBuffer(ms + [(key, t)])
  {
    EntriesBufferAppend(ms, key, t);
  }
}
