/**
 * HSSMatrix nodes and their compression routines (src/HSS/HSSMatrix.compress.hpp)
 * as a class whose state fields the routines update in place.  The tree
 * shape and block dimensions are fixed when the nodes are built; the
 * compression state, ranks, row counts and the D/B01/B10 blocks change.
 * Every routine is proved equal to its value-level counterpart in
 * CompressModel, whose properties CompressLemmas proves.
 */
module HSSCompress {
  import opened CompressModel
  import opened CompressLemmas

  class HSSNode {
    const rows: nat
    const cols: nat
    const ch: seq<HSSNode>
    ghost const Repr: set<object>

    var uState: State
    var vState: State
    var uRank: int
    var vRank: int
    var uRows: int
    var vRows: int
    var D: Block
    var B01: Block
    var B10: Block
    /** The sample columns the local samples were last updated with (their values are not modelled). */
    ghost var window: Window

    /** A leaf, or an internal node with two children owning disjoint nodes; dimensions add up. */
    ghost predicate Wf()
      decreases Repr
    {
      this in Repr &&
      (ch == [] ||
       (|ch| == 2 && ch[0] in Repr && ch[1] in Repr &&
        ch[0].Repr <= Repr && ch[1].Repr <= Repr &&
        this !in ch[0].Repr && this !in ch[1].Repr && ch[0].Repr !! ch[1].Repr &&
        ch[0].Wf() && ch[1].Wf() &&
        rows == ch[0].rows + ch[1].rows && cols == ch[0].cols + ch[1].cols))
    }

    ghost function Local(): Fields
      reads this
    {
      Fields(uState, vState, uRank, vRank, uRows, vRows, D, B01, B10, window)
    }

    /** The subtree as a value. */
    ghost function Model(): (r: Node)
      requires Wf()
      reads Repr
      ensures Rows(r) == rows && Cols(r) == cols && r.Leaf? == (ch == []) && r.f == Local()
      decreases Repr
    {
      if ch == [] then Leaf(rows, cols, Local())
      else Inner(Local(), ch[0].Model(), ch[1].Model())
    }

    /** A new leaf: untouched, ranks and row counts zero, no blocks yet. */
    constructor NewLeaf(m: nat, n: nat)
      ensures Wf() && Model() == Leaf(m, n, Initial()) && fresh(Repr)
    {
      rows, cols, ch := m, n, [];
      Repr := {this};
      uState, vState := Untouched, Untouched;
      uRank, vRank, uRows, vRows := 0, 0, 0, 0;
      D, B01, B10 := NoBlock, NoBlock, NoBlock;
      window := Window(0, 0);
    }

    /** A new internal node over two existing subtrees. */
    constructor NewInner(a: HSSNode, b: HSSNode)
      requires a.Wf() && b.Wf() && a.Repr !! b.Repr
      ensures Wf() && Model() == Inner(Initial(), old(a.Model()), old(b.Model()))
      ensures Repr == {this} + a.Repr + b.Repr
    {
      rows, cols, ch := a.rows + b.rows, a.cols + b.cols, [a, b];
      Repr := {this} + a.Repr + b.Repr;
      uState, vState := Untouched, Untouched;
      uRank, vRank, uRows, vRows := 0, 0, 0, 0;
      D, B01, B10 := NoBlock, NoBlock, NoBlock;
      window := Window(0, 0);
    }

    /** Every leaf block is square (a structural fact: rows and cols are fixed). */
    ghost predicate Square()
      requires Wf()
      decreases Repr
    {
      if ch == [] then rows == cols else ch[0].Square() && ch[1].Square()
    }

    lemma SquareModel()
      requires Wf() && Square()
      ensures SquareLeaves(Model())
      decreases Repr
    {
      if ch != [] {
        ch[0].SquareModel();
        ch[1].SquareModel();
      }
    }

    /** Both bases compressed (HSSBasisBase::is_compressed, assumed). */
    predicate IsCompressedNode()
      reads this
      ensures IsCompressedNode() <==> IsCompressed(Local())
    {
      uState == Compressed && vState == Compressed
    }

    /** Both bases untouched (HSSBasisBase::is_untouched, assumed). */
    predicate IsUntouchedNode()
      reads this
      ensures IsUntouchedNode() <==> IsUntouched(Local())
    {
      uState == Untouched && vState == Untouched
    }

    /**
     * compute_U_V_bases: the ID oracle answers the pivots of both sample
     * blocks; on acceptance the ranks and row counts are set and the
     * global skeleton indices pushed onto w.Ir/w.Ic, otherwise Jr/Jc are
     * cleared and nothing else changes.
     */
    method ComputeUVBases(w: Work, d: int, p: int, maxRank: int, id: IdOracle) returns (ok: bool, w2: Work)
      requires Wf() && (ch != [] ==> w.c.Kids?)
      modifies this
      ensures (ok, Local(), w2) == Bases(old(Model()), w, d, p, maxRank, id)
    {
      ghost var h := Model();
      var uRows' := if ch == [] then rows else ch[0].uRank + ch[1].uRank;
      var vRows' := if ch == [] then rows else ch[0].vRank + ch[1].vRank;
      assert uRows' == URows(h) && vRows' == VRows(h);
      var Jr := id(IdQuery(RowBasis, w.lvl, w.rowOff, w.colOff, uRows', d));
      var Jc := id(IdQuery(ColBasis, w.lvl, w.rowOff, w.colOff, vRows', d));
      if d - p >= maxRank || (|Jr| < d - p && |Jc| < d - p) {
        uRank, uRows, vRank, vRows := |Jr|, uRows', |Jc|, vRows';
        var Ir, Ic;
        if ch == [] {
          Ir := PushShifted(w.Ir, Jr, w.rowOff);
          Ic := PushShifted(w.Ic, Jc, w.colOff);
        } else {
          Ir := PushChildPivots(w.Ir, Jr, w.c.w0.Ir, w.c.w1.Ir);
          Ic := PushChildPivots(w.Ic, Jc, w.c.w0.Ic, w.c.w1.Ic);
        }
        ok, w2 := true, w.(Ir := Ir, Ic := Ic, Jr := Jr, Jc := Jc);
      } else {
        ok, w2 := false, w.(Jr := [], Jc := []);
      }
    }

    /**
     * The tail of compress_recursive_original and compress_level_original:
     * the root is compressed outright; another node updates its local
     * samples and, unless compressed already, runs compute_U_V_bases and
     * becomes compressed or partially compressed by its answer.
     */
    method FinishNode(w: Work, d: int, dd: int, p: int, maxRank: int, id: IdOracle) returns (w2: Work)
      requires Wf() && (ch != [] ==> w.c.Kids?)
      modifies this
      ensures (Local(), w2) == Finish(old(Model()), w, d, dd, p, maxRank, id)
    {
      if w.lvl == 0 {
        uState, vState := Compressed, Compressed;
        w2 := w;
      } else {
        ghost var h := Model();
        window := if IsUntouchedNode() then Window(0, d) else Window(d - dd, dd);
        ghost var h1 := Model();
        assert h1 == h.(f := Local());
        if !IsCompressedNode() {
          var ok;
          ok, w2 := ComputeUVBases(w, d, p, maxRank, id);
          ghost var b := Bases(h1, w, d, p, maxRank, id);
          assert Local() == b.1;
          var st := if ok then Compressed else PartiallyCompressed;
          uState, vState := st, st;
        } else {
          w2 := w;
        }
      }
    }

    /**
     * compress_recursive_original with the children in sequence, left
     * before right: an untouched leaf fetches D; an internal node splits
     * the work, compresses both children, stops unless both are
     * compressed, and fetches B01/B10 when untouched; then FinishNode.
     */
    method CompressRecursive(w: Work, d: int, dd: int, p: int, maxRank: int, id: IdOracle) returns (w2: Work)
      requires Wf()
      modifies Repr
      ensures (Model(), w2) == CompressRec(old(Model()), w, d, dd, p, maxRank, id)
      decreases Repr
    {
      if ch == [] {
        w2 := CompressLeaf(w, d, dd, p, maxRank, id);
      } else {
        ghost var f, c0, c1 := Local(), ch[0].Model(), ch[1].Model();
        ghost var h := Model();
        assert h == Inner(f, c0, c1);
        var ws := SplitWork(w, ch[0].rows, ch[0].cols);
        var w0 := ch[0].CompressRecursive(ws.c.w0, d, dd, p, maxRank, id);
        ghost var r0 := CompressRec(c0, ws.c.w0, d, dd, p, maxRank, id);
        assert ch[0].Model() == r0.0 && w0 == r0.1;
        var w1 := ch[1].CompressRecursive(ws.c.w1, d, dd, p, maxRank, id);
        ghost var r1 := CompressRec(c1, ws.c.w1, d, dd, p, maxRank, id);
        assert ch[0].Model() == r0.0 && ch[1].Model() == r1.0 && w1 == r1.1 && Local() == f;
        w2 := JoinNode(ws.(c := Kids(w0, w1)), d, dd, p, maxRank, id);
        assert CompressRec(h, w, d, dd, p, maxRank, id) == Join(f, r0.0, r1.0, ws.(c := Kids(r0.1, r1.1)), d, dd, p, maxRank, id);
        assert (Model(), w2) == CompressRec(h, w, d, dd, p, maxRank, id);
      }
    }

    /** The leaf case of compress_recursive_original: an untouched leaf fetches D, then FinishNode. */
    method CompressLeaf(w: Work, d: int, dd: int, p: int, maxRank: int, id: IdOracle) returns (w2: Work)
      requires Wf() && ch == []
      modifies this
      ensures (Model(), w2) == CompressRec(old(Model()), w, d, dd, p, maxRank, id)
    {
      if IsUntouchedNode() {
        var I := IndexRange(w.rowOff, rows);
        var J := IndexRange(w.colOff, cols);
        D := Block(rows, cols, I, J);
      }
      w2 := FinishNode(w, d, dd, p, maxRank, id);
    }

    /**
     * The internal case of compress_recursive_original once both children
     * are done: stop unless both are compressed, fetch B01/B10 when
     * untouched, then FinishNode.
     */
    method JoinNode(wk: Work, d: int, dd: int, p: int, maxRank: int, id: IdOracle) returns (w2: Work)
      requires Wf() && ch != [] && wk.c.Kids?
      modifies this
      ensures (Model(), w2) == Join(old(Local()), old(ch[0].Model()), old(ch[1].Model()), wk, d, dd, p, maxRank, id)
    {
      ghost var f, n0, n1 := Local(), ch[0].Model(), ch[1].Model();
      if !ch[0].IsCompressedNode() || !ch[1].IsCompressedNode() {
        w2 := wk;
        return;
      }
      if IsUntouchedNode() {
        B01 := Block(ch[0].uRank, ch[1].vRank, wk.c.w0.Ir, wk.c.w1.Ic);
        B10 := Block(ch[1].uRank, ch[0].vRank, wk.c.w1.Ir, wk.c.w0.Ic);
      }
      ghost var h1 := Model();
      assert h1 == Inner(if IsUntouched(f) then Coupling(f, n0, n1, wk.c.w0, wk.c.w1) else f, n0, n1);
      w2 := FinishNode(wk, d, dd, p, maxRank, id);
      assert Model() == Inner(Local(), n0, n1);
    }

    /**
     * compress_level_original: above level lvl only recurse; a leaf at or
     * below it, or an internal node with both children compressed, goes
     * through FinishNode; any other node returns untouched.
     */
    method CompressLevelNode(w: Work, d: int, dd: int, lvl: int, p: int, maxRank: int, id: IdOracle) returns (w2: Work)
      requires Wf() && SplitTo(Model(), w, lvl)
      modifies Repr
      ensures (Model(), w2) == CompressLevel(old(Model()), w, d, dd, lvl, p, maxRank, id)
      decreases Repr
    {
      if ch == [] {
        if w.lvl < lvl {
          w2 := w;
          return;
        }
        w2 := FinishNode(w, d, dd, p, maxRank, id);
      } else if w.lvl < lvl {
        ghost var f, c0, c1 := Local(), ch[0].Model(), ch[1].Model();
        ghost var h := Model();
        assert h == Inner(f, c0, c1);
        var w0 := ch[0].CompressLevelNode(w.c.w0, d, dd, lvl, p, maxRank, id);
        ghost var r0 := CompressLevel(c0, w.c.w0, d, dd, lvl, p, maxRank, id);
        assert ch[0].Model() == r0.0 && w0 == r0.1;
        var w1 := ch[1].CompressLevelNode(w.c.w1, d, dd, lvl, p, maxRank, id);
        w2 := w.(c := Kids(w0, w1));
        assert Model() == Inner(f, ch[0].Model(), ch[1].Model());
      } else if !ch[0].IsCompressedNode() || !ch[1].IsCompressedNode() {
        w2 := w;
      } else {
        w2 := FinishNode(w, d, dd, p, maxRank, id);
      }
    }

    /**
     * extract_D_B: above level lvl only recurse; from lvl down an
     * untouched leaf fetches D and an untouched internal node B01/B10.
     */
    method ExtractDBNode(w: Work, lvl: int)
      requires Wf() && SplitTo(Model(), w, lvl)
      modifies Repr
      ensures Model() == ExtractDB(old(Model()), w, lvl)
      decreases Repr
    {
      if ch == [] {
        if w.lvl < lvl {
          return;
        }
        if IsUntouchedNode() {
          var I := IndexRange(w.rowOff, rows);
          var J := IndexRange(w.colOff, cols);
          D := Block(rows, cols, I, J);
        }
      } else if w.lvl < lvl {
        ghost var f, c0, c1 := Local(), ch[0].Model(), ch[1].Model();
        ghost var h := Model();
        assert h == Inner(f, c0, c1);
        ch[0].ExtractDBNode(w.c.w0, lvl);
        assert ch[0].Model() == ExtractDB(c0, w.c.w0, lvl);
        ch[1].ExtractDBNode(w.c.w1, lvl);
        assert Model() == Inner(f, ch[0].Model(), ch[1].Model());
      } else if IsUntouchedNode() {
        B01 := Block(ch[0].uRank, ch[1].vRank, w.c.w0.Ir, w.c.w1.Ic);
        B10 := Block(ch[1].uRank, ch[0].vRank, w.c.w1.Ir, w.c.w0.Ic);
      }
    }

    /**
     * get_extraction_indices: append to I and J the row and column lists
     * of the blocks to fetch at level lvl, shifted by (offR, offC), and
     * count them in self; the node itself is left alone.
     */
    method GetExtractionIndices(I: seq<seq<int>>, J: seq<seq<int>>, offR: int, offC: int, w: Work, self: int, lvl: int)
      returns (I2: seq<seq<int>>, J2: seq<seq<int>>, w2: Work, self2: int)
      requires Wf()
      ensures var r := Extraction(Model(), w, offR, offC, lvl);
        (I2, J2, self2, w2) == (I + r.0.I, J + r.0.J, self + r.0.count, r.1)
      decreases Repr, 1
    {
      ghost var h := Model();
      ghost var r := Extraction(h, w, offR, offC, lvl);
      if ch == [] {
        w2 := w;
        if w.lvl == lvl && IsUntouchedNode() {
          var e := LeafIndices(w, offR, offC);
          I2, J2, self2 := I + e.I, J + e.J, self + e.count;
        } else {
          I2, J2, self2 := I, J, self;
          assert I + [] == I && J + [] == J;
        }
      } else {
        ghost var c0, c1 := ch[0].Model(), ch[1].Model();
        assert h == Inner(Local(), c0, c1);
        var ws := SplitWork(w, ch[0].rows, ch[0].cols);
        assert ws == SplitWork(w, Rows(c0), Cols(c0));
        if ws.lvl < lvl {
          I2, J2, w2, self2 := ExtractChildren(I, J, offR, offC, ws, self, lvl);
          ghost var r0, r1 := Extraction(c0, ws.c.w0, offR, offC, lvl), Extraction(c1, ws.c.w1, offR, offC, lvl);
          assert r == (Append(r0.0, r1.0), ws.(c := Kids(r0.1, r1.1)), Inner(Local(), r0.2, r1.2));
          AppendInSequence(I, J, [], r0.0, r1.0);
        } else {
          w2 := ws;
          if IsUntouchedNode() {
            var e := CouplingIndices(ws, offR, offC);
            I2, J2, self2 := I + e.I, J + e.J, self + e.count;
          } else {
            I2, J2, self2 := I, J, self;
            assert I + [] == I && J + [] == J;
          }
        }
      }
    }

    /** The two recursive calls of get_extraction_indices, left child first. */
    method ExtractChildren(I: seq<seq<int>>, J: seq<seq<int>>, offR: int, offC: int, ws: Work, self: int, lvl: int)
      returns (I2: seq<seq<int>>, J2: seq<seq<int>>, w2: Work, self2: int)
      requires Wf() && ch != [] && ws.c.Kids?
      ensures var r0 := Extraction(ch[0].Model(), ws.c.w0, offR, offC, lvl);
        var r1 := Extraction(ch[1].Model(), ws.c.w1, offR, offC, lvl);
        (I2, J2, self2, w2) == (I + r0.0.I + r1.0.I, J + r0.0.J + r1.0.J, self + r0.0.count + r1.0.count,
                                ws.(c := Kids(r0.1, r1.1)))
      decreases Repr, 0
    {
      var I1, J1, w0, self1 := ch[0].GetExtractionIndices(I, J, offR, offC, ws.c.w0, self, lvl);
      var w1;
      I2, J2, w1, self2 := ch[1].GetExtractionIndices(I1, J1, offR, offC, ws.c.w1, self1, lvl);
      w2 := ws.(c := Kids(w0, w1));
    }

    /**
     * The overload of get_extraction_indices that also allocates the
     * blocks the entries land in (D of a leaf, B01/B10 sized by the
     * children's ranks) and appends them to B.
     */
    method GetExtractionIndicesWithBlocks(I: seq<seq<int>>, J: seq<seq<int>>, B: seq<Block>, offR: int, offC: int,
                                          w: Work, self: int, lvl: int)
      returns (I2: seq<seq<int>>, J2: seq<seq<int>>, B2: seq<Block>, w2: Work, self2: int)
      requires Wf()
      modifies Repr
      ensures var r := Extraction(old(Model()), w, offR, offC, lvl);
        (I2, J2, B2, self2, w2, Model()) == (I + r.0.I, J + r.0.J, B + r.0.blocks, self + r.0.count, r.1, r.2)
      decreases Repr, 1
    {
      ghost var h := Model();
      ghost var r := Extraction(h, w, offR, offC, lvl);
      if ch == [] {
        w2 := w;
        if w.lvl == lvl && IsUntouchedNode() {
          var e := LeafIndices(w, offR, offC);
          I2, J2, B2, self2 := I + e.I, J + e.J, B + e.blocks, self + e.count;
          D := e.blocks[0];
          assert Model() == Leaf(rows, cols, Local());
        } else {
          I2, J2, B2, self2 := I, J, B, self;
          assert I + [] == I && J + [] == J && B + [] == B;
        }
      } else {
        ghost var f, c0, c1 := Local(), ch[0].Model(), ch[1].Model();
        assert h == Inner(f, c0, c1);
        var ws := SplitWork(w, ch[0].rows, ch[0].cols);
        assert ws == SplitWork(w, Rows(c0), Cols(c0));
        if ws.lvl < lvl {
          I2, J2, B2, w2, self2 := ExtractChildrenWithBlocks(I, J, B, offR, offC, ws, self, lvl);
          ghost var r0, r1 := Extraction(c0, ws.c.w0, offR, offC, lvl), Extraction(c1, ws.c.w1, offR, offC, lvl);
          assert r == (Append(r0.0, r1.0), ws.(c := Kids(r0.1, r1.1)), Inner(f, r0.2, r1.2));
          AppendInSequence(I, J, B, r0.0, r1.0);
          assert Model() == Inner(f, ch[0].Model(), ch[1].Model());
        } else {
          w2 := ws;
          if IsUntouchedNode() {
            var e := CouplingIndices(ws, offR, offC);
            I2, J2, B2, self2 := I + e.I, J + e.J, B + e.blocks, self + e.count;
            SetCoupling(e.blocks[0], e.blocks[1]);
          } else {
            I2, J2, B2, self2 := I, J, B, self;
            assert I + [] == I && J + [] == J && B + [] == B;
          }
        }
      }
    }

    /** An untouched leaf at the level asks for its whole block, shifted by the offset. */
    method LeafIndices(w: Work, offR: int, offC: int) returns (e: Extracted)
      requires Wf() && ch == [] && IsUntouchedNode()
      ensures e == Extraction(Model(), w, offR, offC, w.lvl).0
    {
      var rowList := IndexRange(w.rowOff + offR, rows);
      var colList := IndexRange(w.colOff + offC, cols);
      e := Extracted([rowList], [colList], [Block(rows, cols, rowList, colList)], 1);
    }

    /**
     * An untouched internal node at or below the level asks for B01 at
     * (c0.Ir, c1.Ic) and B10 at (c1.Ir, c0.Ic), shifted by the offset.
     */
    method CouplingIndices(ws: Work, offR: int, offC: int) returns (e: Extracted)
      requires Wf() && ch != [] && IsUntouchedNode() && ws == SplitWork(ws, ch[0].rows, ch[0].cols)
      ensures e == Extraction(Model(), ws, offR, offC, ws.lvl).0
    {
      ghost var f, c0, c1 := Local(), ch[0].Model(), ch[1].Model();
      assert Model() == Inner(f, c0, c1) && ws == SplitWork(ws, Rows(c0), Cols(c0));
      var rows01 := PushShifted([], ws.c.w0.Ir, offR);
      var cols01 := PushShifted([], ws.c.w1.Ic, offC);
      var rows10 := PushShifted([], ws.c.w1.Ir, offR);
      var cols10 := PushShifted([], ws.c.w0.Ic, offC);
      var b01 := Block(ch[0].uRank, ch[1].vRank, rows01, cols01);
      var b10 := Block(ch[1].uRank, ch[0].vRank, rows10, cols10);
      e := Extracted([rows01, rows10], [cols01, cols10], [b01, b10], 2);
      assert b01 == Block(c0.f.uRank, c1.f.vRank, Shift(ws.c.w0.Ir, offR), Shift(ws.c.w1.Ic, offC));
      assert b10 == Block(c1.f.uRank, c0.f.vRank, Shift(ws.c.w1.Ir, offR), Shift(ws.c.w0.Ic, offC));
    }

    /** Store the coupling blocks of an internal node; nothing else changes. */
    method SetCoupling(b01: Block, b10: Block)
      requires Wf() && ch != []
      modifies this
      ensures Model() == Inner(old(Local()).(B01 := b01, B10 := b10), old(ch[0].Model()), old(ch[1].Model()))
    {
      ghost var c0, c1 := ch[0].Model(), ch[1].Model();
      B01, B10 := b01, b10;
      assert Model() == Inner(Local(), c0, c1);
    }

    /** The two recursive calls of the overload with blocks, left child first. */
    method ExtractChildrenWithBlocks(I: seq<seq<int>>, J: seq<seq<int>>, B: seq<Block>, offR: int, offC: int,
                                     ws: Work, self: int, lvl: int)
      returns (I2: seq<seq<int>>, J2: seq<seq<int>>, B2: seq<Block>, w2: Work, self2: int)
      requires Wf() && ch != [] && ws.c.Kids?
      modifies ch[0].Repr, ch[1].Repr
      ensures var r0 := Extraction(old(ch[0].Model()), ws.c.w0, offR, offC, lvl);
        var r1 := Extraction(old(ch[1].Model()), ws.c.w1, offR, offC, lvl);
        (I2, J2, B2, self2, w2) == (I + r0.0.I + r1.0.I, J + r0.0.J + r1.0.J, B + r0.0.blocks + r1.0.blocks,
                                    self + r0.0.count + r1.0.count, ws.(c := Kids(r0.1, r1.1))) &&
        ch[0].Model() == r0.2 && ch[1].Model() == r1.2
      decreases Repr, 0
    {
      var I1, J1, B1, w0, self1 := ch[0].GetExtractionIndicesWithBlocks(I, J, B, offR, offC, ws.c.w0, self, lvl);
      var w1;
      I2, J2, B2, w1, self2 := ch[1].GetExtractionIndicesWithBlocks(I1, J1, B1, offR, offC, ws.c.w1, self1, lvl);
      w2 := ws.(c := Kids(w0, w1));
    }

    /** HSSMatrix::reset (assumed): every node untouched again with zero ranks and row counts. */
    method Reset()
      requires Wf()
      modifies Repr
      ensures Model() == ResetNode(old(Model()))
      decreases Repr
    {
      if ch != [] {
        ghost var f, c0, c1 := Local(), ch[0].Model(), ch[1].Model();
        ch[0].Reset();
        ch[1].Reset();
        assert ch[0].Model() == ResetNode(c0) && ch[1].Model() == ResetNode(c1) && Local() == f;
      }
      ResetLocal();
    }

    /** The node's own part of the reset; the children are left as they are. */
    method ResetLocal()
      requires Wf()
      modifies this
      ensures Local() == old(Local()).(uState := Untouched, vState := Untouched, uRank := 0, vRank := 0, uRows := 0, vRows := 0)
      ensures ch != [] ==> Model() == Inner(Local(), old(ch[0].Model()), old(ch[1].Model()))
      ensures ch == [] ==> Model() == Leaf(rows, cols, Local())
    {
      ghost var c0, c1 := if ch != [] then ch[0].Model() else Model(), if ch != [] then ch[1].Model() else Model();
      uState, vState := Untouched, Untouched;
      uRank, vRank, uRows, vRows := 0, 0, 0, 0;
      if ch != [] {
        assert Model() == Inner(Local(), c0, c1);
      }
    }

    /**
     * One attempt of compress_original: compress_recursive_original on the
     * threaded work tree, sampling only the columns after d_old.
     */
    method ResumedAttempt(w: Work, d: int, dOld: int, p: int, maxRank: int, id: IdOracle) returns (w2: Work)
      requires Wf() && Core(Model(), w) && Windows(Model(), w, dOld) && IdSound(id)
      modifies Repr
      ensures Core(Model(), w2) && Windows(Model(), w2, d) && Resumes(old(Model()), Model(), w2, d)
      ensures d - p >= maxRank ==> AllCompressed(Model())
      ensures !IsCompressedNode() ==> d - p < maxRank
    {
      var dd := d - dOld;
      assert d - dd == dOld;
      ResumedAttemptFacts(Model(), w, d, dd, p, maxRank, id);
      w2 := CompressRecursive(w, d, dd, p, maxRank, id);
    }

    /**
     * One attempt of compress_hard_restart: compress_recursive_original on
     * a fresh work tree with dd = d, from a tree nothing has touched; when
     * the root is not compressed afterwards the whole tree is reset.
     */
    method FreshAttempt(d: int, p: int, maxRank: int, id: IdOracle) returns (w2: Work)
      requires Wf() && Square() && Pristine(Model()) && IdSound(id)
      modifies Repr
      ensures IsCompressedNode() ==> Core(Model(), w2) && Resumes(old(Model()), Model(), w2, d)
      ensures !IsCompressedNode() ==> Pristine(Model()) && d - p < maxRank
      ensures d - p >= maxRank ==> AllCompressed(Model())
    {
      ghost var h := Model();
      var start := ChildWork(0, 0, 0);
      SquareModel();
      PristineCore(h, start);
      CompressRecCore(h, start, d, d, p, maxRank, id);
      assert Windows(h, start, d - d);
      CompressRecWindows(h, start, d, d, p, maxRank, id);
      if d - p >= maxRank {
        WideCompressesAll(h, start, d, d, p, maxRank, id);
      }
      w2 := CompressRecursive(start, d, d, p, maxRank, id);
      if !IsCompressedNode() {
        ghost var h2 := Model();
        Reset();
        ResetPristine(h2);
      }
    }

    /**
     * compress_original: attempts of growing width d, threading one work
     * tree through all of them; each attempt samples only the d - d_old
     * new columns and passes dd = d - d_old; stops once the root is
     * compressed, so an already compressed matrix is left as it is.  The
     * log lists the attempts; w is the work tree the last one left.
     */
    method CompressOriginal(d0: int, p: int, maxRank: int, id: IdOracle) returns (log: seq<Attempt>, w: Work)
      requires Wf() && Square() && IdSound(id) && d0 >= 1
      requires Pristine(Model()) || AllCompressed(Model())
      modifies Repr
      ensures AllCompressed(Model()) && Scheduled(log, d0, p, maxRank)
      ensures old(AllCompressed(Model())) ==> log == [] && Model() == old(Model())
      ensures !old(IsCompressedNode()) ==> |log| >= 1 && Core(Model(), w)
    {
      ghost var h0 := Model();
      ghost var done := AllCompressed(h0);
      var dOld, d := 0, d0 + p;
      w := ChildWork(0, 0, 0);
      log := [];
      SquareModel();
      if !done {
        PristineCore(h0, w);
      }
      while !IsCompressedNode()
        invariant done ==> log == [] && Model() == h0 && AllCompressed(h0)
        invariant !done ==> Core(Model(), w)
        invariant Scheduled(log, d0, p, maxRank)
        invariant !IsCompressedNode() ==> !done && Pending(log, d, dOld, d0, p, maxRank) && Windows(Model(), w, dOld)
        invariant IsCompressedNode() && !done ==> |log| >= 1
        decreases if d - p >= maxRank then 0 else maxRank - (d - p), if IsCompressedNode() then 0 else 1
      {
        PendingStep(log, d, dOld, d0, p, maxRank);
        log := log + [Attempt(d, Window(dOld, d - dOld))];
        w := ResumedAttempt(w, d, dOld, p, maxRank, id);
        if !IsCompressedNode() {
          dOld := d;
          d := 2 * (dOld - p) + p;
        }
      }
      if !done {
        CompressedIsAll(Model(), w);
      }
    }

    /**
     * compress_hard_restart: as compress_original, but every attempt
     * starts from a fresh work tree with dd = d (the earlier samples are
     * copied into the leading columns) and a failed attempt resets the
     * whole tree.  An already compressed matrix is left as it is; w is
     * the work tree of the last attempt.
     */
    method CompressHardRestart(d0: int, p: int, maxRank: int, id: IdOracle) returns (log: seq<Attempt>, w: Work)
      requires Wf() && Square() && IdSound(id) && d0 >= 1
      requires Pristine(Model()) || AllCompressed(Model())
      modifies Repr
      ensures AllCompressed(Model()) && Scheduled(log, d0, p, maxRank)
      ensures old(AllCompressed(Model())) ==> log == [] && Model() == old(Model())
      ensures !old(IsCompressedNode()) ==> |log| >= 1 && Core(Model(), w)
    {
      ghost var h0 := Model();
      ghost var done := AllCompressed(h0);
      var dOld, d := 0, d0 + p;
      w := ChildWork(0, 0, 0);
      log := [];
      while !IsCompressedNode()
        invariant done ==> log == [] && Model() == h0 && AllCompressed(h0)
        invariant Scheduled(log, d0, p, maxRank)
        invariant !IsCompressedNode() ==> !done && Pending(log, d, dOld, d0, p, maxRank) && Pristine(Model())
        invariant IsCompressedNode() && !done ==> |log| >= 1 && Core(Model(), w)
        decreases if d - p >= maxRank then 0 else maxRank - (d - p), if IsCompressedNode() then 0 else 1
      {
        PendingStep(log, d, dOld, d0, p, maxRank);
        log := log + [Attempt(d, Window(dOld, d - dOld))];
        w := FreshAttempt(d, p, maxRank, id);
        if !IsCompressedNode() {
          dOld := d;
          d := 2 * (dOld - p) + p;
        }
      }
      if !done {
        CompressedIsAll(Model(), w);
      }
    }
  }

  /** Appending two extractions one after the other appends their concatenation. */
  lemma AppendInSequence(I: seq<seq<int>>, J: seq<seq<int>>, B: seq<Block>, e0: Extracted, e1: Extracted)
    ensures I + e0.I + e1.I == I + Append(e0, e1).I && J + e0.J + e1.J == J + Append(e0, e1).J
    ensures B + e0.blocks + e1.blocks == B + Append(e0, e1).blocks
  {
  }

  /** The fields of a node nobody has compressed yet. */
  function Initial(): (f: Fields)
    ensures IsUntouched(f) && f.uRank == 0 && f.vRank == 0
  {
    Fields(Untouched, Untouched, 0, 0, 0, 0, NoBlock, NoBlock, NoBlock, Window(0, 0))
  }

  /** The loop of I.push_back(i + offset) for i < count. */
  method IndexRange(start: int, count: nat) returns (s: seq<int>)
    ensures s == Range(start, count)
  {
    s := [];
    var i := 0;
    while i < count
      invariant 0 <= i <= count && s == Range(start, i)
    {
      s := s + [start + i];
      i := i + 1;
    }
  }

  /** acc with every entry of J, moved by delta, pushed at the back. */
  method PushShifted(acc: seq<int>, J: seq<int>, delta: int) returns (r: seq<int>)
    ensures r == acc + Shift(J, delta)
  {
    r := acc;
    var k := 0;
    while k < |J|
      invariant 0 <= k <= |J| && r == acc + Shift(J[..k], delta)
    {
      assert Shift(J[..k + 1], delta) == Shift(J[..k], delta) + [J[k] + delta];
      r := r + [J[k] + delta];
      k := k + 1;
    }
    assert J[..|J|] == J;
  }

  /** acc with the child skeleton index each pivot of J names pushed at the back. */
  method PushChildPivots(acc: seq<int>, J: seq<int>, I0: seq<int>, I1: seq<int>) returns (r: seq<int>)
    ensures r == acc + ChildPivots(J, I0, I1)
  {
    r := acc;
    var k := 0;
    var r0 := |I0|;
    while k < |J|
      invariant 0 <= k <= |J| && r == acc + ChildPivots(J[..k], I0, I1)
    {
      var j := J[k];
      var x := if 0 <= j < r0 then I0[j] else if r0 <= j < r0 + |I1| then I1[j - r0] else -1;
      assert ChildPivots(J[..k + 1], I0, I1) == ChildPivots(J[..k], I0, I1) + [x];
      r := r + [x];
      k := k + 1;
    }
    assert J[..|J|] == J;
  }
}
