/**
 * The discrete skeleton of HSS compression (src/HSS/HSSMatrix.compress.hpp)
 * stated on values: the per-node compression state, the skeleton index
 * lists kept in the WorkCompress tree, and the blocks whose entries are
 * requested from the element oracle.  Floating-point data is left out;
 * a dense block is its shape and the global indices of its entries.
 */
module CompressModel {

  datatype State = Untouched | PartiallyCompressed | Compressed

  /** A dense block: its shape and the row/column indices its entries come from. */
  datatype Block = NoBlock | Block(rows: int, cols: int, I: seq<int>, J: seq<int>)

  /** A range of sample columns: start and count. */
  datatype Window = Window(start: int, count: int)

  /**
   * The mutable part of one HSS node: U/V states, ranks and row counts,
   * the diagonal block D, the coupling blocks B01/B10, and the sample
   * columns its local samples were last updated with.
   */
  datatype Fields = Fields(uState: State, vState: State, uRank: int, vRank: int,
                           uRows: int, vRows: int, D: Block, B01: Block, B10: Block,
                           window: Window)

  /** An HSS node: a leaf holds its dimensions; an internal node's are its children's sums. */
  datatype Node =
    | Leaf(rows: nat, cols: nat, f: Fields)
    | Inner(f: Fields, c0: Node, c1: Node)

  /**
   * WorkCompress: offset of the node's block, its level, the skeleton
   * rows/columns Ir/Ic (global indices), the ID pivots Jr/Jc (local), and
   * the children, which split creates once.
   */
  datatype Work = Work(rowOff: int, colOff: int, lvl: int, Ir: seq<int>, Ic: seq<int>,
                       Jr: seq<int>, Jc: seq<int>, c: Kids)
  datatype Kids = NoKids | Kids(w0: Work, w1: Work)

  /**
   * The interpolative decomposition is an oracle: asked for the row basis
   * (from Sr) or the column basis (from Sc) of the node at a level and
   * offset, with `rows` sample rows and sample width d, it answers the
   * pivot rows; the rank is the number of pivots.
   */
  datatype Side = RowBasis | ColBasis
  datatype IdQuery = IdQuery(side: Side, lvl: int, rowOff: int, colOff: int, rows: int, d: int)
  type IdOracle = IdQuery -> seq<int>

  function Rows(h: Node): nat
  {
    match h
    case Leaf(m, _, _) => m
    case Inner(_, c0, c1) => Rows(c0) + Rows(c1)
  }

  function Cols(h: Node): nat
  {
    match h
    case Leaf(_, n, _) => n
    case Inner(_, c0, c1) => Cols(c0) + Cols(c1)
  }

  predicate IsUntouched(f: Fields)
  {
    f.uState == Untouched && f.vState == Untouched
  }

  predicate IsCompressed(f: Fields)
  {
    f.uState == Compressed && f.vState == Compressed
  }

  /** Every entry of s lies in [lo, lo + n). */
  predicate InRange(s: seq<int>, lo: int, n: int)
  {
    forall k :: 0 <= k < |s| ==> lo <= s[k] < lo + n
  }

  /** The oracle answers pivots that are rows of the sample block it was given. */
  ghost predicate IdSound(id: IdOracle)
  {
    forall q: IdQuery :: InRange(id(q), 0, q.rows)
  }

  /** start, start + 1, ..., start + count - 1. */
  function Range(start: int, count: nat): (r: seq<int>)
    ensures |r| == count && forall i :: 0 <= i < count ==> r[i] == start + i
  {
    seq(count, i => start + i)
  }

  /** Every entry moved by delta. */
  function Shift(s: seq<int>, delta: int): (r: seq<int>)
    ensures |r| == |s| && forall k :: 0 <= k < |s| ==> r[k] == s[k] + delta
  {
    seq(|s|, k requires 0 <= k < |s| => s[k] + delta)
  }

  /**
   * A pivot of an internal node names a skeleton row of the left child
   * when below |I0|, else one of the right child.  A pivot outside both
   * lists never occurs for a sound oracle (see ChildPivotsInRange); -1
   * stands for it.
   */
  function ChildPivot(j: int, I0: seq<int>, I1: seq<int>): int
  {
    if 0 <= j < |I0| then I0[j]
    else if |I0| <= j < |I0| + |I1| then I1[j - |I0|]
    else -1
  }

  function ChildPivots(J: seq<int>, I0: seq<int>, I1: seq<int>): (r: seq<int>)
    ensures |r| == |J|
  {
    seq(|J|, k requires 0 <= k < |J| => ChildPivot(J[k], I0, I1))
  }

  /** The acceptance test of compute_U_V_bases. */
  predicate Converged(d: int, p: int, maxRank: int, uRank: int, vRank: int)
  {
    d - p >= maxRank || (uRank < d - p && vRank < d - p)
  }

  function ChildWork(rowOff: int, colOff: int, lvl: int): Work
  {
    Work(rowOff, colOff, lvl, [], [], [], [], NoKids)
  }

  /**
   * WorkCompress::split with the dimensions of the left child: creates
   * the two children once, the left at the parent's offset, the right
   * shifted by the left child's dimensions, both one level deeper.
   */
  function SplitWork(w: Work, rows0: int, cols0: int): (r: Work)
    ensures r.c.Kids? && r.rowOff == w.rowOff && r.colOff == w.colOff && r.lvl == w.lvl
    ensures r.Ir == w.Ir && r.Ic == w.Ic
    ensures w.c.Kids? ==> r == w
  {
    if w.c.Kids? then w
    else w.(c := Kids(ChildWork(w.rowOff, w.colOff, w.lvl + 1),
                      ChildWork(w.rowOff + rows0, w.colOff + cols0, w.lvl + 1)))
  }

  /** Sample rows of the row basis: the leaf's rows, else the children's U ranks together. */
  function URows(h: Node): int
  {
    if h.Leaf? then h.rows else h.c0.f.uRank + h.c1.f.uRank
  }

  /** Sample rows of the column basis: the leaf's rows (not cols), else the children's V ranks together. */
  function VRows(h: Node): int
  {
    if h.Leaf? then h.rows else h.c0.f.vRank + h.c1.f.vRank
  }

  /**
   * compute_U_V_bases: ask the oracle for both bases; on convergence set
   * the ranks and row counts and append the global skeleton indices (the
   * leaf's offset plus the pivot, or the child skeleton index the pivot
   * names); otherwise clear the pivots and change nothing else.
   */
  function Bases(h: Node, w: Work, d: int, p: int, maxRank: int, id: IdOracle): (r: (bool, Fields, Work))
    requires h.Inner? ==> w.c.Kids?
    ensures r.1.uState == h.f.uState && r.1.vState == h.f.vState
    ensures r.0 ==> |r.2.Ir| == |w.Ir| + r.1.uRank && |r.2.Ic| == |w.Ic| + r.1.vRank
    ensures !r.0 ==> r.1 == h.f && r.2.Ir == w.Ir && r.2.Ic == w.Ic
  {
    var uRows, vRows := URows(h), VRows(h);
    var Jr := id(IdQuery(RowBasis, w.lvl, w.rowOff, w.colOff, uRows, d));
    var Jc := id(IdQuery(ColBasis, w.lvl, w.rowOff, w.colOff, vRows, d));
    if Converged(d, p, maxRank, |Jr|, |Jc|) then
      var Ir := if h.Leaf? then Shift(Jr, w.rowOff) else ChildPivots(Jr, w.c.w0.Ir, w.c.w1.Ir);
      var Ic := if h.Leaf? then Shift(Jc, w.colOff) else ChildPivots(Jc, w.c.w0.Ic, w.c.w1.Ic);
      (true, h.f.(uRank := |Jr|, uRows := uRows, vRank := |Jc|, vRows := vRows),
       w.(Ir := w.Ir + Ir, Ic := w.Ic + Ic, Jr := Jr, Jc := Jc))
    else
      (false, h.f, w.(Jr := [], Jc := []))
  }

  /**
   * The common tail of compress_recursive_original and
   * compress_level_original: the root becomes compressed outright; any
   * other node updates its local samples (all d columns when untouched,
   * else the dd new ones) and, unless already compressed, is compressed or
   * left partially compressed by the outcome of Bases.
   */
  function Finish(h: Node, w: Work, d: int, dd: int, p: int, maxRank: int, id: IdOracle): (r: (Fields, Work))
    requires h.Inner? ==> w.c.Kids?
    ensures r.0.D == h.f.D && r.0.B01 == h.f.B01 && r.0.B10 == h.f.B10
    ensures r.1.rowOff == w.rowOff && r.1.colOff == w.colOff && r.1.lvl == w.lvl && r.1.c == w.c
    ensures IsCompressed(h.f) ==>
      IsCompressed(r.0) && r.0.uRank == h.f.uRank && r.0.vRank == h.f.vRank && r.1.Ir == w.Ir && r.1.Ic == w.Ic
  {
    if w.lvl == 0 then (h.f.(uState := Compressed, vState := Compressed), w)
    else
      var f1 := h.f.(window := if IsUntouched(h.f) then Window(0, d) else Window(d - dd, dd));
      if IsCompressed(f1) then (f1, w)
      else
        var b := Bases(h.(f := f1), w, d, p, maxRank, id);
        var st := if b.0 then Compressed else PartiallyCompressed;
        (b.1.(uState := st, vState := st), b.2)
  }

  /** The diagonal block of a leaf: its rows and columns at the node's offset. */
  function DBlock(m: nat, n: nat, w: Work): Block
  {
    Block(m, n, Range(w.rowOff, m), Range(w.colOff, n))
  }

  /** B01 = A(Ir of c0, Ic of c1) sized U_rank(c0) x V_rank(c1); B10 the other way round. */
  function Coupling(f: Fields, n0: Node, n1: Node, w0: Work, w1: Work): Fields
  {
    f.(B01 := Block(n0.f.uRank, n1.f.vRank, w0.Ir, w1.Ic),
       B10 := Block(n1.f.uRank, n0.f.vRank, w1.Ir, w0.Ic))
  }

  /**
   * What every compression pass guarantees about a node (h, w) it turns
   * into (h2, w2): the same offsets, level and dimensions, and a node that
   * was compressed stays compressed with its ranks and skeleton lists.
   */
  predicate Follows(h: Node, w: Work, h2: Node, w2: Work)
  {
    w2.rowOff == w.rowOff && w2.colOff == w.colOff && w2.lvl == w.lvl &&
    Rows(h2) == Rows(h) && Cols(h2) == Cols(h) && h2.Leaf? == h.Leaf? &&
    (IsCompressed(h.f) ==>
      IsCompressed(h2.f) && h2.f.uRank == h.f.uRank && h2.f.vRank == h.f.vRank && w2.Ir == w.Ir && w2.Ic == w.Ic)
  }

  /**
   * The part of compress_recursive_original after both children are
   * done: stop unless both are compressed; an untouched node fetches its
   * coupling blocks; Finish follows.
   */
  function Join(f: Fields, n0: Node, n1: Node, wk: Work, d: int, dd: int, p: int, maxRank: int, id: IdOracle): (r: (Node, Work))
    requires wk.c.Kids?
    ensures r.0 == Inner(r.0.f, n0, n1) && Follows(Inner(f, n0, n1), wk, r.0, r.1)
    ensures IsCompressed(n0.f) && IsCompressed(n1.f) ==> !IsUntouched(r.0.f)
  {
    if !IsCompressed(n0.f) || !IsCompressed(n1.f) then (Inner(f, n0, n1), wk)
    else
      var f1 := if IsUntouched(f) then Coupling(f, n0, n1, wk.c.w0, wk.c.w1) else f;
      var t := Finish(Inner(f1, n0, n1), wk, d, dd, p, maxRank, id);
      (Inner(t.0, n0, n1), t.1)
  }

  /**
   * compress_recursive_original, left child before right: a leaf fetches
   * D when untouched; an internal node splits the work, compresses both
   * children and joins.
   */
  function CompressRec(h: Node, w: Work, d: int, dd: int, p: int, maxRank: int, id: IdOracle): (r: (Node, Work))
    ensures Follows(h, w, r.0, r.1)
    decreases h
  {
    match h
    case Leaf(m, n, f) =>
      var f1 := if IsUntouched(f) then f.(D := DBlock(m, n, w)) else f;
      var t := Finish(Leaf(m, n, f1), w, d, dd, p, maxRank, id);
      (Leaf(m, n, t.0), t.1)
    case Inner(f, c0, c1) =>
      var ws := SplitWork(w, Rows(c0), Cols(c0));
      var r0 := CompressRec(c0, ws.c.w0, d, dd, p, maxRank, id);
      var r1 := CompressRec(c1, ws.c.w1, d, dd, p, maxRank, id);
      Join(f, r0.0, r1.0, ws.(c := Kids(r0.1, r1.1)), d, dd, p, maxRank, id)
  }

  /** Every internal node the level traversals reach has had its work split. */
  ghost predicate SplitTo(h: Node, w: Work, lvl: int)
    decreases h
  {
    h.Inner? ==> w.c.Kids? && (w.lvl < lvl ==> SplitTo(h.c0, w.c.w0, lvl) && SplitTo(h.c1, w.c.w1, lvl))
  }

  /**
   * compress_level_original: above level lvl only recurse; a leaf at or
   * below it, or an internal node whose children are both compressed,
   * goes through Finish; any other node is left alone.
   */
  function CompressLevel(h: Node, w: Work, d: int, dd: int, lvl: int, p: int, maxRank: int, id: IdOracle): (r: (Node, Work))
    requires SplitTo(h, w, lvl)
    ensures Follows(h, w, r.0, r.1) && r.1.c.Kids? == w.c.Kids?
    decreases h
  {
    match h
    case Leaf(m, n, f) =>
      if w.lvl < lvl then (h, w)
      else var t := Finish(h, w, d, dd, p, maxRank, id); (Leaf(m, n, t.0), t.1)
    case Inner(f, c0, c1) =>
      if w.lvl < lvl then
        var r0 := CompressLevel(c0, w.c.w0, d, dd, lvl, p, maxRank, id);
        var r1 := CompressLevel(c1, w.c.w1, d, dd, lvl, p, maxRank, id);
        (Inner(f, r0.0, r1.0), w.(c := Kids(r0.1, r1.1)))
      else if !IsCompressed(c0.f) || !IsCompressed(c1.f) then (h, w)
      else var t := Finish(h, w, d, dd, p, maxRank, id); (Inner(t.0, c0, c1), t.1)
  }

  /**
   * extract_D_B: above level lvl only recurse; from lvl down an untouched
   * leaf fetches D and an untouched internal node its coupling blocks.
   */
  function ExtractDB(h: Node, w: Work, lvl: int): (r: Node)
    requires SplitTo(h, w, lvl)
    ensures SplitTo(r, w, lvl) && Rows(r) == Rows(h) && Cols(r) == Cols(h)
    ensures r.f.uState == h.f.uState && r.f.vState == h.f.vState && r.f.uRank == h.f.uRank && r.f.vRank == h.f.vRank
    decreases h
  {
    match h
    case Leaf(m, n, f) =>
      if w.lvl < lvl || !IsUntouched(f) then h else Leaf(m, n, f.(D := DBlock(m, n, w)))
    case Inner(f, c0, c1) =>
      if w.lvl < lvl then Inner(f, ExtractDB(c0, w.c.w0, lvl), ExtractDB(c1, w.c.w1, lvl))
      else if IsUntouched(f) then Inner(Coupling(f, c0, c1, w.c.w0, w.c.w1), c0, c1)
      else h
  }

  /**
   * What get_extraction_indices appends: row lists I, column lists J, the
   * blocks the entries go to (in the overload that collects them), and
   * the number added to `self`.
   */
  datatype Extracted = Extracted(I: seq<seq<int>>, J: seq<seq<int>>, blocks: seq<Block>, count: int)

  function Append(a: Extracted, b: Extracted): Extracted
  {
    Extracted(a.I + b.I, a.J + b.J, a.blocks + b.blocks, a.count + b.count)
  }

  /**
   * get_extraction_indices at level lvl, all indices shifted by
   * (offR, offC): an untouched leaf at lvl asks for its whole block; an
   * untouched internal node at or below lvl asks for its two coupling
   * blocks at the children's skeleton indices.  The node result is the
   * overload that allocates D, B01 and B10 for the entries to land in.
   */
  function Extraction(h: Node, w: Work, offR: int, offC: int, lvl: int): (r: (Extracted, Work, Node))
    ensures |r.0.I| == r.0.count && |r.0.J| == r.0.count && |r.0.blocks| == r.0.count
    ensures r.1.rowOff == w.rowOff && r.1.colOff == w.colOff && r.1.lvl == w.lvl
    ensures r.1.Ir == w.Ir && r.1.Ic == w.Ic
    decreases h
  {
    match h
    case Leaf(m, n, f) =>
      if w.lvl == lvl && IsUntouched(f) then
        var I, J := Range(w.rowOff + offR, m), Range(w.colOff + offC, n);
        (Extracted([I], [J], [Block(m, n, I, J)], 1), w, Leaf(m, n, f.(D := Block(m, n, I, J))))
      else (Extracted([], [], [], 0), w, h)
    case Inner(f, c0, c1) =>
      var ws := SplitWork(w, Rows(c0), Cols(c0));
      if ws.lvl < lvl then
        var r0 := Extraction(c0, ws.c.w0, offR, offC, lvl);
        var r1 := Extraction(c1, ws.c.w1, offR, offC, lvl);
        (Append(r0.0, r1.0), ws.(c := Kids(r0.1, r1.1)), Inner(f, r0.2, r1.2))
      else if IsUntouched(f) then
        var w0, w1 := ws.c.w0, ws.c.w1;
        var b01 := Block(c0.f.uRank, c1.f.vRank, Shift(w0.Ir, offR), Shift(w1.Ic, offC));
        var b10 := Block(c1.f.uRank, c0.f.vRank, Shift(w1.Ir, offR), Shift(w0.Ic, offC));
        (Extracted([b01.I, b10.I], [b01.J, b10.J], [b01, b10], 2), ws, Inner(f.(B01 := b01, B10 := b10), c0, c1))
      else (Extracted([], [], [], 0), ws, h)
  }

  /** HSSMatrix::reset: every node back to untouched with zero ranks and row counts. */
  function ResetNode(h: Node): (r: Node)
    ensures Rows(r) == Rows(h) && Cols(r) == Cols(h) && r.Leaf? == h.Leaf?
    ensures IsUntouched(r.f) && r.f.uRank == 0 && r.f.vRank == 0
    ensures r.f.D == h.f.D && r.f.B01 == h.f.B01 && r.f.B10 == h.f.B10
    decreases h
  {
    var f := h.f.(uState := Untouched, vState := Untouched, uRank := 0, vRank := 0, uRows := 0, vRows := 0);
    match h
    case Leaf(m, n, _) => Leaf(m, n, f)
    case Inner(_, c0, c1) => Inner(f, ResetNode(c0), ResetNode(c1))
  }

  /** 2^k. */
  function Pow2(k: nat): (r: nat)
    ensures r >= 1
  {
    if k == 0 then 1 else 2 * Pow2(k - 1)
  }

  /** The sample width d of attempt k: d0 + p at first, then the useful part d - p doubles. */
  function Width(d0: int, p: int, k: nat): int
  {
    p + d0 * Pow2(k)
  }

  /** d_old of attempt k: 0 at first, then the previous attempt's width. */
  function PrevWidth(d0: int, p: int, k: nat): int
  {
    if k == 0 then 0 else Width(d0, p, k - 1)
  }

  /** One attempt of the drivers: its width d and the sample columns [d_old, d) it newly requests. */
  datatype Attempt = Attempt(d: int, newColumns: Window)

  /** The first n attempts of the width schedule. */
  function Attempts(d0: int, p: int, n: nat): (r: seq<Attempt>)
    ensures |r| == n
  {
    seq(n, k requires 0 <= k < n =>
      Attempt(Width(d0, p, k), Window(PrevWidth(d0, p, k), Width(d0, p, k) - PrevWidth(d0, p, k))))
  }
}
