/**
 * Invariants of the HSS compression skeleton and the lemmas that each
 * step of compress_recursive_original keeps them.
 */
module CompressLemmas {
  import opened CompressModel

  /** A subtree compression has never reached: untouched, zero ranks. */
  ghost predicate Pristine(h: Node)
    decreases h
  {
    IsUntouched(h.f) && h.f.uRank == 0 && h.f.vRank == 0 &&
    (h.Inner? ==> Pristine(h.c0) && Pristine(h.c1))
  }

  /** Every leaf block is square, as the samples of compress_original (n x d with n = cols()) assume. */
  ghost predicate SquareLeaves(h: Node)
    decreases h
  {
    match h
    case Leaf(m, n, _) => m == n
    case Inner(_, c0, c1) => SquareLeaves(c0) && SquareLeaves(c1)
  }

  /** Every node compressed. */
  ghost predicate AllCompressed(h: Node)
    decreases h
  {
    IsCompressed(h.f) && (h.Inner? ==> AllCompressed(h.c0) && AllCompressed(h.c1))
  }

  /** The children's work blocks sit at the parent's offset and after the left child, a level deeper. */
  ghost predicate ChildOffsets(w: Work, c0: Node)
    requires w.c.Kids?
  {
    w.c.w0.rowOff == w.rowOff && w.c.w0.colOff == w.colOff &&
    w.c.w1.rowOff == w.rowOff + Rows(c0) && w.c.w1.colOff == w.colOff + Cols(c0) &&
    w.c.w0.lvl == w.lvl + 1 && w.c.w1.lvl == w.lvl + 1
  }

  /**
   * What one node and its work keep between calls: U and V states agree;
   * the skeleton lists are as long as the ranks, empty until the node is
   * compressed, and hold indices inside the node's own rows and columns.
   */
  ghost predicate LocalCore(h: Node, w: Work)
  {
    w.lvl >= 0 && h.f.uState == h.f.vState && (h.Leaf? ==> h.rows == h.cols) &&
    |w.Ir| == h.f.uRank && |w.Ic| == h.f.vRank &&
    (!IsCompressed(h.f) ==> w.Ir == [] && w.Ic == []) &&
    InRange(w.Ir, w.rowOff, Rows(h)) && InRange(w.Ic, w.colOff, Cols(h))
  }

  /**
   * The invariant of the whole tree: LocalCore everywhere the work
   * reaches; a leaf's work is never split; an internal node whose work is
   * not split has never been reached; a touched internal node has both
   * children compressed and coupling blocks at their skeleton indices.
   */
  ghost predicate Core(h: Node, w: Work)
    decreases h
  {
    LocalCore(h, w) &&
    match h
    case Leaf(_, _, _) => w.c.NoKids?
    case Inner(f, c0, c1) =>
      (w.c.NoKids? ==> IsUntouched(f) && Pristine(c0) && Pristine(c1) && SquareLeaves(c0) && SquareLeaves(c1)) &&
      (w.c.Kids? ==> ChildOffsets(w, c0) && Core(c0, w.c.w0) && Core(c1, w.c.w1)) &&
      (!IsUntouched(f) ==>
        w.c.Kids? && IsCompressed(c0.f) && IsCompressed(c1.f) &&
        f.B01 == Block(c0.f.uRank, c1.f.vRank, w.c.w0.Ir, w.c.w1.Ic) &&
        f.B10 == Block(c1.f.uRank, c0.f.vRank, w.c.w1.Ir, w.c.w0.Ic))
  }

  /** Every touched node below the root last updated its local samples up to column e. */
  ghost predicate Windows(h: Node, w: Work, e: int)
    decreases h
  {
    (IsUntouched(h.f) || w.lvl == 0 || h.f.window.start + h.f.window.count == e) &&
    (h.Inner? && w.c.Kids? ==> Windows(h.c0, w.c.w0, e) && Windows(h.c1, w.c.w1, e))
  }

  /**
   * Between trees h (before) and h2 (after an attempt of width d): every
   * node below the root that is touched afterwards updated its local
   * samples from column 0 when it was untouched before, and otherwise from
   * the column where its previous update stopped, up to d.
   */
  ghost predicate Resumes(h: Node, h2: Node, w2: Work, d: int)
    decreases h
  {
    (IsUntouched(h2.f) || w2.lvl == 0 ||
      (var start := if IsUntouched(h.f) then 0 else h.f.window.start + h.f.window.count;
       h2.f.window == Window(start, d - start))) &&
    (h.Inner? && h2.Inner? && w2.c.Kids? ==>
      Resumes(h.c0, h2.c0, w2.c.w0, d) && Resumes(h.c1, h2.c1, w2.c.w1, d))
  }

  /**
   * The mapping of an internal node's pivots: a pivot below |I0| picks the
   * left child's skeleton index, any other the right child's at j - |I0|;
   * the results lie inside the two children's ranges together.
   */
  lemma ChildPivotsInRange(J: seq<int>, I0: seq<int>, I1: seq<int>, lo: int, n0: int, n1: int)
    requires 0 <= n0 && 0 <= n1 && InRange(J, 0, |I0| + |I1|) && InRange(I0, lo, n0) && InRange(I1, lo + n0, n1)
    ensures InRange(ChildPivots(J, I0, I1), lo, n0 + n1)
    ensures forall k :: 0 <= k < |J| ==>
      ChildPivots(J, I0, I1)[k] == if J[k] < |I0| then I0[J[k]] else I1[J[k] - |I0|]
  {
    var r := ChildPivots(J, I0, I1);
    forall k | 0 <= k < |r|
      ensures lo <= r[k] < lo + n0 + n1
    {
      var j := J[k];
      assert 0 <= j < |I0| + |I1|;
      if j < |I0| {
        assert r[k] == I0[j] && lo <= I0[j] < lo + n0;
      } else {
        assert r[k] == I1[j - |I0|] && lo + n0 <= I1[j - |I0|] < lo + n0 + n1;
      }
    }
  }

  /**
   * compute_U_V_bases accepts exactly when the width reaches the rank
   * bound or both ranks stay below d - p; on acceptance the ranks are the
   * pivot counts and Ir/Ic grow by one global index per pivot (offset plus
   * pivot at a leaf, the child skeleton index the pivot names otherwise);
   * on rejection only the pivots are cleared.
   */
  lemma BasesOutcome(h: Node, w: Work, d: int, p: int, maxRank: int, id: IdOracle)
    requires h.Inner? ==> w.c.Kids?
    ensures var r := Bases(h, w, d, p, maxRank, id);
      var Jr := id(IdQuery(RowBasis, w.lvl, w.rowOff, w.colOff, URows(h), d));
      var Jc := id(IdQuery(ColBasis, w.lvl, w.rowOff, w.colOff, VRows(h), d));
      (r.0 <==> d - p >= maxRank || (|Jr| < d - p && |Jc| < d - p)) &&
      (r.0 ==>
        r.1.uRank == |Jr| && r.1.vRank == |Jc| && r.1.uState == h.f.uState && r.1.vState == h.f.vState &&
        r.2.Jr == Jr && r.2.Jc == Jc &&
        |r.2.Ir| == |w.Ir| + |Jr| && r.2.Ir[..|w.Ir|] == w.Ir &&
        |r.2.Ic| == |w.Ic| + |Jc| && r.2.Ic[..|w.Ic|] == w.Ic &&
        (forall k :: 0 <= k < |Jr| ==>
          r.2.Ir[|w.Ir| + k] == if h.Leaf? then w.rowOff + Jr[k] else ChildPivot(Jr[k], w.c.w0.Ir, w.c.w1.Ir)) &&
        (forall k :: 0 <= k < |Jc| ==>
          r.2.Ic[|w.Ic| + k] == if h.Leaf? then w.colOff + Jc[k] else ChildPivot(Jc[k], w.c.w0.Ic, w.c.w1.Ic))) &&
      (!r.0 ==> r.1 == h.f && r.2 == w.(Jr := [], Jc := []))
  {
  }

  /**
   * The state machine of the common tail: the root is compressed outright,
   * a compressed node stays so, and any other node ends with equal U and V
   * states, compressed exactly when compute_U_V_bases accepts and
   * partially compressed otherwise.
   */
  lemma FinishStates(h: Node, w: Work, d: int, dd: int, p: int, maxRank: int, id: IdOracle)
    requires h.Inner? ==> w.c.Kids?
    ensures var f2 := Finish(h, w, d, dd, p, maxRank, id).0;
      (w.lvl == 0 ==> IsCompressed(f2)) &&
      (IsCompressed(h.f) ==> IsCompressed(f2)) &&
      (w.lvl != 0 && !IsCompressed(h.f) ==>
        f2.uState == f2.vState &&
        (f2.uState == Compressed <==> Bases(h, w, d, p, maxRank, id).0) &&
        (f2.uState != Compressed ==> f2.uState == PartiallyCompressed))
  {
  }

  /**
   * The gate of compress_recursive_original: a node whose children are not
   * both compressed comes back unchanged; an untouched one with both
   * children compressed gets B01 over (Ir of c0, Ic of c1) and B10 over
   * (Ir of c1, Ic of c0), sized by the children's ranks.
   */
  lemma JoinGate(f: Fields, n0: Node, n1: Node, wk: Work, d: int, dd: int, p: int, maxRank: int, id: IdOracle)
    requires wk.c.Kids?
    ensures var r := Join(f, n0, n1, wk, d, dd, p, maxRank, id);
      (!IsCompressed(n0.f) || !IsCompressed(n1.f) ==> r == (Inner(f, n0, n1), wk)) &&
      (IsCompressed(n0.f) && IsCompressed(n1.f) && IsUntouched(f) ==>
        r.0.f.B01 == Block(n0.f.uRank, n1.f.vRank, wk.c.w0.Ir, wk.c.w1.Ic) &&
        r.0.f.B10 == Block(n1.f.uRank, n0.f.vRank, wk.c.w1.Ir, wk.c.w0.Ic))
  {
  }

  /** Work that was never touched fits a pristine subtree. */
  lemma PristineCore(h: Node, w: Work)
    requires Pristine(h) && SquareLeaves(h) && w.lvl >= 0 && w.Ir == [] && w.Ic == [] && w.c.NoKids?
    ensures Core(h, w)
  {
  }

  /** Splitting the work of an internal node keeps the invariant and gives the children theirs. */
  lemma SplitCore(h: Node, w: Work)
    requires Core(h, w) && h.Inner?
    ensures var ws := SplitWork(w, Rows(h.c0), Cols(h.c0));
      LocalCore(h, ws) && ChildOffsets(ws, h.c0) && Core(h.c0, ws.c.w0) && Core(h.c1, ws.c.w1)
  {
    var ws := SplitWork(w, Rows(h.c0), Cols(h.c0));
    if w.c.NoKids? {
      PristineCore(h.c0, ws.c.w0);
      PristineCore(h.c1, ws.c.w1);
    }
  }

  /**
   * Finish keeps LocalCore: on acceptance the ranks are the pivot counts
   * and the new skeleton indices fall inside the node's rows and columns;
   * otherwise ranks and skeleton lists stay as they were.
   */
  lemma FinishCore(h: Node, w: Work, d: int, dd: int, p: int, maxRank: int, id: IdOracle)
    requires IdSound(id) && LocalCore(h, w)
    requires h.Inner? ==>
      w.c.Kids? && ChildOffsets(w, h.c0) && LocalCore(h.c0, w.c.w0) && LocalCore(h.c1, w.c.w1) &&
      IsCompressed(h.c0.f) && IsCompressed(h.c1.f)
    ensures LocalCore(h.(f := Finish(h, w, d, dd, p, maxRank, id).0), Finish(h, w, d, dd, p, maxRank, id).1)
  {
    if w.lvl != 0 {
      var f1 := h.f.(window := if IsUntouched(h.f) then Window(0, d) else Window(d - dd, dd));
      if !IsCompressed(f1) {
        var h1 := h.(f := f1);
        var uRows, vRows := URows(h1), VRows(h1);
        var Jr := id(IdQuery(RowBasis, w.lvl, w.rowOff, w.colOff, uRows, d));
        var Jc := id(IdQuery(ColBasis, w.lvl, w.rowOff, w.colOff, vRows, d));
        assert InRange(Jr, 0, uRows) && InRange(Jc, 0, vRows);
        if h.Inner? {
          ChildPivotsInRange(Jr, w.c.w0.Ir, w.c.w1.Ir, w.rowOff, Rows(h.c0), Rows(h.c1));
          ChildPivotsInRange(Jc, w.c.w0.Ic, w.c.w1.Ic, w.colOff, Cols(h.c0), Cols(h.c1));
        }
      }
    }
  }

  /**
   * The invariant of an internal node given its parts: its own LocalCore,
   * split work over children that keep theirs, and, once touched,
   * compressed children whose skeletons address the coupling blocks.
   */
  ghost predicate InnerParts(f: Fields, n0: Node, n1: Node, wk: Work)
  {
    wk.c.Kids? && LocalCore(Inner(f, n0, n1), wk) && ChildOffsets(wk, n0) &&
    Core(n0, wk.c.w0) && Core(n1, wk.c.w1) &&
    (!IsUntouched(f) ==>
      IsCompressed(n0.f) && IsCompressed(n1.f) &&
      f.B01 == Block(n0.f.uRank, n1.f.vRank, wk.c.w0.Ir, wk.c.w1.Ic) &&
      f.B10 == Block(n1.f.uRank, n0.f.vRank, wk.c.w1.Ir, wk.c.w0.Ic))
  }

  /**
   * After both children of a node satisfying Core have been compressed,
   * the node's parts still fit together: children that were compressed
   * kept their ranks and skeletons, so the coupling blocks still match.
   */
  lemma ChildrenDone(f: Fields, c0: Node, c1: Node, w: Work, ws: Work, n0: Node, w0: Work, n1: Node, w1: Work)
    requires Core(Inner(f, c0, c1), w) && ws == SplitWork(w, Rows(c0), Cols(c0))
    requires Follows(c0, ws.c.w0, n0, w0) && Follows(c1, ws.c.w1, n1, w1) && Core(n0, w0) && Core(n1, w1)
    ensures InnerParts(f, n0, n1, ws.(c := Kids(w0, w1)))
  {
    SplitCore(Inner(f, c0, c1), w);
  }

  /** Join keeps the invariant. */
  lemma JoinCore(f: Fields, n0: Node, n1: Node, wk: Work, d: int, dd: int, p: int, maxRank: int, id: IdOracle)
    requires IdSound(id) && InnerParts(f, n0, n1, wk)
    ensures var r := Join(f, n0, n1, wk, d, dd, p, maxRank, id); Core(r.0, r.1)
  {
    if IsCompressed(n0.f) && IsCompressed(n1.f) {
      var f1 := if IsUntouched(f) then Coupling(f, n0, n1, wk.c.w0, wk.c.w1) else f;
      FinishCore(Inner(f1, n0, n1), wk, d, dd, p, maxRank, id);
    }
  }

  /**
   * compress_recursive_original keeps the tree invariant: states agree,
   * skeleton lists match the ranks and stay inside each node's range, and
   * every touched internal node has compressed children whose skeleton
   * indices address its coupling blocks.
   */
  lemma {:induction false} CompressRecCore(h: Node, w: Work, d: int, dd: int, p: int, maxRank: int, id: IdOracle)
    requires Core(h, w) && IdSound(id)
    ensures Core(CompressRec(h, w, d, dd, p, maxRank, id).0, CompressRec(h, w, d, dd, p, maxRank, id).1)
    decreases h
  {
    match h
    case Leaf(m, n, f) =>
      var f1 := if IsUntouched(f) then f.(D := DBlock(m, n, w)) else f;
      FinishCore(Leaf(m, n, f1), w, d, dd, p, maxRank, id);
    case Inner(f, c0, c1) =>
      var ws := SplitWork(w, Rows(c0), Cols(c0));
      SplitCore(h, w);
      var r0 := CompressRec(c0, ws.c.w0, d, dd, p, maxRank, id);
      var r1 := CompressRec(c1, ws.c.w1, d, dd, p, maxRank, id);
      CompressRecCore(c0, ws.c.w0, d, dd, p, maxRank, id);
      CompressRecCore(c1, ws.c.w1, d, dd, p, maxRank, id);
      var wk := ws.(c := Kids(r0.1, r1.1));
      ChildrenDone(f, c0, c1, w, ws, r0.0, r0.1, r1.0, r1.1);
      JoinCore(f, r0.0, r1.0, wk, d, dd, p, maxRank, id);
  }

  /**
   * Once the sample width reaches max_rank every node accepts its bases,
   * so one pass of compress_recursive_original compresses the whole tree.
   */
  lemma {:induction false} WideCompressesAll(h: Node, w: Work, d: int, dd: int, p: int, maxRank: int, id: IdOracle)
    requires d - p >= maxRank
    ensures AllCompressed(CompressRec(h, w, d, dd, p, maxRank, id).0)
    decreases h
  {
    match h
    case Leaf(_, _, _) =>
    case Inner(f, c0, c1) =>
      var ws := SplitWork(w, Rows(c0), Cols(c0));
      WideCompressesAll(c0, ws.c.w0, d, dd, p, maxRank, id);
      WideCompressesAll(c1, ws.c.w1, d, dd, p, maxRank, id);
  }

  /** A compressed node under the invariant heads a completely compressed subtree. */
  lemma {:induction false} CompressedIsAll(h: Node, w: Work)
    requires Core(h, w) && IsCompressed(h.f)
    ensures AllCompressed(h)
    decreases h
  {
    if h.Inner? {
      CompressedIsAll(h.c0, w.c.w0);
      CompressedIsAll(h.c1, w.c.w1);
    }
  }

  /** The sample window a node below the root gets in Finish. */
  lemma FinishWindow(h: Node, w: Work, d: int, dd: int, p: int, maxRank: int, id: IdOracle)
    requires h.Inner? ==> w.c.Kids?
    requires IsUntouched(h.f) || w.lvl == 0 || h.f.window.start + h.f.window.count == d - dd
    ensures var f2 := Finish(h, w, d, dd, p, maxRank, id).0;
      IsUntouched(f2) || w.lvl == 0 ||
      (var start := if IsUntouched(h.f) then 0 else h.f.window.start + h.f.window.count;
       f2.window == Window(start, d - start))
  {
  }

  /** Join keeps the window bookkeeping once both children have kept theirs. */
  lemma JoinWindows(f: Fields, c0: Node, c1: Node, n0: Node, n1: Node, wk: Work,
                    d: int, dd: int, p: int, maxRank: int, id: IdOracle)
    requires wk.c.Kids?
    requires IsUntouched(f) || wk.lvl == 0 || f.window.start + f.window.count == d - dd
    requires !IsUntouched(f) ==> IsCompressed(n0.f) && IsCompressed(n1.f)
    requires Windows(n0, wk.c.w0, d) && Windows(n1, wk.c.w1, d)
    requires Resumes(c0, n0, wk.c.w0, d) && Resumes(c1, n1, wk.c.w1, d)
    ensures var r := Join(f, n0, n1, wk, d, dd, p, maxRank, id);
      Windows(r.0, r.1, d) && Resumes(Inner(f, c0, c1), r.0, r.1, d)
  {
    if IsCompressed(n0.f) && IsCompressed(n1.f) {
      var f1 := if IsUntouched(f) then Coupling(f, n0, n1, wk.c.w0, wk.c.w1) else f;
      FinishWindow(Inner(f1, n0, n1), wk, d, dd, p, maxRank, id);
    }
  }

  /**
   * One pass of compress_recursive_original of width d, after a pass that
   * ended at column d - dd: every touched node resumes its local samples
   * where it stopped (or starts at column 0) and now ends at column d.
   */
  lemma {:induction false} CompressRecWindows(h: Node, w: Work, d: int, dd: int, p: int, maxRank: int, id: IdOracle)
    requires Core(h, w) && Windows(h, w, d - dd)
    ensures var r := CompressRec(h, w, d, dd, p, maxRank, id);
      Windows(r.0, r.1, d) && Resumes(h, r.0, r.1, d)
    decreases h
  {
    match h
    case Leaf(m, n, f) =>
      var f1 := if IsUntouched(f) then f.(D := DBlock(m, n, w)) else f;
      FinishWindow(Leaf(m, n, f1), w, d, dd, p, maxRank, id);
    case Inner(f, c0, c1) =>
      var ws := SplitWork(w, Rows(c0), Cols(c0));
      SplitCore(h, w);
      assert Windows(c0, ws.c.w0, d - dd) && Windows(c1, ws.c.w1, d - dd);
      var r0 := CompressRec(c0, ws.c.w0, d, dd, p, maxRank, id);
      var r1 := CompressRec(c1, ws.c.w1, d, dd, p, maxRank, id);
      CompressRecWindows(c0, ws.c.w0, d, dd, p, maxRank, id);
      CompressRecWindows(c1, ws.c.w1, d, dd, p, maxRank, id);
      JoinWindows(f, c0, c1, r0.0, r1.0, ws.(c := Kids(r0.1, r1.1)), d, dd, p, maxRank, id);
  }

  /** After HSSMatrix::reset nothing has been compressed. */
  lemma {:induction false} ResetPristine(h: Node)
    ensures Pristine(ResetNode(h))
    decreases h
  {
    if h.Inner? {
      ResetPristine(h.c0);
      ResetPristine(h.c1);
    }
  }

  lemma PartsCore(f: Fields, n0: Node, n1: Node, wk: Work)
    requires InnerParts(f, n0, n1, wk)
    ensures Core(Inner(f, n0, n1), wk)
  {
  }

  /** Each requested block is as large as its row and column lists and is filled from them. */
  ghost predicate Matching(e: Extracted)
  {
    |e.I| == e.count && |e.J| == e.count && |e.blocks| == e.count &&
    forall k :: 0 <= k < e.count ==> e.blocks[k] == Block(|e.I[k]|, |e.J[k]|, e.I[k], e.J[k])
  }

  lemma MatchingAppend(a: Extracted, b: Extracted)
    requires Matching(a) && Matching(b)
    ensures Matching(Append(a, b))
  {
    var e := Append(a, b);
    forall k | 0 <= k < e.count
      ensures e.blocks[k] == Block(|e.I[k]|, |e.J[k]|, e.I[k], e.J[k])
    {
      if k >= a.count {
        assert e.blocks[k] == b.blocks[k - a.count];
      }
    }
  }

  /**
   * Under the invariant every block get_extraction_indices requests (D
   * of a leaf, B01/B10 sized by the children's ranks) matches the index
   * lists appended with it.
   */
  lemma {:induction false} ExtractionMatching(h: Node, w: Work, offR: int, offC: int, lvl: int)
    requires Core(h, w)
    ensures Matching(Extraction(h, w, offR, offC, lvl).0)
    decreases h
  {
    match h
    case Leaf(_, _, _) =>
    case Inner(f, c0, c1) =>
      var ws := SplitWork(w, Rows(c0), Cols(c0));
      SplitCore(h, w);
      if ws.lvl < lvl {
        ExtractionMatching(c0, ws.c.w0, offR, offC, lvl);
        ExtractionMatching(c1, ws.c.w1, offR, offC, lvl);
        MatchingAppend(Extraction(c0, ws.c.w0, offR, offC, lvl).0, Extraction(c1, ws.c.w1, offR, offC, lvl).0);
      }
  }

  /** get_extraction_indices changes no state, rank or skeleton. */
  lemma {:induction false} ExtractionFollows(h: Node, w: Work, offR: int, offC: int, lvl: int)
    ensures var r := Extraction(h, w, offR, offC, lvl); Follows(h, w, r.2, r.1)
    decreases h
  {
    match h
    case Leaf(_, _, _) =>
    case Inner(f, c0, c1) =>
      var ws := SplitWork(w, Rows(c0), Cols(c0));
      if ws.lvl < lvl {
        ExtractionFollows(c0, ws.c.w0, offR, offC, lvl);
        ExtractionFollows(c1, ws.c.w1, offR, offC, lvl);
      }
  }

  /**
   * get_extraction_indices splits the work of every internal node it
   * reaches, so extract_D_B and compress_level_original at the same level
   * find the children's work in place.
   */
  lemma {:induction false} ExtractionSplits(h: Node, w: Work, offR: int, offC: int, lvl: int)
    ensures var r := Extraction(h, w, offR, offC, lvl); SplitTo(h, r.1, lvl) && SplitTo(r.2, r.1, lvl)
    decreases h
  {
    match h
    case Leaf(_, _, _) =>
    case Inner(f, c0, c1) =>
      var ws := SplitWork(w, Rows(c0), Cols(c0));
      if ws.lvl < lvl {
        ExtractionSplits(c0, ws.c.w0, offR, offC, lvl);
        ExtractionSplits(c1, ws.c.w1, offR, offC, lvl);
      }
  }

  /** The overload without blocks leaves the nodes alone, and the invariant holds of them and the split work. */
  lemma {:induction false} ExtractionWorkCore(h: Node, w: Work, offR: int, offC: int, lvl: int)
    requires Core(h, w)
    ensures Core(h, Extraction(h, w, offR, offC, lvl).1)
    decreases h
  {
    match h
    case Leaf(_, _, _) =>
    case Inner(f, c0, c1) =>
      var ws := SplitWork(w, Rows(c0), Cols(c0));
      SplitParts(f, c0, c1, w);
      if ws.lvl < lvl {
        var r0 := Extraction(c0, ws.c.w0, offR, offC, lvl);
        var r1 := Extraction(c1, ws.c.w1, offR, offC, lvl);
        ExtractionWorkCore(c0, ws.c.w0, offR, offC, lvl);
        ExtractionWorkCore(c1, ws.c.w1, offR, offC, lvl);
        ChildrenDone(f, c0, c1, w, ws, c0, r0.1, c1, r1.1);
        PartsCore(f, c0, c1, ws.(c := Kids(r0.1, r1.1)));
      } else {
        PartsCore(f, c0, c1, ws);
      }
  }

  /**
   * One level of the level-wise pass: get_extraction_indices at level lvl
   * splits the work the other two walk, extract_D_B then readies the
   * coupling blocks, and compress_level_original keeps the invariant.
   */
  lemma LevelPass(h: Node, w: Work, offR: int, offC: int, lvl: int,
                  d: int, dd: int, p: int, maxRank: int, id: IdOracle)
    requires Core(h, w) && IdSound(id)
    ensures SplitTo(h, Extraction(h, w, offR, offC, lvl).1, lvl)
    ensures var w1 := Extraction(h, w, offR, offC, lvl).1;
      var h1 := ExtractDB(h, w1, lvl);
      Core(h1, w1) && CouplingReady(h1, w1, lvl) &&
      Core(CompressLevel(h1, w1, d, dd, lvl, p, maxRank, id).0, CompressLevel(h1, w1, d, dd, lvl, p, maxRank, id).1)
  {
    var w1 := Extraction(h, w, offR, offC, lvl).1;
    ExtractionSplits(h, w, offR, offC, lvl);
    ExtractionWorkCore(h, w, offR, offC, lvl);
    ExtractDBCore(h, w1, lvl);
    ExtractDBReady(h, w1, lvl);
    CompressLevelCore(ExtractDB(h, w1, lvl), w1, d, dd, lvl, p, maxRank, id);
  }

  /** get_extraction_indices keeps the invariant. */
  lemma {:induction false} ExtractionCore(h: Node, w: Work, offR: int, offC: int, lvl: int)
    requires Core(h, w)
    ensures var r := Extraction(h, w, offR, offC, lvl); Core(r.2, r.1)
    decreases h
  {
    var r := Extraction(h, w, offR, offC, lvl);
    match h
    case Leaf(m, n, f) =>
      LeafBlockCore(m, n, f, w, r.2.f.D);
    case Inner(f, c0, c1) =>
      var ws := SplitWork(w, Rows(c0), Cols(c0));
      if ws.lvl < lvl {
        SplitCore(h, w);
        var r0 := Extraction(c0, ws.c.w0, offR, offC, lvl);
        var r1 := Extraction(c1, ws.c.w1, offR, offC, lvl);
        ExtractionCore(c0, ws.c.w0, offR, offC, lvl);
        ExtractionCore(c1, ws.c.w1, offR, offC, lvl);
        ExtractionFollows(c0, ws.c.w0, offR, offC, lvl);
        ExtractionFollows(c1, ws.c.w1, offR, offC, lvl);
        ChildrenDone(f, c0, c1, w, ws, r0.2, r0.1, r1.2, r1.1);
        PartsCore(f, r0.2, r1.2, ws.(c := Kids(r0.1, r1.1)));
      } else {
        SplitParts(f, c0, c1, w);
        PartsCore(r.2.f, c0, c1, ws);
      }
  }

  /** Allocating a leaf's D block leaves its invariant alone. */
  lemma LeafBlockCore(m: nat, n: nat, f: Fields, w: Work, x: Block)
    requires Core(Leaf(m, n, f), w)
    ensures Core(Leaf(m, n, f.(D := x)), w)
  {
  }

  /** Splitting the work of a node that satisfies Core leaves its parts fitting together. */
  lemma SplitParts(f: Fields, c0: Node, c1: Node, w: Work)
    requires Core(Inner(f, c0, c1), w)
    ensures InnerParts(f, c0, c1, SplitWork(w, Rows(c0), Cols(c0)))
  {
    SplitCore(Inner(f, c0, c1), w);
  }

  /**
   * An untouched internal node at or below level lvl that the level pass
   * will reach has coupling blocks at its children's skeleton indices.
   */
  ghost predicate CouplingReady(h: Node, w: Work, lvl: int)
    decreases h
  {
    h.Inner? ==> (w.c.Kids? &&
      (w.lvl < lvl ==> CouplingReady(h.c0, w.c.w0, lvl) && CouplingReady(h.c1, w.c.w1, lvl)) &&
      (w.lvl >= lvl && IsUntouched(h.f) ==>
        h.f.B01 == Block(h.c0.f.uRank, h.c1.f.vRank, w.c.w0.Ir, w.c.w1.Ic) &&
        h.f.B10 == Block(h.c1.f.uRank, h.c0.f.vRank, w.c.w1.Ir, w.c.w0.Ic)))
  }

  /** extract_D_B changes no state, rank or skeleton. */
  lemma {:induction false} ExtractDBFollows(h: Node, w: Work, lvl: int)
    requires SplitTo(h, w, lvl)
    ensures Follows(h, w, ExtractDB(h, w, lvl), w)
    decreases h
  {
    match h
    case Leaf(_, _, _) =>
    case Inner(f, c0, c1) =>
      if w.lvl < lvl {
        ExtractDBFollows(c0, w.c.w0, lvl);
        ExtractDBFollows(c1, w.c.w1, lvl);
      }
  }

  /** extract_D_B keeps the invariant. */
  lemma {:induction false} ExtractDBCore(h: Node, w: Work, lvl: int)
    requires Core(h, w) && SplitTo(h, w, lvl)
    ensures Core(ExtractDB(h, w, lvl), w)
    decreases h
  {
    match h
    case Leaf(m, n, f) =>
      LeafBlockCore(m, n, f, w, ExtractDB(h, w, lvl).f.D);
    case Inner(f, c0, c1) =>
      SplitParts(f, c0, c1, w);
      if w.lvl < lvl {
        var n0, n1 := ExtractDB(c0, w.c.w0, lvl), ExtractDB(c1, w.c.w1, lvl);
        ExtractDBCore(c0, w.c.w0, lvl);
        ExtractDBCore(c1, w.c.w1, lvl);
        ExtractDBFollows(c0, w.c.w0, lvl);
        ExtractDBFollows(c1, w.c.w1, lvl);
        ChildrenDone(f, c0, c1, w, w, n0, w.c.w0, n1, w.c.w1);
        PartsCore(f, n0, n1, w);
      } else {
        PartsCore(ExtractDB(h, w, lvl).f, c0, c1, w);
      }
  }

  /** extract_D_B readies the coupling blocks of the level it serves. */
  lemma {:induction false} ExtractDBReady(h: Node, w: Work, lvl: int)
    requires SplitTo(h, w, lvl)
    ensures CouplingReady(ExtractDB(h, w, lvl), w, lvl)
    decreases h
  {
    match h
    case Leaf(_, _, _) =>
    case Inner(f, c0, c1) =>
      if w.lvl < lvl {
        ExtractDBReady(c0, w.c.w0, lvl);
        ExtractDBReady(c1, w.c.w1, lvl);
      }
  }

  /**
   * compress_level_original keeps the invariant when the coupling blocks
   * of its level are ready, which extract_D_B at the same level ensures.
   */
  lemma {:induction false} CompressLevelCore(h: Node, w: Work, d: int, dd: int, lvl: int, p: int, maxRank: int, id: IdOracle)
    requires Core(h, w) && SplitTo(h, w, lvl) && CouplingReady(h, w, lvl) && IdSound(id)
    ensures var r := CompressLevel(h, w, d, dd, lvl, p, maxRank, id); Core(r.0, r.1)
    decreases h
  {
    match h
    case Leaf(_, _, _) =>
      if w.lvl >= lvl {
        FinishCore(h, w, d, dd, p, maxRank, id);
      }
    case Inner(f, c0, c1) =>
      if w.lvl < lvl {
        var r0 := CompressLevel(c0, w.c.w0, d, dd, lvl, p, maxRank, id);
        var r1 := CompressLevel(c1, w.c.w1, d, dd, lvl, p, maxRank, id);
        CompressLevelCore(c0, w.c.w0, d, dd, lvl, p, maxRank, id);
        CompressLevelCore(c1, w.c.w1, d, dd, lvl, p, maxRank, id);
        ChildrenDone(f, c0, c1, w, w, r0.0, r0.1, r1.0, r1.1);
        PartsCore(f, r0.0, r1.0, w.(c := Kids(r0.1, r1.1)));
      } else if IsCompressed(c0.f) && IsCompressed(c1.f) {
        FinishCore(h, w, d, dd, p, maxRank, id);
        var t := Finish(h, w, d, dd, p, maxRank, id);
        assert InnerParts(t.0, c0, c1, t.1);
        PartsCore(t.0, c0, c1, t.1);
      }
  }

  /** The update d_old := d; d := 2 * (d_old - p) + p moves the schedule one attempt on. */
  lemma WidthStep(d0: int, p: int, k: nat)
    ensures Width(d0, p, k + 1) == 2 * (Width(d0, p, k) - p) + p
  {
    calc {
      Width(d0, p, k + 1);
      p + d0 * (2 * Pow2(k));
      { assert d0 * (2 * Pow2(k)) == 2 * (d0 * Pow2(k)); }
      2 * (Width(d0, p, k) - p) + p;
    }
  }

  /** With d0 >= 1 the useful width d - p of every attempt is at least d0. */
  lemma WidthUseful(d0: int, p: int, k: nat)
    requires d0 >= 1
    ensures Width(d0, p, k) - p >= d0
  {
    assert d0 * Pow2(k) >= d0 * 1;
  }

  /**
   * The attempts request disjoint, consecutive sample columns: the first
   * starts at column 0, each next one where the previous ended, and
   * attempt k (k >= 1) requests d0 * 2^(k-1) new columns.
   */
  lemma AttemptsTile(d0: int, p: int, n: nat)
    ensures var a := Attempts(d0, p, n);
      (n > 0 ==> a[0].newColumns == Window(0, p + d0)) &&
      forall k :: 1 <= k < n ==>
        a[k].newColumns.start == a[k - 1].newColumns.start + a[k - 1].newColumns.count &&
        a[k].newColumns.count == d0 * Pow2(k - 1)
  {
    var a := Attempts(d0, p, n);
    forall k | 1 <= k < n
      ensures a[k].newColumns.count == d0 * Pow2(k - 1)
    {
      WidthStep(d0, p, k - 1);
    }
  }

  /** The schedule grows by one attempt at a time. */
  lemma AttemptsSnoc(d0: int, p: int, n: nat)
    ensures Attempts(d0, p, n + 1) ==
      Attempts(d0, p, n) + [Attempt(Width(d0, p, n), Window(PrevWidth(d0, p, n), Width(d0, p, n) - PrevWidth(d0, p, n)))]
  {
    assert Attempts(d0, p, n + 1)[..n] == Attempts(d0, p, n);
  }

  /** What one resumed attempt of compress_original keeps and achieves. */
  lemma ResumedAttemptFacts(h: Node, w: Work, d: int, dd: int, p: int, maxRank: int, id: IdOracle)
    requires Core(h, w) && Windows(h, w, d - dd) && IdSound(id)
    ensures var r := CompressRec(h, w, d, dd, p, maxRank, id);
      Core(r.0, r.1) && Windows(r.0, r.1, d) && Resumes(h, r.0, r.1, d) &&
      (d - p >= maxRank ==> AllCompressed(r.0))
  {
    CompressRecCore(h, w, d, dd, p, maxRank, id);
    CompressRecWindows(h, w, d, dd, p, maxRank, id);
    if d - p >= maxRank {
      WideCompressesAll(h, w, d, dd, p, maxRank, id);
    }
  }

  /**
   * The attempts so far follow the doubling schedule, and every attempt
   * before the last was narrower than the rank bound (only a failed attempt
   * is followed by another one).
   */
  ghost predicate Scheduled(log: seq<Attempt>, d0: int, p: int, maxRank: int)
  {
    log == Attempts(d0, p, |log|) && forall k :: 0 <= k < |log| - 1 ==> log[k].d - p < maxRank
  }

  /** Logging the next attempt of the schedule after a narrow one keeps the log on schedule. */
  lemma ScheduleNext(log: seq<Attempt>, next: Attempt, d0: int, p: int, maxRank: int)
    requires Scheduled(log, d0, p, maxRank) && (|log| > 0 ==> log[|log| - 1].d - p < maxRank)
    requires var n := |log|;
      next == Attempt(Width(d0, p, n), Window(PrevWidth(d0, p, n), Width(d0, p, n) - PrevWidth(d0, p, n)))
    ensures Scheduled(log + [next], d0, p, maxRank)
  {
    AttemptsSnoc(d0, p, |log|);
  }

  /**
   * The drivers' loop state before an attempt: the attempts so far are on
   * schedule, the last of them was narrow, and d and d_old are the width
   * and previous width of the next attempt.
   */
  ghost predicate Pending(log: seq<Attempt>, d: int, dOld: int, d0: int, p: int, maxRank: int)
  {
    Scheduled(log, d0, p, maxRank) && (|log| > 0 ==> log[|log| - 1].d - p < maxRank) &&
    d == Width(d0, p, |log|) && dOld == PrevWidth(d0, p, |log|)
  }

  /**
   * Logging the attempt of width d keeps the log on schedule; its useful
   * width is at least d0; and when it is narrow, d_old := d and
   * d := 2 * (d_old - p) + p give the next pending attempt.
   */
  lemma PendingStep(log: seq<Attempt>, d: int, dOld: int, d0: int, p: int, maxRank: int)
    requires Pending(log, d, dOld, d0, p, maxRank) && d0 >= 1
    ensures Scheduled(log + [Attempt(d, Window(dOld, d - dOld))], d0, p, maxRank)
    ensures d - p >= d0
    ensures d - p < maxRank ==> Pending(log + [Attempt(d, Window(dOld, d - dOld))], 2 * (d - p) + p, d, d0, p, maxRank)
  {
    WidthUseful(d0, p, |log|);
    ScheduleNext(log, Attempt(d, Window(dOld, d - dOld)), d0, p, maxRank);
    WidthStep(d0, p, |log|);
  }
}
