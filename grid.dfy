/**
  The 8x8 square grid of a Board, as pure values: where construct_squares
  places each square, the row-major order iter_squares walks, how
  add_occlusions labels the squares in that order, and how
  get_occlusion_features lines features up with labels.
*/
module Grid {
  import opened Wrappers
  import opened Collaborators

  /** A (row, column) index of the grid, each in [0, 8) once placed. */
  type Cell = (int, int)

  /** Python indexing of an 8-element list: -8 <= r < 8 is accepted, a negative r counts from the end. */
  predicate Indexable(r: int)
  {
    -8 <= r < 8
  }

  /** The list position Python's index r selects. */
  function Wrap(r: int): int
    requires Indexable(r)
  {
    if r < 0 then r + 8 else r
  }

  /**
    The cell `squares[r][c] = ...` writes for a square at location (r, c),
    or None when either index raises IndexError.
  */
  function LabelCell(lib: Library, an: Label): (c: Option<Cell>)
    ensures c.Some? ==> 0 <= c.value.0 < 8 && 0 <= c.value.1 < 8
  {
    var (r, col) := lib.locate(an);
    if Indexable(r) && Indexable(col) then Some((Wrap(r), Wrap(col))) else None
  }

  /** The grid seen as a map, read at one cell. */
  function Lookup(m: map<Cell, Square>, c: Cell): Option<Square>
  {
    if c in m then Some(m[c]) else None
  }

  /**
    The grid construct_squares builds from the labels `ls`: starting from
    an empty grid, each label's new square is written at the cell of its
    own location, a later square overwriting an earlier one at the same
    cell. None when some location is not a valid index (IndexError).
  */
  function Placement(lib: Library, image: Image, bih: Homography, ls: seq<Label>): Option<map<Cell, Square>>
    decreases |ls|
  {
    if ls == [] then Some(map[])
    else
      match (Placement(lib, image, bih, ls[..|ls| - 1]), LabelCell(lib, ls[|ls| - 1]))
      case (Some(m), Some(c)) => Some(m[c := MakeSquare(lib, image, bih, ls[|ls| - 1])])
      case _ => None
  }

  /** One more label: its square is written at its cell over the grid built so far. */
  lemma PlacementSnoc(lib: Library, image: Image, bih: Homography, ls: seq<Label>, k: nat, m: map<Cell, Square>)
    requires k < |ls| && Placement(lib, image, bih, ls[..k]) == Some(m) && LabelCell(lib, ls[k]).Some?
    ensures Placement(lib, image, bih, ls[..k + 1]) == Some(m[LabelCell(lib, ls[k]).value := MakeSquare(lib, image, bih, ls[k])])
  {
    assert ls[..k + 1][..k] == ls[..k];
  }

  /** Every label's location is a valid grid index. */
  predicate Locatable(lib: Library, ls: seq<Label>)
  {
    forall k :: 0 <= k < |ls| ==> LabelCell(lib, ls[k]).Some?
  }

  /** Some label of `ls` has its square placed at cell c. */
  predicate Covered(lib: Library, ls: seq<Label>, c: Cell)
  {
    exists k :: 0 <= k < |ls| && LabelCell(lib, ls[k]) == Some(c)
  }

  /** Construction succeeds exactly when every label's location is indexable; nothing else can fail. */
  lemma {:induction false} PlacementSucceedsIff(lib: Library, image: Image, bih: Homography, ls: seq<Label>)
    ensures Placement(lib, image, bih, ls).Some? <==> Locatable(lib, ls)
    decreases |ls|
  {
    if ls != [] {
      var init := ls[..|ls| - 1];
      PlacementSucceedsIff(lib, image, bih, init);
      assert forall k :: 0 <= k < |init| ==> init[k] == ls[k];
      if Locatable(lib, ls) {
        assert Locatable(lib, init);
      }
    }
  }

  /**
    Each placed square sits at the cell of its own location, was built
    from this image and homography for one of the labels, and carries no
    occlusion label yet.
  */
  lemma {:induction false} PlacementAtOwnCell(lib: Library, image: Image, bih: Homography, ls: seq<Label>, m: map<Cell, Square>)
    requires Placement(lib, image, bih, ls) == Some(m)
    ensures forall c :: c in m ==> 0 <= c.0 < 8 && 0 <= c.1 < 8
    ensures forall c :: c in m ==>
      m[c].an in ls && m[c] == MakeSquare(lib, image, bih, m[c].an) && LabelCell(lib, m[c].an) == Some(c)
    decreases |ls|
  {
    if ls != [] {
      var init := ls[..|ls| - 1];
      var m' := Placement(lib, image, bih, init).value;
      PlacementAtOwnCell(lib, image, bih, init, m');
      forall c | c in m' ensures m'[c].an in ls {
        assert m'[c].an in init;
      }
    }
  }

  /** A cell is filled exactly when the location of some label is that cell. */
  lemma {:induction false} PlacementKeys(lib: Library, image: Image, bih: Homography, ls: seq<Label>, m: map<Cell, Square>, c: Cell)
    requires Placement(lib, image, bih, ls) == Some(m)
    ensures c in m <==> Covered(lib, ls, c)
    decreases |ls|
  {
    if ls != [] {
      var n := |ls| - 1;
      var init := ls[..n];
      var m' := Placement(lib, image, bih, init).value;
      var c0 := LabelCell(lib, ls[n]).value;
      assert m == m'[c0 := MakeSquare(lib, image, bih, ls[n])];
      PlacementKeys(lib, image, bih, init, m', c);
      if c == c0 {
        assert LabelCell(lib, ls[n]) == Some(c);
      } else if c in m' {
        var k :| 0 <= k < |init| && LabelCell(lib, init[k]) == Some(c);
        assert LabelCell(lib, ls[k]) == Some(c);
      } else {
        assert forall k :: 0 <= k < n ==> init[k] == ls[k];
      }
    }
  }

  /**
    Last writer wins: the square at a label's cell is that label's square
    when no later label has the same cell.
  */
  lemma {:induction false} PlacementLastWriterWins(lib: Library, image: Image, bih: Homography, ls: seq<Label>, m: map<Cell, Square>, k: nat)
    requires Placement(lib, image, bih, ls) == Some(m)
    requires k < |ls| && LabelCell(lib, ls[k]).Some?
    requires forall k' :: k < k' < |ls| ==> LabelCell(lib, ls[k']) != LabelCell(lib, ls[k])
    ensures LabelCell(lib, ls[k]).value in m
    ensures m[LabelCell(lib, ls[k]).value] == MakeSquare(lib, image, bih, ls[k])
    decreases |ls|
  {
    var n := |ls| - 1;
    var init := ls[..n];
    var m' := Placement(lib, image, bih, init).value;
    var c0 := LabelCell(lib, ls[n]).value;
    assert m == m'[c0 := MakeSquare(lib, image, bih, ls[n])];
    if k < n {
      assert init[k] == ls[k];
      assert forall k' :: k < k' < |init| ==> init[k'] == ls[k'];
      PlacementLastWriterWins(lib, image, bih, init, m', k);
    }
  }

  /** When every cell is the location of some label (a bijection onto the board), all 64 cells are filled. */
  lemma PlacementFillsGrid(lib: Library, image: Image, bih: Homography, ls: seq<Label>, m: map<Cell, Square>)
    requires Placement(lib, image, bih, ls) == Some(m)
    requires forall i, j :: 0 <= i < 8 && 0 <= j < 8 ==> Covered(lib, ls, (i, j))
    ensures forall i, j :: 0 <= i < 8 && 0 <= j < 8 ==> (i, j) in m
  {
    forall i, j | 0 <= i < 8 && 0 <= j < 8 ensures (i, j) in m {
      PlacementKeys(lib, image, bih, ls, m, (i, j));
    }
  }

  /** When no two labels share a cell, no square is overwritten: every label's square is in the grid. */
  lemma PlacementKeepsEveryLabel(lib: Library, image: Image, bih: Homography, ls: seq<Label>, m: map<Cell, Square>)
    requires Placement(lib, image, bih, ls) == Some(m)
    requires forall k, k' :: 0 <= k < k' < |ls| ==> LabelCell(lib, ls[k]) != LabelCell(lib, ls[k'])
    ensures forall k :: 0 <= k < |ls| ==>
      LabelCell(lib, ls[k]).Some? && LabelCell(lib, ls[k]).value in m &&
      m[LabelCell(lib, ls[k]).value] == MakeSquare(lib, image, bih, ls[k])
  {
    PlacementSucceedsIff(lib, image, bih, ls);
    forall k | 0 <= k < |ls|
      ensures LabelCell(lib, ls[k]).Some? && LabelCell(lib, ls[k]).value in m &&
              m[LabelCell(lib, ls[k]).value] == MakeSquare(lib, image, bih, ls[k])
    {
      PlacementLastWriterWins(lib, image, bih, ls, m, k);
    }
  }

  // ---------------------------------------------------------------------
  // Row-major traversal and occlusion labelling
  // ---------------------------------------------------------------------

  /**
    add_occlusions can label the p-th square in row-major order: the square
    exists (else AttributeError on None) and the occlusion grid has row
    p / 8 and, in it, token p % 8 (else IndexError).
  */
  predicate Fits(cells: seq<Option<Square>>, occ: seq<seq<string>>, p: nat)
    requires p < |cells|
  {
    cells[p].Some? && p / 8 < |occ| && p % 8 < |occ[p / 8]|
  }

  /** Position 8 * i + j is square (i, j) and token occ[i][j]. */
  lemma FitsAt(cells: seq<Option<Square>>, occ: seq<seq<string>>, i: nat, j: nat)
    requires j < 8 && 8 * i + j < |cells|
    ensures Fits(cells, occ, 8 * i + j) <==> cells[8 * i + j].Some? && i < |occ| && j < |occ[i]|
    ensures Fits(cells, occ, 8 * i + j) ==>
      Occluded(cells, occ, 8 * i + j) == Some(AddOcclusion(cells[8 * i + j].value, occ[i][j]))
  {
    assert (8 * i + j) / 8 == i && (8 * i + j) % 8 == j;
  }

  /** The first position at or after p that cannot be labelled, or |cells| if there is none. */
  function FaultFrom(cells: seq<Option<Square>>, occ: seq<seq<string>>, p: nat): (k: nat)
    requires p <= |cells|
    ensures p <= k <= |cells|
    decreases |cells| - p
  {
    if p == |cells| || !Fits(cells, occ, p) then p else FaultFrom(cells, occ, p + 1)
  }

  /** Every position before the stopping position fits, and the stopping position (if any) does not. */
  lemma {:induction false} FaultFromSpec(cells: seq<Option<Square>>, occ: seq<seq<string>>, p: nat)
    requires p <= |cells|
    ensures forall q :: p <= q < FaultFrom(cells, occ, p) ==> Fits(cells, occ, q)
    ensures FaultFrom(cells, occ, p) < |cells| ==> !Fits(cells, occ, FaultFrom(cells, occ, p))
    decreases |cells| - p
  {
    if p < |cells| && Fits(cells, occ, p) {
      FaultFromSpec(cells, occ, p + 1);
    }
  }

  /** The position at which add_occlusions stops, |cells| when it runs to the end. */
  function FirstFault(cells: seq<Option<Square>>, occ: seq<seq<string>>): nat
    requires |cells| == 64
  {
    FaultFrom(cells, occ, 0)
  }

  /** The stopping position is pinned down by the positions before it fitting and it not fitting. */
  lemma {:induction false} FaultFromIs(cells: seq<Option<Square>>, occ: seq<seq<string>>, p: nat, k: nat)
    requires p <= k <= |cells|
    requires forall q :: p <= q < k ==> Fits(cells, occ, q)
    requires k < |cells| ==> !Fits(cells, occ, k)
    ensures FaultFrom(cells, occ, p) == k
    decreases k - p
  {
    if p < k {
      FaultFromIs(cells, occ, p + 1, k);
    }
  }

  /** Labelling a square does not change whether a position fits, so the stopping position is unchanged. */
  lemma {:induction false} FaultFromIgnoresLabels(cells: seq<Option<Square>>, cells': seq<Option<Square>>, occ: seq<seq<string>>, p: nat)
    requires |cells| == |cells'| && p <= |cells|
    requires forall q :: 0 <= q < |cells| ==> (cells[q].Some? <==> cells'[q].Some?)
    ensures FaultFrom(cells, occ, p) == FaultFrom(cells', occ, p)
    decreases |cells| - p
  {
    if p < |cells| && Fits(cells, occ, p) {
      FaultFromIgnoresLabels(cells, cells', occ, p + 1);
    }
  }

  /** The p-th square in row-major order with its occlusion token added. */
  function Occluded(cells: seq<Option<Square>>, occ: seq<seq<string>>, p: nat): Option<Square>
    requires p < |cells| && Fits(cells, occ, p)
  {
    Some(AddOcclusion(cells[p].value, occ[p / 8][p % 8]))
  }

  /** The nested loop of add_occlusions from row-major position p on, over the cells as a sequence. */
  function OccludeFrom(cells: seq<Option<Square>>, occ: seq<seq<string>>, p: nat): (after: seq<Option<Square>>)
    requires p <= |cells|
    ensures |after| == |cells|
    decreases |cells| - p
  {
    if p == |cells| || !Fits(cells, occ, p) then cells
    else OccludeFrom(cells[p := Occluded(cells, occ, p)], occ, p + 1)
  }

  /**
    From position p on, add_occlusions gives each square up to the
    stopping position its token and leaves every other cell as it was.
  */
  lemma {:induction false} OccludeFromSpec(cells: seq<Option<Square>>, occ: seq<seq<string>>, p: nat)
    requires p <= |cells|
    ensures forall q :: p <= q < FaultFrom(cells, occ, p) ==> Fits(cells, occ, q)
    ensures forall q :: 0 <= q < |cells| ==>
      OccludeFrom(cells, occ, p)[q] ==
        if p <= q < FaultFrom(cells, occ, p) then Occluded(cells, occ, q) else cells[q]
    decreases |cells| - p
  {
    FaultFromSpec(cells, occ, p);
    if p < |cells| && Fits(cells, occ, p) {
      var cells' := cells[p := Occluded(cells, occ, p)];
      var stop := FaultFrom(cells, occ, p);
      var after := OccludeFrom(cells, occ, p);
      assert after == OccludeFrom(cells', occ, p + 1);
      FaultFromIgnoresLabels(cells, cells', occ, p + 1);
      OccludeFromSpec(cells', occ, p + 1);
      forall q | 0 <= q < |cells|
        ensures after[q] == if p <= q < stop then Occluded(cells, occ, q) else cells[q]
      {
        if p < q < stop {
          assert Fits(cells, occ, q);
          assert Occluded(cells', occ, q) == Occluded(cells, occ, q);
        }
      }
    }
  }

  /**
    add_occlusions part way through: the cells `cur` agree with `before`
    from position n on, and continuing from n on `cur` stops and ends
    where running from the start on `before` does.
  */
  ghost predicate Pending(before: seq<Option<Square>>, occ: seq<seq<string>>, cur: seq<Option<Square>>, n: nat)
  {
    && |before| == 64 && |cur| == 64 && n <= 64
    && (forall q :: n <= q < 64 ==> cur[q] == before[q])
    && FaultFrom(cur, occ, n) == FaultFrom(before, occ, 0)
    && OccludeFrom(cur, occ, n) == OccludeFrom(before, occ, 0)
  }

  /** Nothing is labelled yet. */
  lemma PendingStart(before: seq<Option<Square>>, occ: seq<seq<string>>)
    requires |before| == 64
    ensures Pending(before, occ, before, 0)
  {
  }

  /** Labelling the fitting position n moves the run on to n + 1. */
  lemma PendingStep(before: seq<Option<Square>>, occ: seq<seq<string>>, cur: seq<Option<Square>>, n: nat)
    requires Pending(before, occ, cur, n) && n < 64 && Fits(cur, occ, n)
    ensures Pending(before, occ, cur[n := Occluded(cur, occ, n)], n + 1)
  {
    FaultFromIgnoresLabels(cur, cur[n := Occluded(cur, occ, n)], occ, n + 1);
  }

  /** Where the run stops, it has stopped at the first fault and produced its result. */
  lemma PendingStop(before: seq<Option<Square>>, occ: seq<seq<string>>, cur: seq<Option<Square>>, n: nat)
    requires Pending(before, occ, cur, n) && (n < 64 ==> !Fits(cur, occ, n))
    ensures FirstFault(before, occ) == n
    ensures ApplyOcclusions(before, occ) == cur
  {
  }

  /** The 64 cells after add_occlusions, including the squares it labelled before raising. */
  function ApplyOcclusions(cells: seq<Option<Square>>, occ: seq<seq<string>>): seq<Option<Square>>
    requires |cells| == 64
  {
    OccludeFrom(cells, occ, 0)
  }

  /** Labelling changes only occlusion labels: which cells hold squares, and their geometry, stay put. */
  lemma OcclusionsKeepGeometry(cells: seq<Option<Square>>, occ: seq<seq<string>>)
    requires |cells| == 64
    ensures |ApplyOcclusions(cells, occ)| == 64
    ensures forall p :: 0 <= p < 64 ==> Unlabelled(ApplyOcclusions(cells, occ)[p]) == Unlabelled(cells[p])
  {
    var after := ApplyOcclusions(cells, occ);
    OccludeFromSpec(cells, occ, 0);
    forall p | 0 <= p < 64 ensures Unlabelled(after[p]) == Unlabelled(cells[p]) {
      if p < FirstFault(cells, occ) {
        assert Fits(cells, occ, p);
      }
    }
  }

  /**
    Adding the same occlusion grid twice stops at the same position and
    leaves the same cells as adding it once.
  */
  lemma OcclusionsIdempotent(cells: seq<Option<Square>>, occ: seq<seq<string>>)
    requires |cells| == 64
    ensures FirstFault(ApplyOcclusions(cells, occ), occ) == FirstFault(cells, occ)
    ensures ApplyOcclusions(ApplyOcclusions(cells, occ), occ) == ApplyOcclusions(cells, occ)
  {
    var once := ApplyOcclusions(cells, occ);
    OcclusionsKeepGeometry(cells, occ);
    assert forall q :: 0 <= q < 64 ==> (Unlabelled(once[q]).Some? <==> once[q].Some?);
    FaultFromIgnoresLabels(cells, once, occ, 0);
    var twice := ApplyOcclusions(once, occ);
    OccludeFromSpec(cells, occ, 0);
    OccludeFromSpec(once, occ, 0);
    assert |twice| == |once|;
    forall p | 0 <= p < 64 ensures twice[p] == once[p] {
    }
  }

  /**
    With a square in every cell and an 8x8 grid of "clear" tokens, every
    square ends up labelled "clear".
  */
  lemma AllClear(cells: seq<Option<Square>>, occ: seq<seq<string>>)
    requires |cells| == 64 && forall p :: 0 <= p < 64 ==> cells[p].Some?
    requires |occ| == 8 && forall i :: 0 <= i < 8 ==> occ[i] == ["clear", "clear", "clear", "clear", "clear", "clear", "clear", "clear"]
    ensures FirstFault(cells, occ) == 64
    ensures forall p :: 0 <= p < 64 ==> ApplyOcclusions(cells, occ)[p].Some? && ApplyOcclusions(cells, occ)[p].value.occlusion == Some("clear")
  {
    FaultFromIs(cells, occ, 0, 64);
    OccludeFromSpec(cells, occ, 0);
  }

  /**
    A 7-row occlusion grid on a full board stops at the first square of
    the eighth row, after labelling the 56 squares before it.
  */
  lemma SevenRowsStopAtEighthRow(cells: seq<Option<Square>>, occ: seq<seq<string>>)
    requires |cells| == 64 && forall p :: 0 <= p < 64 ==> cells[p].Some?
    requires |occ| == 7 && forall i :: 0 <= i < 7 ==> |occ[i]| == 8
    ensures FirstFault(cells, occ) == 56
    ensures forall p :: 0 <= p < 56 ==> ApplyOcclusions(cells, occ)[p] == Some(AddOcclusion(cells[p].value, occ[p / 8][p % 8]))
    ensures forall p :: 56 <= p < 64 ==> ApplyOcclusions(cells, occ)[p] == cells[p]
  {
    FaultFromIs(cells, occ, 0, 56);
    OccludeFromSpec(cells, occ, 0);
  }

  // ---------------------------------------------------------------------
  // Feature and label assembly
  // ---------------------------------------------------------------------

  /** [s.get_occlusion_features() for s in cells]: None when some cell holds no square. */
  function FeaturesOf(cells: seq<Option<Square>>): (r: Option<seq<FeatureVector>>)
    ensures r.Some? <==> forall p :: 0 <= p < |cells| ==> cells[p].Some?
    ensures r.Some? ==> |r.value| == |cells|
    ensures r.Some? ==> forall p :: 0 <= p < |cells| ==> r.value[p] == cells[p].value.features
  {
    if cells == [] then Some([])
    else if cells[0].None? then None
    else
      match FeaturesOf(cells[1..])
      case None => None
      case Some(rest) => Some([cells[0].value.features] + rest)
  }

  /** [s.occlusion for s in cells]: None when some cell holds no square. */
  function OcclusionsOf(cells: seq<Option<Square>>): (r: Option<seq<Option<string>>>)
    ensures r.Some? <==> forall p :: 0 <= p < |cells| ==> cells[p].Some?
    ensures r.Some? ==> |r.value| == |cells|
    ensures r.Some? ==> forall p :: 0 <= p < |cells| ==> r.value[p] == cells[p].value.occlusion
  {
    if cells == [] then Some([])
    else if cells[0].None? then None
    else
      match OcclusionsOf(cells[1..])
      case None => None
      case Some(rest) => Some([cells[0].value.occlusion] + rest)
  }
}
