/**
  The Board aggregate of Board.py: a photograph of a chessboard, the
  board-image homography (BIH), the point correspondences it was
  estimated from, and the 8x8 grid of squares derived from both.
*/
module Boards {
  import opened Wrappers
  import opened Collaborators
  import opened Grid

  /** The exceptions the Board's operations raise. */
  datatype BoardError =
    | MissingArguments    // StandardError: neither a filename, an image and BIH, nor all point data
    | LengthMismatch      // AssertionError: the parallel point/descriptor sequences differ in length
    | MissingDescriptors  // TypeError: len(None) on absent descriptors
    | EstimationFailed    // the homography estimator raised on the correspondences
    | SquareOutOfGrid     // IndexError: a square's location is not an index of the 8x8 grid
    | NoSuchFile          // IOError: the saved board's file does not exist
    | EmptyCell           // AttributeError: a grid cell holds None instead of a square
    | OcclusionsTooSmall  // IndexError: the occlusion grid lacks a row or a token

  /** The record save writes and load reads back. */
  datatype SavedRecord = SavedRecord(
    name: string,
    image: Image,
    boardPoints: Option<seq<Point>>,
    imagePoints: Option<seq<Point>>,
    siftDesc: Option<seq<Descriptor>>)

  /** Python truthiness of an optional string: present and non-empty. */
  predicate Truthy(s: Option<string>)
  {
    s.Some? && s.value != ""
  }

  /** A falsy name is replaced by the current time as a string; a truthy one is kept. */
  function ChooseName(name: Option<string>, now: string): (n: string)
    ensures Truthy(name) ==> n == name.value
    ensures name == None || name == Some("") ==> n == now
    ensures now != "" ==> n != ""
  {
    if Truthy(name) then name.value else now
  }

  /** get_BIH on possibly absent point lists; the estimator raises on absent points. */
  function Estimate(lib: Library, boardPoints: Option<seq<Point>>, imagePoints: Option<seq<Point>>): Option<Homography>
  {
    if boardPoints.Some? && imagePoints.Some? then lib.estimate(boardPoints.value, imagePoints.value) else None
  }

  /** What construct_from_points raises, in the order its checks run, or Pass. */
  function PointsVerdict(lib: Library, bp: seq<Point>, ip: seq<Point>, sd: Option<seq<Descriptor>>): Outcome<BoardError>
  {
    if |bp| != |ip| then Fail(LengthMismatch)
    else if sd.None? then Fail(MissingDescriptors)
    else if |bp| != |sd.value| then Fail(LengthMismatch)
    else if lib.estimate(bp, ip).None? then Fail(EstimationFailed)
    else SquaresVerdict(lib)
  }

  /** What construct_squares raises, or Pass: the last step of every way of building a board. */
  function SquaresVerdict(lib: Library): Outcome<BoardError>
  {
    if Locatable(lib, lib.notations) then Pass else Fail(SquareOutOfGrid)
  }

  /** What load raises, in the order its steps run, or Pass. */
  function LoadVerdict(lib: Library, disk: map<string, SavedRecord>, filename: string): Outcome<BoardError>
  {
    if filename !in disk then Fail(NoSuchFile)
    else if Estimate(lib, disk[filename].boardPoints, disk[filename].imagePoints).None? then Fail(EstimationFailed)
    else SquaresVerdict(lib)
  }

  /** What add_occlusions raises at the position where it stops, or Pass. */
  function OcclusionVerdict(cells: seq<Option<Square>>, occ: seq<seq<string>>): Outcome<BoardError>
    requires |cells| == 64
  {
    var k := FirstFault(cells, occ);
    if k == 64 then Pass
    else if cells[k].None? then Fail(EmptyCell)
    else Fail(OcclusionsTooSmall)
  }

  class Board {
    /** The collaborators this board computes with. */
    const lib: Library

    var name: string
    var image: Image
    var bih: Homography
    var boardPoints: Option<seq<Point>>
    var imagePoints: Option<seq<Point>>
    var siftDesc: Option<seq<Descriptor>>
    var squares: array2<Option<Square>>

    /** The grid is 8x8. */
    ghost predicate Shape()
      reads this
    {
      squares.Length0 == 8 && squares.Length1 == 8
    }

    /** The grid holds exactly the squares of m, occlusion labels included. */
    ghost predicate GridIs(m: map<Cell, Square>)
      reads this, squares
      requires Shape()
    {
      forall i, j :: 0 <= i < 8 && 0 <= j < 8 ==> squares[i, j] == Lookup(m, (i, j))
    }

    /**
      What construct_squares leaves when it raises IndexError: a label k
      whose location is not an index, with the grid holding exactly the
      placement of the labels before it.
    */
    ghost predicate PlacedUpToFault()
      reads this, squares
      requires Shape()
    {
      exists k :: 0 <= k < |lib.notations| && LabelCell(lib, lib.notations[k]).None? &&
        Placement(lib, image, bih, lib.notations[..k]).Some? &&
        GridIs(Placement(lib, image, bih, lib.notations[..k]).value)
    }

    /**
      A fully constructed board: the grid is the placement of the
      algebraic-notation squares built from the current image and BIH (up
      to occlusion labels), and when points are retained the BIH is the
      estimate from exactly those points, so no square comes from a stale
      transform.
    */
    ghost predicate Valid()
      reads this, squares
    {
      && Shape()
      && Placement(lib, image, bih, lib.notations).Some?
      && (forall i, j :: 0 <= i < 8 && 0 <= j < 8 ==>
            Unlabelled(squares[i, j]) == Lookup(Placement(lib, image, bih, lib.notations).value, (i, j)))
      && (boardPoints.Some? && imagePoints.Some? ==> Estimate(lib, boardPoints, imagePoints) == Some(bih))
    }

    /** The state construct_from_points leaves on success. */
    ghost predicate BuiltFromPoints(name: Option<string>, image: Image, bp: seq<Point>, ip: seq<Point>, sd: Option<seq<Descriptor>>, now: string)
      reads this, squares
    {
      && Valid()
      && this.name == ChooseName(name, now)
      && this.image == image
      && boardPoints == Some(bp) && imagePoints == Some(ip) && siftDesc == sd
      && lib.estimate(bp, ip) == Some(bih)
      && GridIs(Placement(lib, image, bih, lib.notations).value)
    }

    /** The state construct_from_BIH leaves on success. */
    ghost predicate BuiltFromBIH(name: Option<string>, image: Image, bih: Homography, now: string)
      reads this, squares
    {
      && Valid()
      && this.name == ChooseName(name, now)
      && this.image == image && this.bih == bih
      && boardPoints.None? && imagePoints.None? && siftDesc.None?
      && GridIs(Placement(lib, image, bih, lib.notations).value)
    }

    /** The state load leaves on success: the five saved fields verbatim, the BIH and grid recomputed. */
    ghost predicate Loaded(rec: SavedRecord)
      reads this, squares
    {
      && Valid()
      && name == rec.name && image == rec.image
      && boardPoints == rec.boardPoints && imagePoints == rec.imagePoints && siftDesc == rec.siftDesc
      && Estimate(lib, rec.boardPoints, rec.imagePoints) == Some(bih)
      && GridIs(Placement(lib, image, bih, lib.notations).value)
    }

    /** The object before __init__ runs: no points and an empty 8x8 grid. */
    constructor (lib: Library)
      ensures this.lib == lib && Shape() && fresh(squares)
      ensures boardPoints.None? && imagePoints.None? && siftDesc.None?
      ensures forall i, j :: 0 <= i < 8 && 0 <= j < 8 ==> squares[i, j].None?
    {
      this.lib := lib;
      name := "";
      image := Image([]);
      bih := Homography([]);
      boardPoints, imagePoints, siftDesc := None, None, None;
      squares := new Option<Square>[8, 8]((i, j) => None);
    }

    /**
      __init__: a truthy filename loads a saved board; otherwise an image
      and a BIH together select construct_from_BIH; otherwise name, image,
      board points and image points must all be present for
      construct_from_points.
    */
    method Init(name: Option<string>, image: Option<Image>, bih: Option<Homography>,
                bp: Option<seq<Point>>, ip: Option<seq<Point>>, sd: Option<seq<Descriptor>>,
                filename: Option<string>, disk: map<string, SavedRecord>, now: string)
      returns (r: Outcome<BoardError>)
      modifies this
      ensures Truthy(filename) ==>
        r == LoadVerdict(lib, disk, filename.value) && (r.Pass? ==> Loaded(disk[filename.value]))
      ensures !Truthy(filename) && image.Some? && bih.Some? ==>
        r == SquaresVerdict(lib) && (r.Pass? ==> BuiltFromBIH(name, image.value, bih.value, now))
      ensures !Truthy(filename) && !(image.Some? && bih.Some?) &&
              (name.None? || image.None? || bp.None? || ip.None?) ==>
        r == Fail(MissingArguments) && unchanged(this)
      ensures !Truthy(filename) && !(image.Some? && bih.Some?) &&
              name.Some? && image.Some? && bp.Some? && ip.Some? ==>
        r == PointsVerdict(lib, bp.value, ip.value, sd) &&
        (r.Pass? ==> BuiltFromPoints(name, image.value, bp.value, ip.value, sd, now))
    {
      if Truthy(filename) {
        r := Load(disk, filename.value);
      } else if image.Some? && bih.Some? {
        r := ConstructFromBIH(name, image.value, bih.value, now);
      } else if name.None? || image.None? || bp.None? || ip.None? {
        r := Fail(MissingArguments);
      } else {
        r := ConstructFromPoints(name, image.value, bp.value, ip.value, sd, now);
      }
    }

    /**
      construct_from_points: names the board, stores the image, checks the
      three parallel sequences have one length, stores them, estimates the
      BIH from the board and image points, and builds the squares.
    */
    method ConstructFromPoints(name: Option<string>, image: Image, bp: seq<Point>, ip: seq<Point>,
                               sd: Option<seq<Descriptor>>, now: string)
      returns (r: Outcome<BoardError>)
      modifies this
      ensures r == PointsVerdict(lib, bp, ip, sd)
      ensures r == Fail(EstimationFailed) ==> bih == old(bih) && squares == old(squares)
      ensures r == Fail(SquareOutOfGrid) ==>
        lib.estimate(bp, ip) == Some(bih) && fresh(squares) && Shape() && PlacedUpToFault()
      ensures r.Pass? ==> BuiltFromPoints(name, image, bp, ip, sd, now)
    {
      this.name := ChooseName(name, now);
      this.image := image;
      if |bp| != |ip| {
        return Fail(LengthMismatch);
      }
      if sd.None? {
        return Fail(MissingDescriptors);
      }
      if |bp| != |sd.value| {
        return Fail(LengthMismatch);
      }
      boardPoints, imagePoints, siftDesc := Some(bp), Some(ip), sd;
      r := GetBIH();
      if r.Fail? {
        return;
      }
      r := ConstructSquares();
      if r.Pass? {
        ConstructedIsValid();
      }
    }

    /**
      construct_from_BIH: names the board, stores the BIH and image, builds
      the squares, and drops every point sequence.
    */
    method ConstructFromBIH(name: Option<string>, image: Image, bih: Homography, now: string)
      returns (r: Outcome<BoardError>)
      modifies this
      ensures r == SquaresVerdict(lib)
      ensures r.Fail? ==>
        this.bih == bih && this.image == image && fresh(squares) && Shape() && PlacedUpToFault()
      ensures r.Pass? ==> BuiltFromBIH(name, image, bih, now)
    {
      this.name := ChooseName(name, now);
      this.bih := bih;
      this.image := image;
      r := ConstructSquares();
      if r.Fail? {
        return;
      }
      boardPoints, imagePoints, siftDesc := None, None, None;
      ConstructedIsValid();
    }

    /** save: the five persisted fields; the BIH and the squares are not saved. */
    function Save(): (rec: SavedRecord)
      reads this, squares
      ensures Valid() && boardPoints.Some? && imagePoints.Some? ==>
        Estimate(lib, rec.boardPoints, rec.imagePoints) == Some(bih)
      ensures boardPoints.None? ==> Estimate(lib, rec.boardPoints, rec.imagePoints).None?
    {
      SavedRecord(name, image, boardPoints, imagePoints, siftDesc)
    }

    /**
      Saving a valid board and loading the file back fails exactly when the
      board kept no points (it was built from a BIH): then the estimator has
      nothing to work from.
    */
    lemma SaveThenLoadVerdict(disk: map<string, SavedRecord>, filename: string)
      requires Valid()
      ensures LoadVerdict(lib, disk[filename := Save()], filename) ==
        if boardPoints.Some? && imagePoints.Some? then Pass else Fail(EstimationFailed)
    {
      PlacementSucceedsIff(lib, image, bih, lib.notations);
    }

    /**
      A board loaded from the record of a valid board has the same BIH and
      the same squares, with their occlusion labels dropped.
    */
    lemma LoadRestoresSaved(saved: Board)
      requires saved.Valid() && saved.lib == lib && Loaded(saved.Save())
      ensures bih == saved.bih
      ensures forall i, j :: 0 <= i < 8 && 0 <= j < 8 ==> squares[i, j] == Unlabelled(saved.squares[i, j])
    {
      var m := Placement(lib, image, bih, lib.notations).value;
      PlacementAtOwnCell(lib, image, bih, lib.notations, m);
      forall i, j | 0 <= i < 8 && 0 <= j < 8 ensures squares[i, j] == Unlabelled(saved.squares[i, j]) {
        assert Unlabelled(Lookup(m, (i, j))) == Lookup(m, (i, j));
      }
    }

    /**
      load: reads the record saved under filename, restores its five fields
      verbatim, then recomputes the BIH from the restored points and
      rebuilds the squares. A missing file changes nothing.
    */
    method Load(disk: map<string, SavedRecord>, filename: string) returns (r: Outcome<BoardError>)
      modifies this
      ensures r == LoadVerdict(lib, disk, filename)
      ensures filename !in disk ==> unchanged(this)
      ensures filename in disk ==>
        var rec := disk[filename];
        name == rec.name && image == rec.image &&
        boardPoints == rec.boardPoints && imagePoints == rec.imagePoints && siftDesc == rec.siftDesc
      ensures r == Fail(EstimationFailed) ==> bih == old(bih) && squares == old(squares)
      ensures r == Fail(SquareOutOfGrid) ==>
        Estimate(lib, boardPoints, imagePoints) == Some(bih) && fresh(squares) && Shape() && PlacedUpToFault()
      ensures r.Pass? ==> Loaded(disk[filename])
    {
      if filename !in disk {
        return Fail(NoSuchFile);
      }
      var rec := disk[filename];
      name, image := rec.name, rec.image;
      boardPoints, imagePoints, siftDesc := rec.boardPoints, rec.imagePoints, rec.siftDesc;
      r := GetBIH();
      if r.Fail? {
        return;
      }
      r := ConstructSquares();
      if r.Pass? {
        ConstructedIsValid();
      }
    }

    /** get_BIH: the homography estimated from the board and image points. */
    method GetBIH() returns (r: Outcome<BoardError>)
      modifies this`bih
      ensures r.Pass? <==> Estimate(lib, boardPoints, imagePoints).Some?
      ensures r.Pass? ==> Some(bih) == Estimate(lib, boardPoints, imagePoints)
      ensures r.Fail? ==> r.error == EstimationFailed && bih == old(bih)
    {
      match Estimate(lib, boardPoints, imagePoints)
      case None =>
        r := Fail(EstimationFailed);
      case Some(h) =>
        bih := h;
        r := Pass;
    }

    /**
      construct_squares: a fresh 8x8 grid of None, then for every
      algebraic notation a new square written at the cell of its own
      location, later squares overwriting earlier ones.
    */
    method ConstructSquares() returns (r: Outcome<BoardError>)
      modifies this`squares
      ensures fresh(squares) && Shape()
      ensures r == SquaresVerdict(lib)
      ensures r.Pass? ==> Placement(lib, image, bih, lib.notations).Some? &&
                          GridIs(Placement(lib, image, bih, lib.notations).value)
      ensures r.Fail? ==> PlacedUpToFault()
    {
      var ls := lib.notations;
      squares := new Option<Square>[8, 8]((i, j) => None);
      ghost var m: map<Cell, Square> := map[];
      var k := 0;
      while k < |ls|
        invariant 0 <= k <= |ls|
        invariant fresh(squares) && Shape()
        invariant Placement(lib, image, bih, ls[..k]) == Some(m)
        invariant GridIs(m)
      {
        var sq := MakeSquare(lib, image, bih, ls[k]);
        var cell := LabelCell(lib, ls[k]);
        if cell.None? {
          PlacementSucceedsIff(lib, image, bih, ls);
          assert LabelCell(lib, ls[k]).None? && Placement(lib, image, bih, ls[..k]) == Some(m) && GridIs(m);
          return Fail(SquareOutOfGrid);
        }
        PlacementSnoc(lib, image, bih, ls, k, m);
        squares[cell.value.0, cell.value.1] := Some(sq);
        m := m[cell.value := sq];
        k := k + 1;
      }
      assert ls[..k] == ls;
      PlacementSucceedsIff(lib, image, bih, ls);
      r := Pass;
    }

    /** A grid that is exactly a fresh placement, with the BIH estimated from any retained points, is valid. */
    lemma ConstructedIsValid()
      requires Shape()
      requires Placement(lib, image, bih, lib.notations).Some?
      requires GridIs(Placement(lib, image, bih, lib.notations).value)
      requires boardPoints.Some? && imagePoints.Some? ==> Estimate(lib, boardPoints, imagePoints) == Some(bih)
      ensures Valid()
    {
      var m := Placement(lib, image, bih, lib.notations).value;
      PlacementAtOwnCell(lib, image, bih, lib.notations, m);
    }

    /**
      add_occlusions on an already parsed occlusion grid: walks the cells
      row by row and gives square (i, j) the token occ[i][j], stopping at
      the first empty cell or missing token.
    */
    method AddOcclusions(occ: seq<seq<string>>) returns (r: Outcome<BoardError>)
      requires Shape()
      modifies squares
      ensures r == OcclusionVerdict(old(IterSquares()), occ)
      ensures IterSquares() == ApplyOcclusions(old(IterSquares()), occ)
      ensures old(Valid()) ==> Valid()
    {
      ghost var before := IterSquares();
      ghost var wasValid := Valid();
      // cur is the row-major view of the grid as the loops update it; stop is where they end
      ghost var cur := before;
      ghost var stop := 64;
      PendingStart(before, occ);
      r := Pass;
      var i := 0;
      while i < 8
        invariant 0 <= i <= 8 && stop == 64 && r == Pass
        invariant Tracks(cur) && Pending(before, occ, cur, 8 * i)
      {
        r, cur, stop := OccludeRow(occ, i, before, cur);
        if r.Fail? {
          break;
        }
        i := i + 1;
      }
      PendingStop(before, occ, cur, stop);
      RowMajorIs(cur);
      OcclusionsKeepGeometry(before, occ);
      if wasValid {
        ValidAfterLabelling(before);
      }
    }

    /** The grid, read row by row, is `cells`. */
    ghost predicate Tracks(cells: seq<Option<Square>>)
      reads this, squares
    {
      && Shape() && |cells| == 64
      && forall a, b :: 0 <= a < 8 && 0 <= b < 8 ==> squares[a, b] == cells[8 * a + b]
    }

    /**
      The inner loop of add_occlusions for row i: labels squares (i, 0) to
      (i, 7) in turn, stopping at an empty cell or a missing token.
    */
    method OccludeRow(occ: seq<seq<string>>, i: nat, ghost before: seq<Option<Square>>, ghost cur: seq<Option<Square>>)
      returns (r: Outcome<BoardError>, ghost cur': seq<Option<Square>>, ghost stop: nat)
      requires i < 8 && Tracks(cur) && Pending(before, occ, cur, 8 * i)
      modifies squares
      ensures Tracks(cur')
      ensures r.Pass? ==> stop == 64 && Pending(before, occ, cur', 8 * i + 8)
      ensures r.Fail? ==> stop < 64 && Pending(before, occ, cur', stop) && !Fits(cur', occ, stop)
      ensures r.Fail? ==> r == if before[stop].None? then Fail(EmptyCell) else Fail(OcclusionsTooSmall)
    {
      cur', stop := cur, 64;
      var j := 0;
      while j < 8
        invariant 0 <= j <= 8
        invariant Tracks(cur') && Pending(before, occ, cur', 8 * i + j)
      {
        ghost var n := 8 * i + j;
        FitsAt(cur', occ, i, j);
        if squares[i, j].None? || i >= |occ| || j >= |occ[i]| {
          r := if squares[i, j].None? then Fail(EmptyCell) else Fail(OcclusionsTooSmall);
          stop := n;
          return;
        }
        PendingStep(before, occ, cur', n);
        squares[i, j] := Some(AddOcclusion(squares[i, j].value, occ[i][j]));
        cur' := cur'[n := Occluded(cur', occ, n)];
        forall a, b | 0 <= a < 8 && 0 <= b < 8 ensures squares[a, b] == cur'[8 * a + b] {
          if a != i || b != j {
            RowMajorDistinct(a, b, i, j);
          }
        }
        j := j + 1;
      }
      r := Pass;
    }

    /**
      Labelling squares keeps a board valid: if the grid agrees, up to
      occlusion labels, with row-major cells `before` of a valid board, it
      is valid.
    */
    lemma ValidAfterLabelling(before: seq<Option<Square>>)
      requires Shape() && |before| == 64
      requires Placement(lib, image, bih, lib.notations).Some?
      requires forall a, b :: 0 <= a < 8 && 0 <= b < 8 ==>
        Unlabelled(before[8 * a + b]) == Lookup(Placement(lib, image, bih, lib.notations).value, (a, b))
      requires forall p :: 0 <= p < 64 ==> Unlabelled(IterSquares()[p]) == Unlabelled(before[p])
      requires boardPoints.Some? && imagePoints.Some? ==> Estimate(lib, boardPoints, imagePoints) == Some(bih)
      ensures Valid()
    {
      var s := IterSquares();
      forall a, b | 0 <= a < 8 && 0 <= b < 8
        ensures Unlabelled(squares[a, b]) == Lookup(Placement(lib, image, bih, lib.notations).value, (a, b))
      {
        assert s[8 * a + b] == squares[a, b];
      }
    }

    /** Distinct cells have distinct row-major positions. */
    static lemma RowMajorDistinct(a: int, b: int, i: int, j: int)
      requires 0 <= b < 8 && 0 <= j < 8 && (a != i || b != j)
      ensures 8 * a + b != 8 * i + j
    {
      if a < i {
        assert 8 * a + b < 8 * (a + 1) <= 8 * i;
      } else if a > i {
        assert 8 * i + j < 8 * (i + 1) <= 8 * a;
      }
    }

    /** A sequence that agrees with the grid at every row-major position is the iter_squares order. */
    lemma RowMajorIs(cells: seq<Option<Square>>)
      requires Tracks(cells)
      ensures IterSquares() == cells
    {
      var s := IterSquares();
      forall p | 0 <= p < 64 ensures s[p] == cells[p] {
        var a, b := p / 8, p % 8;
        assert p == 8 * a + b;
        assert s[8 * a + b] == squares[a, b] == cells[8 * a + b];
      }
    }

    /** The prefix of row-major cells starting at row i: the rows i..7, each left to right. */
    function RowsFrom(i: nat): (s: seq<Option<Square>>)
      reads this, squares
      requires Shape() && i <= 8
      ensures |s| == 8 * (8 - i)
      ensures forall a, b :: i <= a < 8 && 0 <= b < 8 ==> s[8 * (a - i) + b] == squares[a, b]
      decreases 8 - i
    {
      if i == 8 then [] else RowFrom(i, 0) + RowsFrom(i + 1)
    }

    /** The inner loop of iter_squares: row i from column j to the right edge. */
    function RowFrom(i: nat, j: nat): (s: seq<Option<Square>>)
      reads this, squares
      requires Shape() && i < 8 && j <= 8
      ensures |s| == 8 - j
      ensures forall b :: j <= b < 8 ==> s[b - j] == squares[i, b]
      decreases 8 - j
    {
      if j == 8 then [] else [squares[i, j]] + RowFrom(i, j + 1)
    }

    /**
      iter_squares: the 64 cells in row-major order; the k-th is
      squares[k / 8][k % 8], so cell (i, j) comes 8 * i + j-th.
    */
    function IterSquares(): (s: seq<Option<Square>>)
      reads this, squares
      requires Shape()
      ensures |s| == 64
      ensures forall i, j :: 0 <= i < 8 && 0 <= j < 8 ==> s[8 * i + j] == squares[i, j]
    {
      RowsFrom(0)
    }

    /** The k-th square iter_squares yields is squares[k / 8][k % 8]. */
    lemma IterSquaresRowMajor()
      requires Shape()
      ensures forall k :: 0 <= k < 64 ==> IterSquares()[k] == squares[k / 8, k % 8]
    {
      var s := IterSquares();
      forall k | 0 <= k < 64 ensures s[k] == squares[k / 8, k % 8] {
        var a, b := k / 8, k % 8;
        assert k == 8 * a + b;
        assert s[8 * a + b] == squares[a, b];
      }
    }

    /**
      get_occlusion_features: the feature vectors X and occlusion labels y
      of the 64 squares in row-major order, X[k] and y[k] from the same
      square. Raises when some cell holds no square.
    */
    function GetOcclusionFeatures(): (r: Result<(seq<FeatureVector>, seq<Option<string>>), BoardError>)
      reads this, squares
      requires Shape()
      ensures r.Success? <==> forall i, j :: 0 <= i < 8 && 0 <= j < 8 ==> squares[i, j].Some?
      ensures r.Failure? ==> r.error == EmptyCell
      ensures r.Success? ==> |r.value.0| == 64 && |r.value.1| == 64
      ensures r.Success? ==> forall k :: 0 <= k < 64 ==>
        r.value.0[k] == squares[k / 8, k % 8].value.features &&
        r.value.1[k] == squares[k / 8, k % 8].value.occlusion
    {
      var cells := IterSquares();
      IterSquaresRowMajor();
      var x := FeaturesOf(cells);
      var y := OcclusionsOf(cells);
      if x.Some? && y.Some? then Success((x.value, y.value)) else Failure(EmptyCell)
    }
  }
}
