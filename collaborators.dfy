/**
  The pieces the Board relies on but that live outside Board.py: the
  board-image homography estimator of CVAnalysis, the Square class and
  util.iter_algebraic_notations. They enter the model as values of a
  `Library`, so every property proved about the Board holds for any
  estimator, any label-to-location mapping and any feature extractor.
*/
module Collaborators {
  import opened Wrappers

  /** A point in board or image coordinates. */
  type Point = (real, real)

  /** A SIFT descriptor attached to a point correspondence. */
  type Descriptor = seq<real>

  /** The feature vector a Square computes for the occlusion classifier. */
  type FeatureVector = seq<real>

  /** An algebraic-notation label such as "a1". */
  type Label = string

  /** A photograph of the board. */
  datatype Image = Image(pixels: seq<seq<int>>)

  /** A board-to-image homography (BIH). */
  datatype Homography = Homography(matrix: seq<seq<real>>)

  /**
    The external collaborators:
    - estimate: CVAnalysis.find_board_image_homography; None stands for it
      raising on the correspondences;
    - notations: the labels util.iter_algebraic_notations yields, in order;
    - locate: the board location (board_vertices[0]) Square derives from a label;
    - extract: the features Square.get_occlusion_features computes.
  */
  datatype Library = Library(
    estimate: (seq<Point>, seq<Point>) -> Option<Homography>,
    notations: seq<Label>,
    locate: Label -> (int, int),
    extract: (Image, Homography, Label) -> FeatureVector)

  /**
    A square of the board: its label `an`, the image and homography it was
    built from, its board location, its features and its occlusion label
    (absent until occlusions are added).
  */
  datatype Square = Square(
    an: Label,
    image: Image,
    bih: Homography,
    location: (int, int),
    features: FeatureVector,
    occlusion: Option<string>)

  /** Square(image, BIH, an): a fresh, unlabelled square. */
  function MakeSquare(lib: Library, image: Image, bih: Homography, an: Label): Square
  {
    Square(an, image, bih, lib.locate(an), lib.extract(image, bih, an), None)
  }

  /** Square.add_occlusion: records the occlusion label of the square. */
  function AddOcclusion(sq: Square, token: string): Square
  {
    sq.(occlusion := Some(token))
  }

  /** A grid cell with its occlusion label dropped: what the geometry determines. */
  function Unlabelled(cell: Option<Square>): Option<Square>
  {
    match cell
    case None => None
    case Some(sq) => Some(sq.(occlusion := None))
  }
}
