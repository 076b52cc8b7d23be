/** Shared vocabulary of the three ground-truth builders: failures, dense
    2-D arrays with a shape, the output record, and pixel counting. */
module Common {

  datatype Option<T> = None | Some(value: T)

  datatype Result<T, E> = Success(value: T) | Failure(error: E)

  /** Why building the ground truth of one image can fail. The first three
      are Python KeyErrors on a dictionary lookup, the last is the
      FileNotFoundError raised when a segmentation PNG is missing. */
  datatype Error =
    | ImageNotIndexed(imageId: int)
    | AnnotationNotIndexed(imageId: int)
    | CategoryNotMapped(categoryId: int)
    | MaskFileNotFound(fileName: string)

  /** A dense 2-D array as numpy holds it: its shape (height, width) and
      its rows. The shape is kept apart from the rows so that an array with
      no rows still has a width, as a numpy array of shape (0, W) does. */
  datatype Grid<T> = Grid(height: nat, width: nat, cells: seq<seq<T>>) {
    predicate Valid()
    {
      |cells| == height && forall r :: 0 <= r < |cells| ==> |cells[r]| == width
    }
  }

  /** One ground-truth record of the instance and panoptic views:
      {"instance_id", "class_id", "mask"}. */
  datatype GroundTruth = GroundTruth(instanceId: int, classId: int, mask: Grid<int>)

  function Min(a: int, b: int): int { if a <= b then a else b }

  function Max(a: int, b: int): int { if a >= b then a else b }

  /** Number of entries equal to 1 in a row. */
  function RowOnes(row: seq<int>): nat
  {
    if row == [] then 0
    else RowOnes(row[..|row| - 1]) + (if row[|row| - 1] == 1 then 1 else 0)
  }

  /** Number of entries equal to 1 in a mask (its pixel area). */
  function Ones(rows: seq<seq<int>>): nat
  {
    if rows == [] then 0
    else Ones(rows[..|rows| - 1]) + RowOnes(rows[|rows| - 1])
  }

  /** Every pixel of the mask is 0 or 1. */
  predicate Binary(g: Grid<int>)
    requires g.Valid()
  {
    forall r, c :: 0 <= r < g.height && 0 <= c < g.width ==> g.cells[r][c] == 0 || g.cells[r][c] == 1
  }
}
