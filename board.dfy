/**
 * The 4x4 Word Hunt letter grid (src/board.py). A board is built once from
 * recognised letters and the screen position of every cell, and is only read
 * afterwards.
 */
module Board {
  import Text

  /** Rows and columns of the grid. */
  const Size: int := 4

  /** A screen position of a cell, passed through unchanged. */
  datatype Point = Point(x: int, y: int)

  /** A (row, col) grid coordinate. */
  datatype Cell = Cell(row: int, col: int)

  /** `ValueError` from the constructor, `IndexError` from a lookup. */
  datatype Error = LettersNotGrid | CoordsNotGrid | IndexOutOfRange

  datatype Result<+T> = Ok(value: T) | Err(error: Error)

  /** Exactly `Size` rows of exactly `Size` entries. */
  predicate IsGrid<T>(rows: seq<seq<T>>) {
    |rows| == Size && forall r :: 0 <= r < |rows| ==> |rows[r]| == Size
  }

  predicate InBounds(c: Cell) {
    0 <= c.row < Size && 0 <= c.col < Size
  }

  function Uniform<T>(x: T): (rows: seq<seq<T>>)
    ensures IsGrid(rows)
  {
    seq(Size, _ => seq(Size, _ => x))
  }

  datatype Grid = Grid(letters: seq<seq<char>>, coords: seq<seq<Point>>)

  /** Every board the constructor can produce: both grids are 4x4. */
  type Board = g: Grid | IsGrid(g.letters) && IsGrid(g.coords)
    witness Grid(Uniform('A'), Uniform(Point(0, 0)))

  /**
   * `Board.__init__`: rejects letters, then coords, that are not 4x4, and
   * stores every letter upper-cased and the coords as given.
   */
  function New(letters: seq<seq<char>>, coords: seq<seq<Point>>): (r: Result<Board>)
    ensures !IsGrid(letters) ==> r == Err(LettersNotGrid)
    ensures IsGrid(letters) && !IsGrid(coords) ==> r == Err(CoordsNotGrid)
    ensures IsGrid(letters) && IsGrid(coords) ==>
              r.Ok? && r.value.coords == coords &&
              forall i, j :: 0 <= i < Size && 0 <= j < Size ==>
                r.value.letters[i][j] == Text.UpperChar(letters[i][j])
  {
    if !IsGrid(letters) then Err(LettersNotGrid)
    else if !IsGrid(coords) then Err(CoordsNotGrid)
    else Ok(Grid(seq(Size, i requires 0 <= i < Size => Text.Upper(letters[i])), coords))
  }

  /**
   * Python list indexing `xs[i]` on a list of `Size` items: `-Size <= i < 0`
   * counts from the end, anything outside `-Size..Size-1` raises `IndexError`.
   */
  function ListIndex(i: int): (k: Result<nat>)
    ensures k.Ok? <==> -Size <= i < Size
    ensures k.Ok? ==> k.value < Size && (k.value == i || k.value == i + Size)
  {
    if 0 <= i < Size then Ok(i)
    else if -Size <= i < 0 then Ok(i + Size)
    else Err(IndexOutOfRange)
  }

  /** `Board.letter_at(row, col)`: `letters[row][col]` with Python indexing. */
  function LetterAt(b: Board, row: int, col: int): (r: Result<char>)
    ensures r.Ok? <==> -Size <= row < Size && -Size <= col < Size
    ensures 0 <= row < Size && 0 <= col < Size ==> r == Ok(b.letters[row][col])
  {
    match ListIndex(row)
    case Err(e) => Err(e)
    case Ok(i) =>
      match ListIndex(col)
      case Err(e) => Err(e)
      case Ok(j) => Ok(b.letters[i][j])
  }

  /** `Board.coord_at(row, col)`: `coords[row][col]` with Python indexing. */
  function CoordAt(b: Board, row: int, col: int): (r: Result<Point>)
    ensures r.Ok? <==> -Size <= row < Size && -Size <= col < Size
    ensures 0 <= row < Size && 0 <= col < Size ==> r == Ok(b.coords[row][col])
  {
    match ListIndex(row)
    case Err(e) => Err(e)
    case Ok(i) =>
      match ListIndex(col)
      case Err(e) => Err(e)
      case Ok(j) => Ok(b.coords[i][j])
  }

  /** A negative index reads the same cell as the index `Size` above it. */
  lemma LookupWrapsNegative(b: Board, row: int, col: int)
    requires -Size <= row < Size && -Size <= col < Size
    ensures LetterAt(b, row, col) == LetterAt(b, if row < 0 then row + Size else row, if col < 0 then col + Size else col)
    ensures CoordAt(b, row, col) == CoordAt(b, if row < 0 then row + Size else row, if col < 0 then col + Size else col)
  {
  }

  /** Every stored letter is already upper-case: building again from them changes nothing. */
  lemma {:induction false} NewIsIdempotent(letters: seq<seq<char>>, coords: seq<seq<Point>>)
    requires New(letters, coords).Ok?
    ensures New(New(letters, coords).value.letters, coords) == New(letters, coords)
  {
    var b := New(letters, coords).value;
    var b2 := New(b.letters, coords).value;
    forall i | 0 <= i < Size
      ensures b2.letters[i] == b.letters[i]
    {
      assert |b2.letters[i]| == |b.letters[i]| == Size;
      forall j | 0 <= j < Size
        ensures b2.letters[i][j] == b.letters[i][j]
      {
        assert b2.letters[i][j] == Text.UpperChar(b.letters[i][j]);
      }
    }
    assert b2.letters == b.letters;
  }
}
