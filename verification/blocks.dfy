/**
 * The piece catalogue and the bag randomiser (js/blocks.js): the seven shape
 * matrices, clockwise and counter-clockwise rotation, the piece factory,
 * the Fisher-Yates shuffle and the refill-on-empty generator.
 */
module Blocks {
  import opened Settings

  /** The seven piece types, in the order the catalogue lists them. */
  datatype Tag = I | J | L | O | S | T | Z

  const AllTags: seq<Tag> := [I, J, L, O, S, T, Z]

  /** A matrix of 0/1 cells; a non-zero cell is occupied. */
  type Shape = seq<seq<int>>

  /** A piece: its type, its current shape and the board position of the shape's top-left corner. */
  datatype Piece = Piece(tag: Tag, shape: Shape, x: int, y: int)

  /** Cell (x, y) of `s` (column x of row y) exists and is occupied. */
  predicate Occ(s: Shape, y: int, x: int)
  {
    0 <= y < |s| && 0 <= x < |s[y]| && s[y][x] != 0
  }

  ghost predicate HasCell(s: Shape)
  {
    exists y, x :: Occ(s, y, x)
  }

  /** Cell (y, x) comes before the scan position (cy, cx) in row-major order. */
  predicate Before(y: int, x: int, cy: int, cx: int)
  {
    y < cy || (y == cy && x < cx)
  }

  /** At least one row, at least one column, and every row as long as the first. */
  predicate IsMatrix(s: Shape)
  {
    |s| >= 1 && |s[0]| >= 1 && forall y :: 0 <= y < |s| ==> |s[y]| == |s[0]|
  }

  predicate IsSquare(s: Shape, n: nat)
  {
    |s| == n && forall y :: 0 <= y < |s| ==> |s[y]| == n
  }

  /** The catalogue of spawn orientations. Every entry is square: I is 4x4, O is 2x2, the rest are 3x3. */
  function ShapeOf(t: Tag): (s: Shape)
    ensures IsSquare(s, if t == I then 4 else if t == O then 2 else 3)
  {
    match t
    case I => [[0, 0, 0, 0], [1, 1, 1, 1], [0, 0, 0, 0], [0, 0, 0, 0]]
    case J => [[1, 0, 0], [1, 1, 1], [0, 0, 0]]
    case L => [[0, 0, 1], [1, 1, 1], [0, 0, 0]]
    case O => [[1, 1], [1, 1]]
    case S => [[0, 1, 1], [1, 1, 0], [0, 0, 0]]
    case T => [[0, 1, 0], [1, 1, 1], [0, 0, 0]]
    case Z => [[1, 1, 0], [0, 1, 1], [0, 0, 0]]
  }

  /** The number of occupied cells of `row` from column x on. */
  function RowCount(row: seq<int>, x: nat): nat
    decreases |row| - x
  {
    if x >= |row| then 0 else (if row[x] != 0 then 1 else 0) + RowCount(row, x + 1)
  }

  /** The number of occupied cells of `s` from row y on. */
  function CountFrom(s: Shape, y: nat): nat
    decreases |s| - y
  {
    if y >= |s| then 0 else RowCount(s[y], 0) + CountFrom(s, y + 1)
  }

  /** The number of occupied cells of `s`. */
  function CellCount(s: Shape): nat
  {
    CountFrom(s, 0)
  }

  /** Every catalogue entry has exactly four occupied cells. */
  lemma CatalogueCellCount(t: Tag)
    ensures CellCount(ShapeOf(t)) == 4
  {
    match t
    case I => assert CellCount(ShapeOf(I)) == 4;
    case J => assert CellCount(ShapeOf(J)) == 4;
    case L => assert CellCount(ShapeOf(L)) == 4;
    case O => assert CellCount(ShapeOf(O)) == 4;
    case S => assert CellCount(ShapeOf(S)) == 4;
    case T => assert CellCount(ShapeOf(T)) == 4;
    case Z => assert CellCount(ShapeOf(Z)) == 4;
  }

  /** The occupied cells of row y of `s` from column x0 on, as (row, column) pairs. */
  ghost function RowCells(s: Shape, y: int, x0: nat): set<(int, int)>
    requires 0 <= y < |s|
  {
    set x | x0 <= x < |s[y]| && s[y][x] != 0 :: (y, x)
  }

  /** The occupied cells of `s` from row y0 on, as (row, column) pairs. */
  ghost function CellsFrom(s: Shape, y0: nat): set<(int, int)>
  {
    set y, x | y0 <= y < |s| && 0 <= x < |s[y]| && s[y][x] != 0 :: (y, x)
  }

  lemma {:induction false} RowCountIsSize(s: Shape, y: int, x0: nat)
    requires 0 <= y < |s|
    ensures |RowCells(s, y, x0)| == RowCount(s[y], x0)
    decreases |s[y]| - x0
  {
    if x0 < |s[y]| {
      RowCountIsSize(s, y, x0 + 1);
      var here: set<(int, int)> := if s[y][x0] != 0 then {(y, x0)} else {};
      assert RowCells(s, y, x0) == here + RowCells(s, y, x0 + 1);
      assert here !! RowCells(s, y, x0 + 1);
    } else {
      assert RowCells(s, y, x0) == {};
    }
  }

  lemma {:induction false} CountIsSize(s: Shape, y0: nat)
    ensures |CellsFrom(s, y0)| == CountFrom(s, y0)
    decreases |s| - y0
  {
    if y0 < |s| {
      CountIsSize(s, y0 + 1);
      RowCountIsSize(s, y0, 0);
      assert CellsFrom(s, y0) == RowCells(s, y0, 0) + CellsFrom(s, y0 + 1);
      assert RowCells(s, y0, 0) !! CellsFrom(s, y0 + 1);
    } else {
      assert CellsFrom(s, y0) == {};
    }
  }

  /** The clockwise turn of an R x C matrix: the C x R matrix whose row x is column x of the input read bottom-up. */
  function Cw(s: Shape): (r: Shape)
    requires IsMatrix(s)
    ensures IsMatrix(r) && |r| == |s[0]| && |r[0]| == |s|
  {
    seq(|s[0]|, x requires 0 <= x < |s[0]| => seq(|s|, j requires 0 <= j < |s| => s[|s| - 1 - j][x]))
  }

  /** The counter-clockwise turn of an R x C matrix: the C x R matrix whose row i is column C-1-i of the input. */
  function Ccw(s: Shape): (r: Shape)
    requires IsMatrix(s)
    ensures IsMatrix(r) && |r| == |s[0]| && |r[0]| == |s|
  {
    seq(|s[0]|, i requires 0 <= i < |s[0]| => seq(|s|, y requires 0 <= y < |s| => s[y][|s[0]| - 1 - i]))
  }

  /** Cell (y, x) of an R-row matrix lands at (x, R-1-y) under a clockwise turn. */
  lemma CwMovesCell(s: Shape, y: int, x: int)
    requires IsMatrix(s) && 0 <= y < |s| && 0 <= x < |s[0]|
    ensures Cw(s)[x][|s| - 1 - y] == s[y][x]
  {
  }

  /** Cell (y, x) of a C-column matrix lands at (C-1-x, y) under a counter-clockwise turn. */
  lemma CcwMovesCell(s: Shape, y: int, x: int)
    requires IsMatrix(s) && 0 <= y < |s| && 0 <= x < |s[0]|
    ensures Ccw(s)[|s[0]| - 1 - x][y] == s[y][x]
  {
  }

  /** Rotating clockwise then counter-clockwise gives back the original matrix. */
  lemma CcwUndoesCw(s: Shape)
    requires IsMatrix(s)
    ensures Ccw(Cw(s)) == s
  {
    var r, R := Ccw(Cw(s)), |s|;
    forall y | 0 <= y < R
      ensures r[y] == s[y]
    {
      forall x | 0 <= x < |s[y]|
        ensures r[y][x] == s[y][x]
      {
        CcwMovesCell(Cw(s), x, R - 1 - y);
        CwMovesCell(s, y, x);
      }
    }
  }

  /** Rotating counter-clockwise then clockwise gives back the original matrix. */
  lemma CwUndoesCcw(s: Shape)
    requires IsMatrix(s)
    ensures Cw(Ccw(s)) == s
  {
    var r, C := Cw(Ccw(s)), |s[0]|;
    forall y | 0 <= y < |s|
      ensures r[y] == s[y]
    {
      forall x | 0 <= x < C
        ensures r[y][x] == s[y][x]
      {
        CwMovesCell(Ccw(s), C - 1 - x, y);
        CcwMovesCell(s, y, x);
      }
    }
  }

  /** Four clockwise turns give back the original matrix. */
  lemma CwFourTimes(s: Shape)
    requires IsMatrix(s)
    ensures Cw(Cw(Cw(Cw(s)))) == s
  {
    var s1 := Cw(s);
    var s2 := Cw(s1);
    var s3 := Cw(s2);
    var R, C := |s|, |s[0]|;
    forall y | 0 <= y < R
      ensures Cw(s3)[y] == s[y]
    {
      forall x | 0 <= x < C
        ensures Cw(s3)[y][x] == s[y][x]
      {
        CwMovesCell(s, y, x);
        CwMovesCell(s1, x, R - 1 - y);
        CwMovesCell(s2, R - 1 - y, C - 1 - x);
        CwMovesCell(s3, C - 1 - x, y);
      }
    }
  }

  /** The image of a set of (row, column) cells under the clockwise turn of an R-row matrix. */
  ghost function Turned(A: set<(int, int)>, R: int): set<(int, int)>
  {
    set p | p in A :: (p.1, R - 1 - p.0)
  }

  lemma {:induction false} TurnedSize(A: set<(int, int)>, R: int)
    ensures |Turned(A, R)| == |A|
    decreases |A|
  {
    if A != {} {
      var a :| a in A;
      var B := A - {a};
      TurnedSize(B, R);
      assert Turned(A, R) == Turned(B, R) + {(a.1, R - 1 - a.0)};
    }
  }

  /** A clockwise turn keeps the number of occupied cells. */
  lemma CwKeepsCellCount(s: Shape)
    requires IsMatrix(s)
    ensures CellCount(Cw(s)) == CellCount(s)
  {
    var r, R := Cw(s), |s|;
    assert CellsFrom(r, 0) == Turned(CellsFrom(s, 0), R) by {
      forall q | q in CellsFrom(r, 0)
        ensures q in Turned(CellsFrom(s, 0), R)
      {
        var y := R - 1 - q.1;
        CwMovesCell(s, y, q.0);
        assert (y, q.0) in CellsFrom(s, 0);
      }
      forall p | p in CellsFrom(s, 0)
        ensures (p.1, R - 1 - p.0) in CellsFrom(r, 0)
      {
        CwMovesCell(s, p.0, p.1);
      }
    }
    TurnedSize(CellsFrom(s, 0), R);
    CountIsSize(s, 0);
    CountIsSize(r, 0);
  }

  /** A clockwise turn of a shape with an occupied cell has one. */
  lemma CwKeepsHasCell(s: Shape)
    requires IsMatrix(s) && HasCell(s)
    ensures HasCell(Cw(s))
  {
    var y, x :| Occ(s, y, x);
    CwMovesCell(s, y, x);
    assert Occ(Cw(s), x, |s| - 1 - y);
  }

  /**
   * rotateClockwise: fills a fresh C x R matrix of zeros cell by cell.
   * The input, a value, is left as it was.
   */
  method RotateClockwise(shape: Shape) returns (rotated: Shape)
    requires IsMatrix(shape)
    ensures rotated == Cw(shape)
  {
    var rows, cols := |shape|, |shape[0]|;
    rotated := seq(cols, _ => seq(rows, _ => 0));
    for y := 0 to rows
      invariant |rotated| == cols && forall i :: 0 <= i < cols ==> |rotated[i]| == rows
      invariant forall yy, xx :: 0 <= yy < y && 0 <= xx < cols ==> rotated[xx][rows - 1 - yy] == shape[yy][xx]
    {
      for x := 0 to cols
        invariant |rotated| == cols && forall i :: 0 <= i < cols ==> |rotated[i]| == rows
        invariant forall yy, xx :: 0 <= yy < y && 0 <= xx < cols ==> rotated[xx][rows - 1 - yy] == shape[yy][xx]
        invariant forall xx :: 0 <= xx < x ==> rotated[xx][rows - 1 - y] == shape[y][xx]
      {
        rotated := rotated[x := rotated[x][rows - 1 - y := shape[y][x]]];
      }
    }
    forall i | 0 <= i < cols
      ensures rotated[i] == Cw(shape)[i]
    {
      forall j | 0 <= j < rows
        ensures rotated[i][j] == Cw(shape)[i][j]
      {
        assert rotated[i][rows - 1 - (rows - 1 - j)] == shape[rows - 1 - j][i];
      }
    }
  }

  /** rotateCounterClockwise: fills a fresh C x R matrix of zeros cell by cell. */
  method RotateCounterClockwise(shape: Shape) returns (rotated: Shape)
    requires IsMatrix(shape)
    ensures rotated == Ccw(shape)
  {
    var rows, cols := |shape|, |shape[0]|;
    rotated := seq(cols, _ => seq(rows, _ => 0));
    for y := 0 to rows
      invariant |rotated| == cols && forall i :: 0 <= i < cols ==> |rotated[i]| == rows
      invariant forall yy, xx :: 0 <= yy < y && 0 <= xx < cols ==> rotated[cols - 1 - xx][yy] == shape[yy][xx]
    {
      for x := 0 to cols
        invariant |rotated| == cols && forall i :: 0 <= i < cols ==> |rotated[i]| == rows
        invariant forall yy, xx :: 0 <= yy < y && 0 <= xx < cols ==> rotated[cols - 1 - xx][yy] == shape[yy][xx]
        invariant forall xx :: 0 <= xx < x ==> rotated[cols - 1 - xx][y] == shape[y][xx]
      {
        rotated := rotated[cols - 1 - x := rotated[cols - 1 - x][y := shape[y][x]]];
      }
    }
    forall i | 0 <= i < cols
      ensures rotated[i] == Ccw(shape)[i]
    {
      forall j | 0 <= j < rows
        ensures rotated[i][j] == Ccw(shape)[i][j]
      {
        assert rotated[cols - 1 - (cols - 1 - i)][j] == shape[j][cols - 1 - i];
      }
    }
  }

  /**
   * cloneShape: a row-by-row copy. Shapes are values here, so the copy is
   * equal to its input; that the JavaScript copy shares no row arrays is not expressed.
   */
  function CloneShape(s: Shape): (r: Shape)
    ensures r == s
  {
    seq(|s|, i requires 0 <= i < |s| => s[i][..])
  }

  /** Every catalogue shape is a proper matrix with an occupied cell. */
  lemma CatalogueShapesAreMatrices(t: Tag)
    ensures IsMatrix(ShapeOf(t)) && HasCell(ShapeOf(t))
  {
    assert Occ(ShapeOf(t), 1, 1);
  }

  /**
   * buildPiece: a piece of the given type in its catalogue orientation,
   * horizontally centred (rounding down) on a board `cols` wide, at row 0.
   */
  function BuildPiece(t: Tag, cols: int): (p: Piece)
    ensures p.tag == t && p.shape == ShapeOf(t) && p.y == 0
    ensures 2 * p.x <= cols - |ShapeOf(t)[0]| < 2 * p.x + 2
  {
    var shape := CloneShape(ShapeOf(t));
    var width := |shape[0]|;
    // Math.floor of a half: Dafny's division by a positive divisor rounds down.
    Piece(t, shape, (cols - width) / 2, 0)
  }

  /**
   * shuffle: Fisher-Yates on a copy of the input. Each swap partner is an
   * arbitrary index in [0, i], standing for Math.floor(Math.random() * (i + 1)).
   */
  method Shuffle<U>(collection: seq<U>) returns (r: seq<U>)
    ensures |r| == |collection|
    ensures multiset(r) == multiset(collection)
  {
    var a := new U[|collection|](k requires 0 <= k < |collection| => collection[k]);
    assert a[..] == collection;
    var i := a.Length - 1;
    while i > 0
      invariant i < a.Length
      invariant multiset(a[..]) == multiset(collection)
    {
      var j :| 0 <= j <= i;
      a[i], a[j] := a[j], a[i];
      i := i - 1;
    }
    r := a[..];
  }

  /**
   * The draws so far split into bags: every completed bag in `done` holds each
   * type of `full` once, and the part `open` drawn from the current bag together
   * with the `queue` still to be drawn make up that bag.
   */
  ghost predicate Partition(done: seq<seq<Tag>>, open: seq<Tag>, queue: seq<Tag>, full: multiset<Tag>)
  {
    && (queue == [] <==> open == [])
    && (queue != [] ==> multiset(open) + multiset(queue) == full)
    && forall i :: 0 <= i < |done| ==> multiset(done[i]) == full
  }

  /** One of each of the seven types. */
  ghost function FullBag(): multiset<Tag>
  {
    multiset{I, J, L, O, S, T, Z}
  }

  /** The list of all types holds each type once. */
  lemma AllTagsMakeFullBag()
    ensures multiset(AllTags) == FullBag()
  {
  }

  /** The bag discipline of the randomiser, over a bag of all seven types. */
  ghost predicate BagState(done: seq<seq<Tag>>, open: seq<Tag>, queue: seq<Tag>)
  {
    Partition(done, open, queue, FullBag())
  }

  /** Each type occurs exactly once in a completed bag. */
  lemma CompletedBagHasEachTagOnce(bag: seq<Tag>, t: Tag)
    requires multiset(bag) == FullBag()
    ensures |bag| == 7 && multiset(bag)[t] == 1
  {
    assert |multiset(bag)| == 7;
  }

  /** A part of a bag of seven and the rest of it hold seven types between them. */
  lemma BagPartsSize(part: seq<Tag>, rest: seq<Tag>, full: multiset<Tag>)
    requires |full| == 7 && multiset(part) + multiset(rest) == full
    ensures |part| + |rest| == 7
  {
    assert |multiset(part) + multiset(rest)| == |part| + |rest|;
  }

  /** Moving the last type of the undrawn part of a bag to the drawn part keeps the bag. */
  lemma MovePopped(part: seq<Tag>, bag: seq<Tag>, t: Tag, full: multiset<Tag>)
    requires multiset(part) + multiset(bag) == full
    requires bag != [] && t == bag[|bag| - 1]
    ensures multiset(part + [t]) + multiset(bag[..|bag| - 1]) == full
  {
    assert bag == bag[..|bag| - 1] + [t];
  }

  /** Drawing the last type of a full bag leaves the other six. */
  lemma PopFullBag(bag: seq<Tag>, t: Tag, rest: seq<Tag>)
    requires multiset(bag) == FullBag()
    requires bag != [] && t == bag[|bag| - 1] && rest == bag[..|bag| - 1]
    ensures |rest| == 6 && multiset(rest) + multiset{t} == FullBag()
  {
    CompletedBagHasEachTagOnce(bag, t);
    assert bag == rest + [t];
  }

  /** Appending a completed bag keeps every completed bag full. */
  lemma CompleteBag(done: seq<seq<Tag>>, bag: seq<Tag>, full: multiset<Tag>)
    requires forall i :: 0 <= i < |done| ==> multiset(done[i]) == full
    requires multiset(bag) == full
    ensures forall i :: 0 <= i < |done + [bag]| ==> multiset((done + [bag])[i]) == full
  {
    forall i | 0 <= i < |done + [bag]|
      ensures multiset((done + [bag])[i]) == full
    {
      if i < |done| {
        assert (done + [bag])[i] == done[i];
      }
    }
  }

  /** Popping type `t` off `bag` (the queue, refilled with a full bag if it was empty) keeps the partition. */
  lemma DrawKeepsPartition(done: seq<seq<Tag>>, open: seq<Tag>, queue: seq<Tag>, bag: seq<Tag>, t: Tag, rest: seq<Tag>, full: multiset<Tag>)
    requires |full| == 7 && Partition(done, open, queue, full)
    requires queue != [] ==> bag == queue
    requires queue == [] ==> multiset(bag) == full
    requires bag != [] && t == bag[|bag| - 1] && rest == bag[..|bag| - 1]
    ensures rest == [] ==> Partition(done + [open + [t]], [], rest, full)
    ensures rest != [] ==> Partition(done, open + [t], rest, full)
  {
    assert multiset(open) + multiset(bag) == full;
    MovePopped(open, bag, t, full);
    BagPartsSize(open + [t], rest, full);
    if rest == [] {
      CompleteBag(done, open + [t], full);
    }
  }

  /**
   * Popping type `t` off `bag` (the queue, refilled with a full bag if it was
   * empty) keeps the bag discipline, if it held before.
   */
  lemma DrawKeepsBagState(done: seq<seq<Tag>>, open: seq<Tag>, queue: seq<Tag>, bag: seq<Tag>, t: Tag, rest: seq<Tag>)
    requires queue != [] ==> bag == queue
    requires queue == [] ==> multiset(bag) == FullBag()
    requires bag != [] && t == bag[|bag| - 1] && rest == bag[..|bag| - 1]
    ensures BagState(done, open, queue) && rest == [] ==> BagState(done + [open + [t]], [], rest)
    ensures BagState(done, open, queue) && rest != [] ==> BagState(done, open + [t], rest)
  {
    if BagState(done, open, queue) {
      var full := FullBag();
      assert |full| == 7;
      DrawKeepsPartition(done, open, queue, bag, t, rest, full);
    }
  }

  /**
   * The bag randomiser: a queue refilled with a shuffled bag of all seven types
   * whenever it is empty. The ghost fields record the history of draws as the
   * bags already completed and the part of the current bag drawn so far.
   */
  class TetrominoGenerator {
    const cols: int
    var queue: seq<Tag>
    ghost var done: seq<seq<Tag>>
    ghost var open: seq<Tag>

    ghost predicate Valid()
      reads this
    {
      BagState(done, open, queue)
    }

    constructor (cols: int)
      ensures Valid()
      ensures this.cols == cols && queue == [] && done == [] && open == []
    {
      this.cols := cols;
      queue := [];
      done := [];
      open := [];
    }

    /**
     * next: refill the queue if (and only if) it is empty, then pop its last type
     * and build that piece. The draw that empties the queue completes a bag.
     */
    method Next() returns (piece: Piece)
      modifies this
      ensures old(Valid()) ==> Valid()
      ensures piece == BuildPiece(piece.tag, cols)
      ensures old(queue) != [] ==> piece.tag == old(queue)[|old(queue)| - 1] && queue == old(queue)[..|old(queue)| - 1]
      ensures old(queue) == [] ==> |queue| == 6 && multiset(queue) + multiset{piece.tag} == FullBag()
      ensures queue != [] ==> done == old(done) && open == old(open) + [piece.tag]
      ensures queue == [] ==> done == old(done) + [old(open) + [piece.tag]] && open == []
    {
      var bag := queue;
      if |bag| == 0 {
        bag := Shuffle(AllTags);
        AllTagsMakeFullBag();
      }
      var t := bag[|bag| - 1];
      var rest := bag[..|bag| - 1];
      if queue == [] {
        PopFullBag(bag, t, rest);
      }
      DrawKeepsBagState(done, open, queue, bag, t, rest);
      queue := rest;
      if rest == [] {
        done, open := done + [open + [t]], [];
      } else {
        open := open + [t];
      }
      piece := BuildPiece(t, cols);
    }
  }
}
