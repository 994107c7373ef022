/** The bounding box of a shape's occupied cells, from js/next-piece.js. */
module NextPiece {
  import opened Wrappers
  import opened Blocks

  /** A JavaScript number that is an integer or minus infinity. */
  datatype Extent = Finite(n: int) | MinusInfinity

  /** The box returned by getShapeBounds. */
  datatype Bounds = Bounds(minX: int, maxX: int, minY: int, maxY: int, width: Extent, height: Extent)

  /** The smaller of an accumulator (None standing for +Infinity) and v. */
  function MinAcc(acc: Option<int>, v: int): (r: int)
    ensures acc.None? ==> r == v
    ensures acc.Some? ==> r <= acc.value && r <= v && (r == acc.value || r == v)
  {
    if acc.Some? && acc.value < v then acc.value else v
  }

  /** The larger of an accumulator (None standing for -Infinity) and v. */
  function MaxAcc(acc: Option<int>, v: int): (r: int)
    ensures acc.None? ==> r == v
    ensures acc.Some? ==> r >= acc.value && r >= v && (r == acc.value || r == v)
  {
    if acc.Some? && acc.value > v then acc.value else v
  }

  /**
   * The four accumulators describe the occupied cells scanned before (cy, cx):
   * all are None (the source's starting infinities) while none has been seen,
   * and otherwise they bound those cells and each is reached by an occupied cell.
   */
  ghost predicate Summarises(s: Shape, minX: Option<int>, maxX: Option<int>, minY: Option<int>, maxY: Option<int>, cy: int, cx: int)
  {
    && minX.None? == maxX.None? == minY.None? == maxY.None?
    && (minX.None? ==> forall y, x :: Occ(s, y, x) ==> !Before(y, x, cy, cx))
    && (minX.Some? ==>
        && (forall y, x :: Occ(s, y, x) && Before(y, x, cy, cx) ==>
              minX.value <= x <= maxX.value && minY.value <= y <= maxY.value)
        && (exists y :: Occ(s, y, minX.value))
        && (exists y :: Occ(s, y, maxX.value))
        && (exists x :: Occ(s, minY.value, x))
        && (exists x :: Occ(s, maxY.value, x)))
  }

  /** Scanning cell (cy, cx) with the source's update keeps the summary, one cell further on. */
  lemma ScanCell(s: Shape, minX: Option<int>, maxX: Option<int>, minY: Option<int>, maxY: Option<int>, cy: int, cx: int)
    requires 0 <= cy < |s| && 0 <= cx < |s[cy]|
    requires Summarises(s, minX, maxX, minY, maxY, cy, cx)
    ensures s[cy][cx] == 0 ==> Summarises(s, minX, maxX, minY, maxY, cy, cx + 1)
    ensures s[cy][cx] != 0 ==>
      Summarises(s, Some(MinAcc(minX, cx)), Some(MaxAcc(maxX, cx)), Some(MinAcc(minY, cy)), Some(MaxAcc(maxY, cy)), cy, cx + 1)
  {
    if s[cy][cx] != 0 {
      assert Occ(s, cy, cx);
    }
  }

  /** Having scanned all of row cy is having scanned everything before row cy + 1. */
  lemma ScanRowDone(s: Shape, minX: Option<int>, maxX: Option<int>, minY: Option<int>, maxY: Option<int>, cy: int)
    requires 0 <= cy < |s|
    requires Summarises(s, minX, maxX, minY, maxY, cy, |s[cy]|)
    ensures Summarises(s, minX, maxX, minY, maxY, cy + 1, 0)
  {
  }

  /**
   * getShapeBounds: scan the shape row by row and column by column, widening
   * the box to every occupied cell. An all-zero shape gives zero coordinates
   * and a width and height of minus infinity.
   */
  method GetShapeBounds(shape: Shape) returns (b: Bounds)
    ensures HasCell(shape) ==>
      && (forall y, x :: Occ(shape, y, x) ==> b.minX <= x <= b.maxX && b.minY <= y <= b.maxY)
      && (exists y :: Occ(shape, y, b.minX))
      && (exists y :: Occ(shape, y, b.maxX))
      && (exists x :: Occ(shape, b.minY, x))
      && (exists x :: Occ(shape, b.maxY, x))
      && b.width == Finite(b.maxX - b.minX + 1) && b.width.n >= 1
      && b.height == Finite(b.maxY - b.minY + 1) && b.height.n >= 1
    ensures !HasCell(shape) ==> b == Bounds(0, 0, 0, 0, MinusInfinity, MinusInfinity)
  {
    var minX: Option<int> := None;
    var maxX: Option<int> := None;
    var minY: Option<int> := None;
    var maxY: Option<int> := None;
    for y := 0 to |shape|
      invariant Summarises(shape, minX, maxX, minY, maxY, y, 0)
    {
      for x := 0 to |shape[y]|
        invariant Summarises(shape, minX, maxX, minY, maxY, y, x)
      {
        ScanCell(shape, minX, maxX, minY, maxY, y, x);
        if shape[y][x] != 0 {
          minX, maxX := Some(MinAcc(minX, x)), Some(MaxAcc(maxX, x));
          minY, maxY := Some(MinAcc(minY, y)), Some(MaxAcc(maxY, y));
        }
      }
      ScanRowDone(shape, minX, maxX, minY, maxY, y);
    }
    if minX.None? {
      b := Bounds(0, 0, 0, 0, MinusInfinity, MinusInfinity);
    } else {
      b := Bounds(minX.value, maxX.value, minY.value, maxY.value,
                  Finite(maxX.value - minX.value + 1), Finite(maxY.value - minY.value + 1));
    }
  }
}
