/**
 * Shared configuration of the game: board size, the drop-speed curve,
 * scoring constants and the empty-board constructor (js/page-settings.js).
 */
module Settings {
  import opened Wrappers

  const Rows: nat := 20
  const Cols: nat := 12
  const InitialDropInterval: int := 1000
  const MinDropInterval: int := 90
  const DropStep: int := 85
  const HardDropBonusMultiplier: int := 1
  const LevelScoreThreshold: int := 1000
  const MaxScoreHistory: nat := 10
  /** Points for clearing 0, 1, 2, 3 or 4 lines with one piece, before the level factor. */
  const LinePoints: seq<int> := [0, 40, 100, 300, 1200]

  function Max(a: int, b: int): int { if a < b then b else a }
  function Min(a: int, b: int): int { if a < b then a else b }

  /** A fresh board: `Rows` rows, each of `Cols` empty (null) cells. */
  function CreateEmptyBoard<T>(): (b: seq<seq<Option<T>>>)
    ensures |b| == Rows
    ensures forall r :: 0 <= r < |b| ==> |b[r]| == Cols
    ensures forall r, c :: 0 <= r < |b| && 0 <= c < |b[r]| ==> b[r][c] == None
  {
    seq(Rows, _ => seq(Cols, _ => None))
  }

  /** Milliseconds between automatic one-row descents at the given level. */
  function DropInterval(level: int): (d: int)
    ensures MinDropInterval <= d
    ensures level >= 1 ==> d <= InitialDropInterval
    ensures d >= InitialDropInterval - (level - 1) * DropStep
    ensures d == MinDropInterval || d == InitialDropInterval - (level - 1) * DropStep
  {
    var reduction := (level - 1) * DropStep;
    Max(MinDropInterval, InitialDropInterval - reduction)
  }

  /** Level 1 plays at the initial interval. */
  lemma DropIntervalAtLevelOne()
    ensures DropInterval(1) == InitialDropInterval
  {
  }

  /** The curve never speeds down as the level rises. */
  lemma DropIntervalNonIncreasing(a: int, b: int)
    requires a <= b
    ensures DropInterval(b) <= DropInterval(a)
  {
  }

  /** One level more takes exactly one step off the interval, until the floor is reached. */
  lemma DropIntervalStep(level: int)
    ensures DropInterval(level + 1) == Max(MinDropInterval, DropInterval(level) - DropStep)
  {
  }
}
