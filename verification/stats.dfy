/**
 * Score, level and lifetime counters (js/game-stats.js). The display updates
 * and the writes to local storage are not modelled; stored values enter as
 * constructor parameters.
 */
module Stats {
  import opened Wrappers
  import opened Settings

  /** The level a score earns: one level per full `LevelScoreThreshold` points, starting at 1. */
  function LevelForScore(score: int): (lv: int)
    ensures (lv - 1) * LevelScoreThreshold <= score < lv * LevelScoreThreshold
  {
    score / LevelScoreThreshold + 1
  }

  /** A higher score never earns a lower level. */
  lemma LevelForScoreMonotone(a: int, b: int)
    requires a <= b
    ensures LevelForScore(a) <= LevelForScore(b)
  {
  }

  /** Base points for clearing `count` lines with one piece; counts without an entry in the table earn 0. */
  function LinePointsFor(count: int): (p: int)
    ensures 0 <= count < |LinePoints| ==> p == LinePoints[count]
    ensures !(0 <= count < |LinePoints|) ==> p == 0
    ensures p >= 0
  {
    if 0 <= count < |LinePoints| then LinePoints[count] else 0
  }

  /** Clearing more lines at once (up to four) earns strictly more base points. */
  lemma LinePointsIncreasing(a: int, b: int)
    requires 0 <= a < b <= 4
    ensures LinePointsFor(a) < LinePointsFor(b)
  {
  }

  /** The value of a stored number after parsing: None when it is missing or not a number. */
  function LoadedOr(stored: Option<int>, default: int, floor: Option<int>): (v: int)
    ensures stored.None? ==> v == default
    ensures stored.Some? && floor.None? ==> v == stored.value
    ensures stored.Some? && floor.Some? ==> v == Max(floor.value, stored.value) && v >= floor.value
  {
    if stored.None? then default
    else if floor.None? then stored.value
    else Max(floor.value, stored.value)
  }

  /** The counters of the statistics, as a value: the current game's score, level and lines, and the lifetime values. */
  datatype Tally = Tally(score: int, level: int, linesThisGame: int, highScore: int, highLevel: int, totalLines: int, totalPieces: int)

  /** The level is at least 1 and never below what the score earns; the best level is at least the current one; counters are not negative. */
  predicate Consistent(t: Tally)
  {
    && t.level >= 1
    && t.level >= LevelForScore(t.score)
    && t.highLevel >= t.level
    && t.linesThisGame >= 0
    && t.totalLines >= 0
    && t.totalPieces >= 0
  }

  /** addScore on the counters: zero points change nothing; otherwise the score grows and the high score and levels catch up. */
  function Scored(t: Tally, points: int): Tally
  {
    if points == 0 then t
    else
      var score := t.score + points;
      var level := Max(t.level, LevelForScore(score));
      t.(score := score, highScore := Max(t.highScore, score), level := level, highLevel := Max(t.highLevel, level))
  }

  /** addHardDropBonus on the counters. */
  function BonusScored(t: Tally, distance: int): Tally
  {
    if distance <= 0 then t else Scored(t, distance * HardDropBonusMultiplier)
  }

  /** recordPiecePlaced on the counters. */
  function PiecePlaced(t: Tally): Tally
  {
    t.(totalPieces := t.totalPieces + 1)
  }

  /** recordLinesCleared on the counters: the line points are scaled by the level before they are scored. */
  function LinesCleared(t: Tally, count: int): Tally
  {
    if count <= 0 then t
    else Scored(t.(linesThisGame := t.linesThisGame + count, totalLines := t.totalLines + count), LinePointsFor(count) * t.level)
  }

  /** resetForNewGame on the counters. */
  function NewGame(t: Tally): Tally
  {
    t.(score := 0, level := 1, linesThisGame := 0)
  }

  /**
   * Scoring keeps the counters consistent, and never lowers the level, the high
   * score or the best level; the high score is at least the score reached.
   */
  lemma ScoredKeepsOrder(t: Tally, points: int)
    requires Consistent(t)
    ensures var r := Scored(t, points);
      && Consistent(r)
      && t.level <= r.level && t.highScore <= r.highScore && t.highLevel <= r.highLevel
      && (points != 0 ==> r.score == t.score + points && r.highScore >= r.score)
      && r.linesThisGame == t.linesThisGame && r.totalLines == t.totalLines && r.totalPieces == t.totalPieces
  {
  }

  /**
   * Locking a piece that clears `count` lines keeps the counters consistent and
   * never lowers the level or the records; it counts one piece and the lines.
   */
  lemma LockKeepsOrder(t: Tally, count: nat)
    requires Consistent(t)
    ensures var r := LinesCleared(PiecePlaced(t), count);
      && Consistent(r)
      && t.level <= r.level && t.highScore <= r.highScore && t.highLevel <= r.highLevel
      && r.totalPieces == t.totalPieces + 1
      && r.linesThisGame == t.linesThisGame + count && r.totalLines == t.totalLines + count
  {
    var placed := PiecePlaced(t);
    if count > 0 {
      var counted := placed.(linesThisGame := placed.linesThisGame + count, totalLines := placed.totalLines + count);
      ScoredKeepsOrder(counted, LinePointsFor(count) * t.level);
    }
  }

  /**
   * Clearing one to four lines always scores (the level is at least 1), and the
   * level becomes the larger of the old level and the level the new score earns.
   */
  lemma LineClearScores(t: Tally, count: int)
    requires Consistent(t) && 1 <= count <= 4
    ensures var r := LinesCleared(t, count);
      && r.score == t.score + LinePoints[count] * t.level > t.score
      && r.level == Max(t.level, LevelForScore(r.score))
  {
    assert LinePoints[count] * t.level >= LinePoints[count] > 0;
  }

  /** A hard-drop bonus keeps the counters consistent and never lowers the level or the records. */
  lemma BonusKeepsOrder(t: Tally, distance: int)
    requires Consistent(t)
    ensures var r := BonusScored(t, distance);
      && Consistent(r)
      && t.level <= r.level && t.highScore <= r.highScore && t.highLevel <= r.highLevel
      && r.score == t.score + (if distance > 0 then distance * HardDropBonusMultiplier else 0)
  {
    if distance > 0 {
      ScoredKeepsOrder(t, distance * HardDropBonusMultiplier);
    }
  }

  /** A new game starts from consistent counters and keeps every lifetime value. */
  lemma NewGameConsistent(t: Tally)
    requires Consistent(t)
    ensures var r := NewGame(t);
      && Consistent(r) && r.score == 0 && r.level == 1 && r.linesThisGame == 0
      && r.highScore == t.highScore && r.highLevel == t.highLevel
      && r.totalLines == t.totalLines && r.totalPieces == t.totalPieces
  {
  }

  class GameStats {
    var score: int
    var level: int
    var linesThisGame: int
    var highScore: int
    var highLevel: int
    var totalLines: int
    var totalPieces: int

    /** The level is at least 1 and never below what the score earns; the best level is at least the current one; counters are not negative. */
    ghost predicate Valid()
      reads this
    {
      Consistent(Snapshot())
    }

    /** The counters as a value. */
    function Snapshot(): Tally
      reads this
    {
      Tally(score, level, linesThisGame, highScore, highLevel, totalLines, totalPieces)
    }

    /**
     * constructor with #loadPersistentValues: a fresh game at score 0 and level 1.
     * A stored value that is missing or not a number (None) keeps its default;
     * the best level is raised to at least 1 and the totals to at least 0, while
     * the high score is taken as stored.
     */
    constructor (storedHighScore: Option<int>, storedHighLevel: Option<int>, storedTotalLines: Option<int>, storedTotalPieces: Option<int>)
      ensures Valid()
      ensures score == 0 && level == 1 && linesThisGame == 0
      ensures highScore == LoadedOr(storedHighScore, 0, None)
      ensures highLevel == LoadedOr(storedHighLevel, 1, Some(1))
      ensures totalLines == LoadedOr(storedTotalLines, 0, Some(0))
      ensures totalPieces == LoadedOr(storedTotalPieces, 0, Some(0))
    {
      score := 0;
      level := 1;
      linesThisGame := 0;
      highScore := 0;
      highLevel := 1;
      totalLines := 0;
      totalPieces := 0;
      if storedHighScore.Some? {
        highScore := storedHighScore.value;
      }
      if storedHighLevel.Some? {
        highLevel := Max(1, storedHighLevel.value);
      }
      if storedTotalLines.Some? {
        totalLines := Max(0, storedTotalLines.value);
      }
      if storedTotalPieces.Some? {
        totalPieces := Max(0, storedTotalPieces.value);
      }
    }

    /** resetForNewGame: score 0, level 1, no lines this game; the lifetime counters are kept. */
    method ResetForNewGame()
      requires Valid()
      modifies this
      ensures Valid()
      ensures score == 0 && level == 1 && linesThisGame == 0
      ensures highScore == old(highScore) && highLevel == old(highLevel)
      ensures totalLines == old(totalLines) && totalPieces == old(totalPieces)
      ensures Snapshot() == NewGame(old(Snapshot()))
    {
      score := 0;
      level := 1;
      linesThisGame := 0;
    }

    /** getDropInterval: the fall interval of the current level. */
    function GetDropInterval(): (d: int)
      reads this
      requires Valid()
      ensures MinDropInterval <= d <= InitialDropInterval
      ensures d == DropInterval(level)
    {
      DropInterval(level)
    }

    /** #checkHighScore: the high score becomes the current score when that beats it. */
    method CheckHighScore()
      modifies this
      ensures highScore == Max(old(highScore), score)
      ensures score == old(score) && level == old(level) && linesThisGame == old(linesThisGame)
      ensures highLevel == old(highLevel) && totalLines == old(totalLines) && totalPieces == old(totalPieces)
    {
      if score <= highScore {
        return;
      }
      highScore := score;
    }

    /** #checkLevelUp: the level rises to what the score earns, never falls, and the best level follows it up. */
    method CheckLevelUp()
      modifies this
      ensures level == Max(old(level), LevelForScore(score))
      ensures level > old(level) ==> highLevel == Max(old(highLevel), level)
      ensures level == old(level) ==> highLevel == old(highLevel)
      ensures score == old(score) && linesThisGame == old(linesThisGame) && highScore == old(highScore)
      ensures totalLines == old(totalLines) && totalPieces == old(totalPieces)
    {
      var targetLevel := score / LevelScoreThreshold + 1;
      if targetLevel <= level {
        return;
      }
      level := targetLevel;
      if level > highLevel {
        highLevel := level;
      }
    }

    /**
     * addScore: zero points change nothing; otherwise the score grows by exactly
     * `points`, the high score and the level catch up with it, and neither of
     * them ever decreases.
     */
    method AddScore(points: int)
      requires Valid()
      modifies this
      ensures Valid()
      ensures points == 0 ==> score == old(score) && level == old(level) && highScore == old(highScore) && highLevel == old(highLevel)
      ensures points != 0 ==> score == old(score) + points
      ensures points != 0 ==> highScore == Max(old(highScore), score)
      ensures points != 0 ==> level == Max(old(level), LevelForScore(score))
      ensures highLevel == Max(old(highLevel), level)
      ensures old(level) <= level && old(highScore) <= highScore
      ensures GetDropInterval() <= old(GetDropInterval())
      ensures linesThisGame == old(linesThisGame) && totalLines == old(totalLines) && totalPieces == old(totalPieces)
      ensures Snapshot() == Scored(old(Snapshot()), points)
    {
      if points == 0 {
        return;
      }
      score := score + points;
      CheckHighScore();
      CheckLevelUp();
      DropIntervalNonIncreasing(old(level), level);
    }

    /** addHardDropBonus: a positive distance scores that many rows times the bonus multiplier; anything else scores nothing. */
    method AddHardDropBonus(distance: int)
      requires Valid()
      modifies this
      ensures Valid()
      ensures distance <= 0 ==> score == old(score) && level == old(level) && highScore == old(highScore) && highLevel == old(highLevel)
      ensures distance > 0 ==> score == old(score) + distance * HardDropBonusMultiplier
      ensures distance > 0 ==> highScore == Max(old(highScore), score) && level == Max(old(level), LevelForScore(score))
      ensures highLevel == Max(old(highLevel), level)
      ensures linesThisGame == old(linesThisGame) && totalLines == old(totalLines) && totalPieces == old(totalPieces)
      ensures Snapshot() == BonusScored(old(Snapshot()), distance)
    {
      if distance <= 0 {
        return;
      }
      var bonus := distance * HardDropBonusMultiplier;
      AddScore(bonus);
    }

    /** recordPiecePlaced: one more piece in the lifetime count, nothing else. */
    method RecordPiecePlaced()
      requires Valid()
      modifies this
      ensures Valid()
      ensures totalPieces == old(totalPieces) + 1
      ensures score == old(score) && level == old(level) && linesThisGame == old(linesThisGame)
      ensures highScore == old(highScore) && highLevel == old(highLevel) && totalLines == old(totalLines)
      ensures Snapshot() == PiecePlaced(old(Snapshot()))
    {
      totalPieces := totalPieces + 1;
    }

    /**
     * recordLinesCleared: a count that is not positive changes nothing. Otherwise
     * both line counters grow by `count` and the score by the table's points for
     * `count` times the level before the score changes (0 beyond four lines).
     */
    method RecordLinesCleared(count: int)
      requires Valid()
      modifies this
      ensures Valid()
      ensures count <= 0 ==> score == old(score) && level == old(level) && linesThisGame == old(linesThisGame) && totalLines == old(totalLines)
      ensures count <= 0 ==> highScore == old(highScore) && highLevel == old(highLevel)
      ensures count > 0 ==> linesThisGame == old(linesThisGame) + count && totalLines == old(totalLines) + count
      ensures count > 0 ==> score == old(score) + LinePointsFor(count) * old(level)
      ensures count > 0 && LinePointsFor(count) != 0 ==>
        highScore == Max(old(highScore), score) && level == Max(old(level), LevelForScore(score))
      ensures LinePointsFor(count) == 0 ==> score == old(score) && highScore == old(highScore) && level == old(level)
      ensures highLevel == Max(old(highLevel), level)
      ensures totalPieces == old(totalPieces)
      ensures Snapshot() == LinesCleared(old(Snapshot()), count)
    {
      if count <= 0 {
        return;
      }
      linesThisGame := linesThisGame + count;
      totalLines := totalLines + count;
      var linePoints := LinePointsFor(count);
      AddScore(linePoints * level);
    }
  }
}
