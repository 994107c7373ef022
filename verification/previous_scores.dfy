/**
 * The list of previous final scores (js/previous-scores.js), most recent first
 * and at most `MaxScoreHistory` long. Rendering and the write-back to local
 * storage are not modelled.
 */
module PreviousScores {
  import opened Settings

  /** One finished game: its final score and the (locale-formatted) date it ended. */
  datatype Entry = Entry(score: int, date: string)

  /** What the stored history turns out to be when it is read back. */
  datatype Stored =
    | Missing                     // no stored value, or an empty one
    | Unparseable                 // not valid JSON
    | NotArray                    // valid JSON, but not an array
    | Array(items: seq<Entry>)    // a JSON array

  /** #loadFromStorage: the stored array cut to its first `MaxScoreHistory` entries, or an empty history. */
  function HistoryFromStorage(stored: Stored): (h: seq<Entry>)
    ensures !stored.Array? ==> h == []
    ensures stored.Array? ==> h <= stored.items && |h| == Min(|stored.items|, MaxScoreHistory)
  {
    match stored
    case Array(items) => if |items| <= MaxScoreHistory then items else items[..MaxScoreHistory]
    case _ => []
  }

  class ScoreHistory {
    var history: seq<Entry>

    ghost predicate Valid()
      reads this
    {
      |history| <= MaxScoreHistory
    }

    constructor (stored: Stored)
      ensures Valid()
      ensures history == HistoryFromStorage(stored)
    {
      history := HistoryFromStorage(stored);
    }

    /**
     * add: put the new entry first and drop the oldest entries beyond
     * `MaxScoreHistory`. The date comes from the clock in the source and is a
     * parameter here.
     */
    method Add(score: int, date: string)
      requires Valid()
      modifies this
      ensures Valid()
      ensures |history| == Min(|old(history)| + 1, MaxScoreHistory)
      ensures history[0] == Entry(score, date)
      ensures history[1..] <= old(history)
    {
      var entry := Entry(score, date);
      history := [entry] + history;
      if |history| > MaxScoreHistory {
        history := history[..MaxScoreHistory];
      }
    }
  }
}
