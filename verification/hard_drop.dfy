/**
 * The hard-drop helpers of js/hard-drop.js: recognising the hard-drop key,
 * measuring how far a piece can fall, and applying that fall.
 */
module HardDrop {
  import opened Wrappers
  import opened Blocks

  /** The physical key code that triggers a hard drop. */
  const HardDropCodes: set<string> := {"KeyQ"}
  /** The key values that trigger a hard drop. */
  const HardDropKeys: set<string> := {"q", "Q"}

  /** isHardDropKey: a key event (its code and key) asks for a hard drop. */
  function IsHardDropKey(code: string, key: string): (r: bool)
    ensures r <==> code == "KeyQ" || key == "q" || key == "Q"
  {
    code in HardDropCodes || key in HardDropKeys
  }

  /**
   * calculateHardDropDistance: the number of one-row offsets, counted from 1,
   * that `validator` accepts in a row. Without a piece the distance is 0. With
   * one, the source loops until the validator refuses, so a refused offset must
   * exist for the loop to end.
   */
  method CalculateHardDropDistance(piece: Option<Piece>, validator: int -> bool) returns (d: nat)
    requires piece.Some? ==> exists n :: n >= 1 && !validator(n)
    ensures piece.None? ==> d == 0
    ensures piece.Some? ==> (forall k :: 1 <= k <= d ==> validator(k)) && !validator(d + 1)
  {
    if piece.None? {
      return 0;
    }
    ghost var stop :| stop >= 1 && !validator(stop);
    var offset: nat := 0;
    while validator(offset + 1)
      invariant forall k :: 1 <= k <= offset ==> validator(k)
      invariant offset < stop
      decreases stop - offset
    {
      offset := offset + 1;
    }
    d := offset;
  }

  /** The hard-drop distance is determined: one number has all offsets up to it accepted and the next refused. */
  lemma HardDropDistanceUnique(validator: int -> bool, d: nat, e: nat)
    requires forall k :: 1 <= k <= d ==> validator(k)
    requires !validator(d + 1)
    requires forall k :: 1 <= k <= e ==> validator(k)
    requires !validator(e + 1)
    ensures d == e
  {
    assert d < e ==> validator(d + 1);
    assert e < d ==> validator(e + 1);
  }

  /**
   * applyHardDrop: move the piece down by `distance` rows. Without a piece, or
   * for a distance that is not positive, nothing happens. The source updates the
   * piece in place; here the updated piece is the result.
   */
  function ApplyHardDrop(piece: Option<Piece>, distance: int): (r: Option<Piece>)
    ensures piece.None? || distance <= 0 ==> r == piece
    ensures piece.Some? && distance > 0 ==>
      && r.Some?
      && r.value.y == piece.value.y + distance
      && r.value.tag == piece.value.tag && r.value.shape == piece.value.shape && r.value.x == piece.value.x
  {
    if piece.None? || distance <= 0 then piece
    else Some(piece.value.(y := piece.value.y + distance))
  }

  /** Dropping by a then by b lands where dropping by a + b does, for positive distances. */
  lemma ApplyHardDropAdds(piece: Option<Piece>, a: int, b: int)
    requires a > 0 && b > 0
    ensures ApplyHardDrop(ApplyHardDrop(piece, a), b) == ApplyHardDrop(piece, a + b)
  {
  }
}
