/**
 * Data.java: the payload of a word, the list of positions at which the word
 * occurs in the source text. The list starts with one position and only grows.
 */
module Positions {

  class Data {
    var positions: seq<int>

    /** The position list is never empty. */
    predicate NonEmpty()
      reads this
    {
      |positions| > 0
    }

    /** `new Data(pos)`: the list is exactly `[pos]`. */
    constructor (pos: int)
      ensures positions == [pos]
      ensures NonEmpty()
    {
      positions := [pos];
    }

    /** `getPosition()`: the current position list. */
    method GetPosition() returns (p: seq<int>)
      requires NonEmpty()
      ensures p == positions
      ensures |p| > 0
    {
      p := positions;
    }

    /**
     * `addPosition(pos)`: appends `pos`; the earlier positions keep their
     * values and their order, and the list stays non-empty.
     */
    method AddPosition(pos: int)
      modifies this
      ensures positions == old(positions) + [pos]
      ensures |positions| == |old(positions)| + 1
      ensures positions[..|old(positions)|] == old(positions)
      ensures NonEmpty()
    {
      positions := positions + [pos];
    }
  }
}
