/**
 * The blocks of the tower: their geometry constants and the rule that picks
 * a block's width from one random draw.
 */
module Blocks {

  /** A pixel coordinate on the drawing surface. */
  datatype Point = Point(x: int, y: int)

  /** A block: its top-left corner (x, y) and its size. */
  datatype TowerBlock = TowerBlock(x: int, y: int, width: int, height: int)

  /** The point every peg's stack is laid out from. */
  const ORIGIN: Point := Point(50, 120)

  /** The height of every block; one more pixel separates two stacked blocks. */
  const BLOCK_HEIGHT: int := 9

  /** The horizontal distance between two neighbouring pegs. */
  const STACK_WIDTH: int := 100

  /** The widest block the drawing code leaves room for. */
  const MAX_BLOCK_WIDTH: int := 90

  /** The number of equally likely widths a random draw chooses from. */
  const WIDTH_CHOICES: int := 16

  /** The widths the width rule can produce: 9, 15, 19, 25, ..., 79, 85. */
  predicate IsBlockWidth(w: int) {
    9 <= w <= 85 && (w % 10 == 5 || w % 10 == 9)
  }

  /**
   * getRandomBlockWidth, given the draw k = floor(16 * random): the candidate
   * 10 + 5k, made odd by taking one off an even candidate.
   */
  function RandomBlockWidth(k: int): (w: int)
    requires 0 <= k < WIDTH_CHOICES
    ensures w % 2 == 1
    ensures 9 <= w <= 85 < MAX_BLOCK_WIDTH
    ensures 10 + 5 * k - 1 <= w <= 10 + 5 * k
  {
    var candidate := 10 + k * 5;
    if candidate % 2 == 0 then candidate - 1 else candidate
  }

  /** Two different draws give widths at least four pixels apart. */
  lemma WidthsDistinguishable(k1: int, k2: int)
    requires 0 <= k1 < k2 < WIDTH_CHOICES
    ensures RandomBlockWidth(k1) + 4 <= RandomBlockWidth(k2)
  {
  }

  /** The width rule produces exactly the widths IsBlockWidth admits. */
  lemma BlockWidthsExactly(w: int)
    ensures (exists k :: 0 <= k < WIDTH_CHOICES && RandomBlockWidth(k) == w) <==> IsBlockWidth(w)
  {
    if k :| 0 <= k < WIDTH_CHOICES && RandomBlockWidth(k) == w {
      RandomBlockWidthIsBlockWidth(k);
    }
    if IsBlockWidth(w) {
      var k := if w % 10 == 9 then (w - 9) / 5 else (w - 10) / 5;
      assert RandomBlockWidth(k) == w;
    }
  }

  /** Every width the rule produces is one IsBlockWidth admits. */
  lemma RandomBlockWidthIsBlockWidth(k: int)
    requires 0 <= k < WIDTH_CHOICES
    ensures IsBlockWidth(RandomBlockWidth(k))
  {
  }
}
