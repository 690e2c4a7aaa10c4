/** Integer cells of the square board and the five headings the snake can have. */
module Grid {

  /** A board cell, or a heading offset; both are pairs of integers. */
  datatype Vec = Vec(x: int, y: int)

  function Add(a: Vec, b: Vec): Vec {
    Vec(a.x + b.x, a.y + b.y)
  }

  function Opposite(d: Vec): Vec {
    Vec(-d.x, -d.y)
  }

  /** The heading of a snake that has not started yet. */
  const Zero := Vec(0, 0)
  /** "Up" decreases y and "down" increases it: the origin is the top-left cell. */
  const Up := Vec(0, -1)
  const Down := Vec(0, 1)
  const Left := Vec(-1, 0)
  const Right := Vec(1, 0)

  predicate IsUnit(d: Vec) {
    d == Up || d == Down || d == Left || d == Right
  }

  predicate IsHeading(d: Vec) {
    d == Zero || IsUnit(d)
  }

  /** Cell `c` lies on an `n` by `n` board. */
  predicate InBounds(c: Vec, n: int) {
    0 <= c.x < n && 0 <= c.y < n
  }

  /** `b` is one of the four neighbours of `a`. */
  predicate Adjacent(a: Vec, b: Vec) {
    IsUnit(Vec(b.x - a.x, b.y - a.y))
  }

  /** Consecutive segments of a body are neighbours. */
  predicate Contiguous(s: seq<Vec>) {
    forall i :: 0 <= i < |s| - 1 ==> Adjacent(s[i], s[i + 1])
  }

  predicate AllInBounds(s: seq<Vec>, n: int) {
    forall i :: 0 <= i < |s| ==> InBounds(s[i], n)
  }
}
