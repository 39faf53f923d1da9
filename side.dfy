/** The direction selector that lets the AVL code talk about "this side" and
    "the other side" without duplicating every case. */
module Sides {
  datatype Side = Left | Right

  /** The `!` operator on a side. */
  function Opposite(s: Side): (r: Side)
    ensures r != s
  {
    match s
    case Left => Right
    case Right => Left
  }
}
