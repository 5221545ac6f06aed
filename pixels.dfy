/** Shared vocabulary of both drawing classes: colours, integer points and
    the few integer helpers the rasterisers use. */
module Pixels {

  /** An RGB triple. The source stores whatever tuple it is given and never
      checks the channels, so they are unbounded here. */
  datatype Color = RGB(red: int, green: int, blue: int)

  /** Default drawing colour of the initial version's methods. */
  const Black := RGB(0, 0, 0)

  /** Default background colour of the initial version's constructor. */
  const White := RGB(255, 255, 255)

  /** An integer coordinate pair: a pixel address or a stored point. */
  datatype Point = Point(x: int, y: int)

  /** A stored segment of the wireframe model. */
  datatype Edge = Edge(start: Point, stop: Point)

  /** A field the source may not have assigned yet. */
  datatype Option<T> = None | Some(value: T)

  function Abs(n: int): nat {
    if n < 0 then -n else n
  }

  function Max(a: int, b: int): int {
    if a < b then b else a
  }

  function Min(a: int, b: int): int {
    if a < b then a else b
  }

  /** Python's `range(n)` is empty for a negative n: the number of cells a
      dimension `n` yields. */
  function RangeLen(n: int): nat {
    if n < 0 then 0 else n
  }

  /** `m` lies on the closed integer interval between `a` and `b`, in either order. */
  predicate Between(a: int, m: int, b: int) {
    Min(a, b) <= m <= Max(a, b)
  }
}
