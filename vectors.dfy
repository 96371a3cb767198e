/** The two-dimensional value type `Vec` and the rounding used by the grid query. */
module Vectors {

  /** A position, size or speed. Every operation builds a new value. */
  datatype Vec = Vec(x: real, y: real) {

    /** Component-wise sum (`Vec.plus`). */
    function Plus(other: Vec): (r: Vec)
      ensures r.x - other.x == x && r.y - other.y == y
    {
      Vec(x + other.x, y + other.y)
    }

    /** Component-wise scaling (`Vec.times`). */
    function Times(factor: real): (r: Vec)
      ensures factor == 0.0 ==> r == Vec(0.0, 0.0)
      ensures factor == 1.0 ==> r == this
    {
      Vec(x * factor, y * factor)
    }
  }

  /** Scaling by -1 twice gives back the vector: a bouncing hazard's speed alternates. */
  lemma NegateTwice(v: Vec)
    ensures v.Times(-1.0).Times(-1.0) == v
    ensures v.Times(-1.0).Plus(v) == Vec(0.0, 0.0)
  {
  }

  /** `Math.floor`: the greatest integer not above `r`. */
  function Floor(r: real): (f: int)
    ensures f as real <= r < f as real + 1.0
  {
    r.Floor
  }

  /** `Math.ceil`: the least integer not below `r`. */
  function Ceil(r: real): (c: int)
    ensures c as real - 1.0 < r <= c as real
  {
    -((-r).Floor)
  }
}
