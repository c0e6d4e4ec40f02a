/** Two-dimensional vectors over the reals, and the abstract norm and square root
    that the simulation takes from its numeric library. */
module Vectors {

  datatype Vec = Vec(x: real, y: real)

  const Origin := Vec(0.0, 0.0)

  function Add(u: Vec, v: Vec): Vec {
    Vec(u.x + v.x, u.y + v.y)
  }

  function Scale(v: Vec, c: real): Vec {
    Vec(v.x * c, v.y * c)
  }

  function Abs(c: real): real {
    if c < 0.0 then -c else c
  }

  /** What the model relies on about the Euclidean norm: it is non-negative,
      zero exactly at the origin, and absolutely homogeneous. */
  ghost predicate IsNorm(norm: Vec -> real) {
    && (forall v :: 0.0 <= norm(v) && (norm(v) == 0.0 <==> v == Origin))
    && (forall v, c :: norm(Scale(v, c)) == Abs(c) * norm(v))
  }

  /** What the model relies on about the square root: it is non-negative on
      non-negative arguments and zero at zero. */
  ghost predicate IsSqrt(sqrt: real -> real) {
    && sqrt(0.0) == 0.0
    && (forall x :: 0.0 <= x ==> 0.0 <= sqrt(x))
  }
}
