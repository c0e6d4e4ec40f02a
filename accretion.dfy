/** The accretion-tube model: the compact object swallows the stellar matter in
    the cylinder its capture disc sweeps along its path during one step. */
module Accretion {
  import opened Vectors
  import opened Utils

  /** The double-precision value of pi that the numeric library supplies. */
  const Pi: real := 3.141592653589793

  /** 2 G m / c^2, m: used only as the length scale of the capture disc. */
  function SchwarzschildRadius(mass: real): (rs: real)
    ensures 0.0 <= mass ==> 0.0 <= rs
    ensures mass == 0.0 <==> rs == 0.0
  {
    2.0 * G * mass / (C * C)
  }

  /** Area of the capture disc, m^2, whose radius is k Schwarzschild radii. */
  function DiscSurface(k: real, rs: real): (area: real)
    ensures 0.0 <= area
  {
    Pi * (k * rs) * (k * rs)
  }

  /** Mass, kg, taken in over one step of dt seconds by an object of the given
      mass at position pos (solar radii) moving with velocity vel (m/s): the
      local density times the volume the capture disc sweeps. */
  function EatenMass(p: Profile, norm: Vec -> real, pos: Vec, vel: Vec, mass: real, k: real, dt: real): (e: real)
    requires p.Valid() && IsNorm(norm)
    ensures p.Surface() <= norm(pos) ==> e == 0.0
    ensures vel == Origin || dt == 0.0 || mass == 0.0 ==> e == 0.0
    ensures NonNegDensities(p) && 0.0 <= dt ==> 0.0 <= e
  {
    var rs := SchwarzschildRadius(mass);
    var disc := DiscSurface(k, rs);
    var volume := disc * dt * norm(vel);
    NonNegProduct(Density(p, norm(pos)), disc, dt, norm(vel));
    Density(p, norm(pos)) * volume
  }

  /** Arithmetic helper: sign and zero facts of a four-factor product. */
  lemma NonNegProduct(a: real, b: real, c: real, d: real)
    ensures 0.0 <= a && 0.0 <= b && 0.0 <= c && 0.0 <= d ==> 0.0 <= a * (b * c * d)
    ensures a == 0.0 || b == 0.0 || c == 0.0 || d == 0.0 ==> a * (b * c * d) == 0.0
  {
    if 0.0 <= a && 0.0 <= b && 0.0 <= c && 0.0 <= d {
      assert 0.0 <= b * c;
      assert 0.0 <= b * c * d;
    }
  }
}
