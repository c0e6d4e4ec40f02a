/** The stellar interior model and the gravity law derived from it: step-function
    lookups of density and enclosed mass fraction over a sorted profile table,
    and the shell-theorem acceleration with a one-metre softening term. */
module Utils {
  import opened Vectors
  import opened Bisect

  /** Solar mass, kg. */
  const MSun: real := 1.99e30
  /** Solar radius, m. */
  const RSun: real := 6.96e8
  /** Newtonian constant of gravitation, m^3 kg^-1 s^-2. */
  const G: real := 6.6743e-11
  /** Speed of light, m/s. */
  const C: real := 299792458.0
  /** Softening length added to the distance in the gravity law, m. */
  const Epsilon: real := 1.0

  /** The stellar profile: radius fractions with parallel columns of density
      (g/cm^3, as stored) and enclosed mass fraction. Rows are read by position. */
  datatype Profile = Profile(radii: seq<real>, rho: seq<real>, massFrac: seq<real>) {

    /** A table the lookups can work on: at least one row, parallel columns,
        radii in ascending order (what bisect_left needs). */
    ghost predicate Valid() {
      && 0 < |radii|
      && |rho| == |radii|
      && |massFrac| == |radii|
      && Sorted(radii)
    }

    /** The outermost tabulated radius fraction: the surface of the star. */
    function Surface(): real
      requires 0 < |radii|
    {
      radii[|radii| - 1]
    }
  }

  ghost predicate NonNegDensities(p: Profile) {
    forall i :: 0 <= i < |p.rho| ==> 0.0 <= p.rho[i]
  }

  ghost predicate MassFracsInUnit(p: Profile) {
    forall i :: 0 <= i < |p.massFrac| ==> 0.0 <= p.massFrac[i] <= 1.0
  }

  ghost predicate MassFracsMonotone(p: Profile) {
    forall i, j :: 0 <= i <= j < |p.massFrac| ==> p.massFrac[i] <= p.massFrac[j]
  }

  /** Density in kg/m^3 at radius fraction r: zero at or beyond the surface,
      otherwise the stored density of the bisect_left row, times 1000. */
  function Density(p: Profile, r: real): (d: real)
    requires p.Valid()
    ensures p.Surface() <= r ==> d == 0.0
    ensures NonNegDensities(p) ==> 0.0 <= d
  {
    if r >= p.Surface() then 0.0
    else
      var i := BisectLeft(p.radii, r);
      p.rho[i] * 1000.0
  }

  /** Inside the star, density is constant on each step (radii[i-1], radii[i]]
      and equals the row at its upper end: no interpolation. */
  lemma DensityOnStep(p: Profile, r: real, i: int)
    requires p.Valid() && 0 <= i < |p.radii|
    requires (i == 0 || p.radii[i - 1] < r) && r <= p.radii[i] && r < p.Surface()
    ensures Density(p, r) == 1000.0 * p.rho[i]
  {
    BisectInStep(p.radii, r, i);
  }

  /** A query on a tabulated radius (of a table with distinct radii) below the
      surface reads that radius's own row. */
  lemma DensityAtRow(p: Profile, i: int)
    requires p.Valid() && StrictlySorted(p.radii) && 0 <= i < |p.radii| - 1
    ensures Density(p, p.radii[i]) == 1000.0 * p.rho[i]
  {
    BisectExactHit(p.radii, i);
  }

  /** Enclosed mass fraction at radius fraction r: one at or beyond the
      surface, zero on the innermost row, otherwise the stored fraction of
      the bisect_left row. */
  function MassFraction(p: Profile, r: real): (m: real)
    requires p.Valid()
    ensures p.Surface() <= r ==> m == 1.0
    ensures r < p.Surface() && r <= p.radii[0] ==> m == 0.0
    ensures MassFracsInUnit(p) ==> 0.0 <= m <= 1.0
  {
    if r >= p.Surface() then 1.0
    else
      var i := BisectLeft(p.radii, r);
      if i == 0 then 0.0 else p.massFrac[i]
  }

  /** Inside the star and above the innermost row, the mass fraction is that
      of the row at the upper end of the step containing r. */
  lemma MassFractionOnStep(p: Profile, r: real, i: int)
    requires p.Valid() && 1 <= i < |p.radii|
    requires p.radii[i - 1] < r <= p.radii[i] && r < p.Surface()
    ensures MassFraction(p, r) == p.massFrac[i]
  {
    BisectInStep(p.radii, r, i);
  }

  /** With a non-decreasing mass column inside [0, 1], the enclosed mass
      fraction never decreases outwards. */
  lemma MassFractionMonotone(p: Profile, r1: real, r2: real)
    requires p.Valid() && MassFracsInUnit(p) && MassFracsMonotone(p)
    requires r1 <= r2
    ensures MassFraction(p, r1) <= MassFraction(p, r2)
  {
    if r2 < p.Surface() {
      BisectMonotone(p.radii, r1, r2);
    }
  }

  /** A three-row table: a query between two radii reads the outer row, a
      query beyond the surface sees all the mass, and the innermost step
      reports no enclosed mass even though its row stores some. */
  lemma ThreeRowTable()
    ensures var p := Profile([0.1, 0.5, 1.0], [100.0, 10.0, 1.0], [0.01, 0.5, 1.0]);
            && p.Valid()
            && Density(p, 0.3) == 10000.0
            && MassFraction(p, 0.3) == 0.5
            && MassFraction(p, 1.5) == 1.0
            && MassFraction(p, 0.1) == 0.0
  {
    var p := Profile([0.1, 0.5, 1.0], [100.0, 10.0, 1.0], [0.01, 0.5, 1.0]);
    DensityOnStep(p, 0.3, 1);
    MassFractionOnStep(p, 0.3, 1);
  }

  /** Magnitude of the gravitational acceleration, m/s^2, at radius fraction
      r: only the mass enclosed by r pulls, as if concentrated at the centre,
      at the distance r * RSun softened by Epsilon. */
  function Strength(p: Profile, r: real): (s: real)
    requires p.Valid() && 0.0 <= r
    ensures s == 0.0 <==> MassFraction(p, r) == 0.0
    ensures 0.0 <= MassFraction(p, r) ==> 0.0 <= s <= G * MassFraction(p, r) * MSun / (Epsilon * Epsilon)
  {
    var massCore := MassFraction(p, r) * MSun;
    var d := r * RSun + Epsilon;
    SofteningBound(G * massCore, d);
    G * massCore / (d * d)
  }

  /** Arithmetic helper for Strength: dividing a non-negative quantity by the
      square of a distance no shorter than the softening length cannot exceed
      dividing by the softening length's square. */
  lemma SofteningBound(q: real, d: real)
    requires Epsilon <= d
    ensures q == 0.0 <==> q / (d * d) == 0.0
    ensures 0.0 <= q ==> 0.0 <= q / (d * d) <= q / (Epsilon * Epsilon)
  {
    assert 1.0 <= d * d;
  }

  /** Gravitational acceleration, m/s^2, at a position in solar radii: the
      unit vector towards the centre times the strength. The origin is
      excluded: the direction there is 0/0. */
  function Acceleration(p: Profile, norm: Vec -> real, pos: Vec): (a: Vec)
    requires p.Valid() && IsNorm(norm) && pos != Origin
    ensures a.x * pos.y == a.y * pos.x
    ensures 0.0 <= MassFraction(p, norm(pos)) ==>
              (exists f :: f <= 0.0 && a == Scale(pos, f)) && norm(a) == Strength(p, norm(pos))
    ensures MassFraction(p, norm(pos)) == 0.0 ==> a == Origin
  {
    var r := norm(pos);
    var s := Strength(p, r);
    PullMagnitude(norm, pos, r, s);
    Scale(pos, -s / r)
  }

  /** Scaling a vector of length r by -s/r gives length |s|, along the line
      through the vector, pointing back towards the origin when s >= 0. */
  lemma PullMagnitude(norm: Vec -> real, pos: Vec, r: real, s: real)
    requires IsNorm(norm) && r == norm(pos) && pos != Origin
    ensures 0.0 < r
    ensures norm(Scale(pos, -s / r)) == Abs(s)
    ensures Scale(pos, -s / r).x * pos.y == Scale(pos, -s / r).y * pos.x
    ensures 0.0 <= s ==> exists f :: f <= 0.0 && Scale(pos, -s / r) == Scale(pos, f)
    ensures s == 0.0 ==> Scale(pos, -s / r) == Origin
  {
    var f := -s / r;
    assert norm(Scale(pos, f)) == Abs(f) * r;
    assert Abs(f) * r == Abs(s);
    if 0.0 <= s {
      assert f <= 0.0;
    }
  }
}
