/** The analytical sweep: for every tabulated radius, the mass a body on a
    circular orbit there would sweep up per second and per square metre of
    capture disc; the radius where that rate peaks; and the eaten mass per
    second there for a given object. */
module Calculations {
  import opened Vectors
  import opened Utils
  import opened Accretion

  /** Circular-orbit speed, m/s, at radius fraction r, from the mass enclosed by r. */
  function OrbitalSpeed(p: Profile, sqrt: real -> real, r: real): (v: real)
    requires p.Valid() && IsSqrt(sqrt) && 0.0 < r
    ensures 0.0 <= MassFraction(p, r) ==> 0.0 <= v
    ensures MassFraction(p, r) == 0.0 ==> v == 0.0
  {
    var massCore := MassFraction(p, r) * MSun;
    NonNegQuotient(G * massCore, r * RSun);
    sqrt(G * massCore / (r * RSun))
  }

  /** Arithmetic helper: sign and zero facts of a quotient. */
  lemma NonNegQuotient(a: real, b: real)
    requires 0.0 < b
    ensures 0.0 <= a ==> 0.0 <= a / b
    ensures a == 0.0 ==> a / b == 0.0
  {
  }

  /** Mass swept up per second per square metre of disc, kg/(s m^2), on a
      circular orbit at radius fraction r. Zero outside the star (no matter)
      and on or below the innermost row (no enclosed mass, so no speed). */
  function Consumption(p: Profile, sqrt: real -> real, r: real): (c: real)
    requires p.Valid() && IsSqrt(sqrt) && 0.0 < r
    ensures NonNegDensities(p) && MassFracsInUnit(p) ==> 0.0 <= c
    ensures p.Surface() <= r ==> c == 0.0
    ensures r <= p.radii[0] ==> c == 0.0
  {
    Density(p, r) * OrbitalSpeed(p, sqrt, r)
  }

  /** The consumption rate at every tabulated radius, in table order. */
  method OrbitalConsumptions(p: Profile, sqrt: real -> real) returns (consumptions: seq<real>)
    requires p.Valid() && IsSqrt(sqrt) && 0.0 < p.radii[0]
    ensures |consumptions| == |p.radii|
    ensures forall i :: 0 <= i < |p.radii| ==> consumptions[i] == Consumption(p, sqrt, p.radii[i])
    ensures consumptions[0] == 0.0 && consumptions[|p.radii| - 1] == 0.0
    ensures NonNegDensities(p) && MassFracsInUnit(p) ==>
              forall i :: 0 <= i < |consumptions| ==> 0.0 <= consumptions[i]
  {
    assert forall j :: 0 <= j < |p.radii| ==> p.radii[0] <= p.radii[j];
    consumptions := [];
    for i := 0 to |p.radii|
      invariant |consumptions| == i
      invariant forall j :: 0 <= j < i ==> consumptions[j] == Consumption(p, sqrt, p.radii[j])
    {
      var consumptionPerSecPerM2 := Consumption(p, sqrt, p.radii[i]);
      consumptions := consumptions + [consumptionPerSecPerM2];
    }
    assert consumptions[0] == Consumption(p, sqrt, p.radii[0]);
    assert consumptions[|p.radii| - 1] == Consumption(p, sqrt, p.radii[|p.radii| - 1]);
  }

  /** Index of the largest entry, the first one on ties (numpy's argmax). */
  function ArgMax(s: seq<real>): (i: nat)
    requires 0 < |s|
    ensures i < |s|
    ensures forall j :: 0 <= j < |s| ==> s[j] <= s[i]
    ensures forall j :: 0 <= j < i ==> s[j] < s[i]
    decreases |s|
  {
    if |s| == 1 then 0
    else
      var i := ArgMax(s[..|s| - 1]);
      if s[i] < s[|s| - 1] then |s| - 1 else i
  }

  /** On a curve that rises strictly to index m and then falls strictly, the
      maximum is found at m. */
  lemma ArgMaxOfPeak(s: seq<real>, m: nat)
    requires m < |s|
    requires forall i, j :: 0 <= i < j <= m ==> s[i] < s[j]
    requires forall i, j :: m <= i < j < |s| ==> s[j] < s[i]
    ensures ArgMax(s) == m
  {
    var i := ArgMax(s);
    assert s[m] <= s[i];
  }

  /** Arithmetic helper: sign of a product. */
  lemma NonNegTimes(a: real, d: real)
    requires 0.0 <= d
    ensures 0.0 <= a ==> 0.0 <= a * d
  {
  }

  /** The peak of a consumption curve over the tabulated radii: its index
      (the first on ties), its radius, and the mass eaten per second there by
      an object of the given mass whose capture disc is k Schwarzschild radii
      across. */
  method Peak(radii: seq<real>, consumptions: seq<real>, mass: real, k: real)
    returns (maxInd: nat, maxRFrac: real, eatenPerSecond: real)
    requires 0 < |consumptions| == |radii|
    ensures maxInd < |consumptions|
    ensures forall j :: 0 <= j < |consumptions| ==> consumptions[j] <= consumptions[maxInd]
    ensures forall j :: 0 <= j < maxInd ==> consumptions[j] < consumptions[maxInd]
    ensures maxRFrac == radii[maxInd]
    ensures eatenPerSecond == consumptions[maxInd] * DiscSurface(k, SchwarzschildRadius(mass))
    ensures (forall j :: 0 <= j < |consumptions| ==> 0.0 <= consumptions[j]) ==> 0.0 <= eatenPerSecond
  {
    maxInd := ArgMax(consumptions);
    maxRFrac := radii[maxInd];
    var schwarzschildRadius := SchwarzschildRadius(mass);
    var eatingDiscSurface := DiscSurface(k, schwarzschildRadius);
    eatenPerSecond := consumptions[maxInd] * eatingDiscSurface;
    NonNegTimes(consumptions[maxInd], eatingDiscSurface);
  }

  /** The whole sweep: the consumption curve over the table and its peak. */
  method Sweep(p: Profile, sqrt: real -> real, mass: real, k: real)
    returns (consumptions: seq<real>, maxInd: nat, maxRFrac: real, eatenPerSecond: real)
    requires p.Valid() && IsSqrt(sqrt) && 0.0 < p.radii[0]
    ensures |consumptions| == |p.radii|
    ensures forall i :: 0 <= i < |p.radii| ==> consumptions[i] == Consumption(p, sqrt, p.radii[i])
    ensures maxInd < |consumptions|
    ensures forall j :: 0 <= j < |consumptions| ==> consumptions[j] <= consumptions[maxInd]
    ensures forall j :: 0 <= j < maxInd ==> consumptions[j] < consumptions[maxInd]
    ensures maxRFrac == p.radii[maxInd]
    ensures eatenPerSecond == consumptions[maxInd] * DiscSurface(k, SchwarzschildRadius(mass))
    ensures NonNegDensities(p) && MassFracsInUnit(p) ==> 0.0 <= eatenPerSecond
  {
    consumptions := OrbitalConsumptions(p, sqrt);
    maxInd, maxRFrac, eatenPerSecond := Peak(p.radii, consumptions, mass, k);
  }
}
