# black_hole_cannon — a Dafny model of the stellar-interior lookups, the integrator tick and the consumption sweep

black_hole_cannon simulates a small black hole moving through the Sun.

- The Sun is described by a standard solar model table. Each row holds a radius fraction (in solar radii), a density (g/cm^3) and an enclosed mass fraction (in solar masses).
- Gravity at a point comes from the shell theorem: only the mass inside the point's radius pulls.
- Every tick, the black hole:
  - moves with semi-implicit Euler;
  - swallows the matter in the cylinder its capture disc sweeps;
  - grows by that mass;
  - rescales its velocity so that its momentum is kept.
- A separate analysis script does three things:
  - for every tabulated radius, computes how much mass a circular orbit there would sweep up per second and square metre;
  - finds the radius where that rate peaks;
  - turns the rate at that radius into an eaten mass per second.

The Dafny modules follow the program's structure:

- `Vectors` (vectors.dfy) holds 2-D vectors over `real`.
  - The Euclidean norm and the square root are function parameters.
  - The norm must satisfy `IsNorm`: non-negative, zero only at the origin, and absolutely homogeneous.
  - The square root must satisfy `IsSqrt`: non-negative on non-negative inputs, and zero at zero.
- `Bisect` (bisect.dfy) is Python's `bisect.bisect_left`. It is written as a recursive binary search over a window, and its result is proved to be the unique leftmost insertion point.
- `Utils` (utils.dfy) holds:
  - the constants;
  - the profile table, `Profile`;
  - the step-function lookups `Density` (`r_frac_to_density`) and `MassFraction` (`r_frac_to_m_frac`);
  - the gravity law, `Strength` and `Acceleration` (`gravitational_acceleration`).
- `Accretion` (accretion.dfy) holds the Schwarzschild radius, the capture-disc area and the mass eaten in one step.
- `Simulation` (simulation.dfy) has the class `State`. It carries the fields the simulation loop mutates, and one `Step` method per tick. Its invariant `Valid()` says:
  - the mass is the initial mass plus the running eaten total;
  - the clock reads one time step per tick.
- `Calculations` (calculations.dfy) covers the sweep:
  - the loop that builds the consumption curve is a method with a loop invariant;
  - `ArgMax` is numpy's first-occurrence argmax;
  - `Peak` and `Sweep` compute the peak radius and the eaten mass per second.

All quantities are mathematical reals. The physical constants are the literals the program uses: `M_sun`, `R_sun`, scipy's `G` and `c`, and numpy's `pi`.

## Model

| member | source | states |
|---|---|---|
| Bisect.BisectWindow | utils.py:49 | The binary search over the window [lo, hi), given that everything left of lo is below x and everything from hi on is at least x, returns an index in the window that is a leftmost insertion point: all elements before it are < x, all from it on are >= x. |
| Bisect.BisectLeft | utils.py:49 | bisect_left over a sorted sequence returns the leftmost insertion point, and an index strictly inside the sequence whenever x does not exceed the last element. That is why the row access after the surface clamp is in bounds. |
| Bisect.InsertionPointUnique | utils.py:49 | Any index with the insertion-point property is the one bisect_left returns. |
| Bisect.BisectInStep | utils.py:49 | Every query in the step (a[i-1], a[i]] gets index i. |
| Bisect.BisectExactHit | utils.py:64 | On strictly increasing keys, a query equal to a stored key returns that key's own index. |
| Bisect.BisectMonotone | utils.py:49 | bisect_left is non-decreasing in the query. |
| Utils.Density | utils.py:41-53 | At or beyond the last radius the density is exactly 0. The result is non-negative when all stored densities are. The value inside the star is stated by Utils.DensityOnStep and Utils.DensityAtRow. |
| Utils.DensityOnStep | utils.py:49-52 | Inside the star, the density on the step (radii[i-1], radii[i]] is exactly 1000 * rho[i]. It is a step function with no interpolation. |
| Utils.DensityAtRow | utils.py:49-52 | A query on a tabulated radius below the surface reads that radius's own row times 1000 (distinct radii). |
| Utils.MassFraction | utils.py:56-70 | At or beyond the last radius the result is exactly 1. For r <= radii[0] inside the star it is 0 (index 0). It lies in [0, 1] when the stored column does. |
| Utils.MassFractionOnStep | utils.py:64-69 | Above the innermost row and inside the star, the result on the step (radii[i-1], radii[i]] is exactly massFrac[i]. |
| Utils.MassFractionMonotone | utils.py:56-70 | With a non-decreasing mass column inside [0, 1], the mass fraction is non-decreasing in the radius, across the surface clamp too. |
| Utils.ThreeRowTable | utils.py:46-69 | Worked three-row table: a query between rows reads the outer row's density (times 1000) and mass fraction; beyond the surface the fraction is 1; on the first radius it is 0 although the row stores 0.01. |
| Utils.Strength | utils.py:78-83 | The shell-theorem strength is zero exactly when the enclosed mass fraction is zero. When the enclosed mass fraction is non-negative (for example under MassFracsInUnit), it is non-negative and, thanks to the 1 m softening, never above G * m_frac * M_sun / 1 m^2. |
| Utils.Acceleration | utils.py:73-85 | The acceleration is parallel to the position. When the enclosed mass fraction is non-negative (for example under MassFracsInUnit), it is the position scaled by a non-positive factor, so it points towards the centre, and its norm equals the strength. It is the zero vector when the enclosed mass fraction is zero. The origin is excluded. |
| Utils.PullMagnitude | utils.py:84 | -position / norm(position) * strength has norm abs(strength), lies on the line through the position, points back for a non-negative strength, and is zero for zero strength. |
| Accretion.SchwarzschildRadius | simulation.py:88 | 2 G m / c^2 is non-negative for a non-negative mass and zero exactly when the mass is zero. |
| Accretion.DiscSurface | calculations.py:61 | The capture-disc area pi (k rs)^2 is non-negative. |
| Accretion.EatenMass | simulation.py:88-91 | The eaten mass is 0 when the position is at or beyond the surface, and 0 when the velocity, the step or the mass is zero. It is non-negative for non-negative densities and step. |
| Simulation.Kick | simulation.py:83 | The velocity after one step of the acceleration: unchanged for a zero step or a zero acceleration. |
| Simulation.KickUndone | simulation.py:83 | Kicking back for -dt with the same acceleration restores the velocity. |
| Simulation.Drift | simulation.py:85 | The position, in solar radii, after one step at the given velocity: unchanged for a zero step or a zero velocity. |
| Simulation.DriftUndone | simulation.py:85 | Drifting back for -dt at the same velocity restores the position. |
| Simulation.Elapsed | simulation.py:80 | The clock after n ticks, adding the time step once per tick from 0: 0 after no ticks, non-negative for a non-negative step. |
| Simulation.Rescale | simulation.py:92-97 | The rescaled velocity keeps momentum exactly per component: newMass * w == oldMass * vel. It is unchanged when the mass is unchanged. No component grows when the mass does not shrink. |
| Simulation.RescaleSlowsDown | simulation.py:92-97 | When the mass does not decrease, the rescale never increases the speed. |
| Simulation.ElapsedIsProduct | simulation.py:80 | Adding the time step once per tick from t = 0 gives n * time_step after n ticks. |
| Simulation.State.constructor | simulation.py:60-65 | Initial state: t = 0, iteration 0, eaten total 0, initial mass = current mass, and the invariant holds. |
| Simulation.State.Step | simulation.py:70-97 | One tick keeps the invariant (mass = initial + eaten total; clock = elapsed ticks) and advances the clock by one time step. Position moves with the already-kicked velocity (semi-implicit Euler). The eaten mass uses the pre-tick mass and the post-move position and velocity, and is non-negative, so the total and the mass never decrease. The velocity is the momentum-preserving rescale and is no faster than the kicked one. Outside the star, nothing is eaten and mass and kicked velocity are unchanged. |
| Calculations.OrbitalSpeed | calculations.py:30-31 | The circular-orbit speed is non-negative when the enclosed mass fraction is, and 0 when the fraction is 0. |
| Calculations.Consumption | calculations.py:29-32 | density * speed is non-negative for non-negative densities and fractions in [0, 1]. It is 0 at or beyond the surface, and 0 at or below the innermost radius. |
| Calculations.OrbitalConsumptions | calculations.py:27-33 | One entry per table radius, in table order, each equal to the consumption at that radius. The first and last entries are 0. All entries are non-negative for well-formed columns. |
| Calculations.ArgMax | calculations.py:43 | The index is in bounds and its entry is a maximum; every earlier entry is strictly smaller (the first maximum). |
| Calculations.ArgMaxOfPeak | calculations.py:43 | On a curve rising strictly to m and falling strictly after it, the argmax is m. |
| Calculations.Peak | calculations.py:43-65 | max_ind is the first maximal index, and max_r_frac is the radius at that index. The eaten mass per second is the peak consumption times pi (k * 2 G m / c^2)^2, non-negative when the curve is. |
| Calculations.Sweep | calculations.py:27-65 | The whole analysis: the consumption curve as above, its first maximum, the radius there, and the eaten mass per second. The latter is non-negative for well-formed columns. |

## Left out

- Loading the CSV table with pandas. The table is a `Profile` value. Rows are read by position, which is what `sun_stats.loc` does on the default integer index.
- Pygame rendering, the HUD, event polling, the quit flag and frame pacing with `time.sleep`/`time.time`. These are I/O.
  - The `while run_sim` loop itself is not a method, because it is driven by the quit event.
  - `State.Step` is one pass of its body. The invariant `Valid()` carries the per-tick facts over any number of ticks.
- Matplotlib plots and all prints.
- Floating point: everything is a real number. Rounding, overflow and the drift of the repeated momentum rescale are not modelled.
- `np.linalg.norm` and `np.sqrt` are parameters.
  - The norm is assumed non-negative, zero only at the origin and absolutely homogeneous, as the Euclidean norm is.
  - The square root is assumed non-negative and zero at zero.
  - Nothing else about them is modelled. In particular, the speed is not proved to equal sqrt(G m / r) numerically.
- The orbital-velocity set-up and the choice of initial conditions (simulation.py:24-48). The constructor takes any position and velocity, and any positive mass.
- The scipy constants are the literals of their double values, not imports.
- Utils.Acceleration: excludes the origin, where the source divides 0 by 0. Simulation.State.Step therefore requires a non-zero position.
- Simulation.State.Step: its invariant requires non-negative densities, a non-negative time step and a positive initial mass (the constructor requires a positive mass). Together these keep the eaten mass non-negative and the mass positive, so the division by the mass in the rescale (simulation.py:97) is defined.
- Simulation.State.Step: states the new velocity as `Rescale(kicked, old mass, new mass)`. The exact momentum equation is stated once, in the contract of Simulation.Rescale.
- Calculations.OrbitalConsumptions: requires a positive first radius. The source divides by r * R_sun and would produce NaN at r = 0.
- Calculations.Sweep: requires the same positive first radius.
- Accretion.DiscSurface: states only that the area is non-negative, not that it is zero exactly when k * rs is zero.
- An empty table (an IndexError in the source) is excluded by `Profile.Valid()`. So are unsorted radii, on which bisect_left has no meaning.
