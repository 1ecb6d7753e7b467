/** `metropolisSweep` of `IsingModel`: every site is visited once per sweep,
    rows in a shuffled order and the columns of each row in a fresh shuffled
    order, and each visit applies the Metropolis rule to that one spin. The
    random input is injected: the shuffle draws of the sweep and, per visit,
    the outcome of the comparison `p < exp(-β·ΔH)`. */
module Metropolis {
  import opened Shuffles
  import opened Ising

  /** The random input of one sweep: the draws that shuffle the row order,
      for the `k`-th row processed the draws that shuffle its columns, and for
      the `m`-th column of that row whether `Math.random()` fell below the
      acceptance probability. */
  datatype SweepDraws = SweepDraws(rows: seq<real>, cols: seq<seq<real>>, accept: seq<seq<bool>>)

  predicate ValidSweepDraws(d: SweepDraws, n: nat)
  {
    && ValidDraws(d.rows, n)
    && |d.cols| == n
    && (forall k :: 0 <= k < n ==> ValidDraws(d.cols[k], n))
    && |d.accept| == n
    && (forall k :: 0 <= k < n ==> |d.accept[k]| == n)
  }

  /** `ΔH = -J · (flippedState - state)` for a site with spin `spin` whose
      neighbours sum to `sum`: the change of the bond energy around the site
      when its spin is reversed. */
  function EnergyChange(J: int, spin: int, sum: int): (dH: int)
    ensures dH == 2 * J * spin * sum
  {
    var state := spin * sum;
    var flippedState := -spin * sum;
    -J * (flippedState - state)
  }

  /** Whether a visit reverses the spin: always when the energy drops; otherwise
      when `p < exp(-β·ΔH)`. For `ΔH = 0` that bound is 1 and a draw of
      `Math.random()` is always below it; for `ΔH > 0` the comparison is the
      injected `accept`. */
  predicate Flips(dH: int, accept: bool)
  {
    if dH < 0 then true
    else if dH == 0 then true
    else accept
  }

  /** One visit of the inner loop at `(r, c)`: the neighbour sum is taken
      before the flip, and the new state is the new spin times that sum. */
  function FlipStep(g: Grid, n: nat, J: int, r: nat, c: nat, accept: bool): (h: Grid)
    requires IsLattice(g, n) && r < n && c < n
    ensures IsLattice(h, n)
    ensures |h[r]| == n
    ensures forall i, j {:trigger h[i][j]} :: 0 <= i < n && 0 <= j < n && (i != r || j != c) ==>
      h[i][j] == g[i][j]
    ensures forall i :: 0 <= i < n && i != r ==> h[i] == g[i]
    ensures h[r][c].spin == g[r][c].spin || h[r][c].spin == -g[r][c].spin
  {
    var site := g[r][c];
    var sum := SiteNeighbourSum(g, n, r, c);
    var spin := if Flips(EnergyChange(J, site.spin, sum), accept) then -site.spin else site.spin;
    g[r := g[r][c := Site(spin, spin * sum)]]
  }

  /** The energy of the bonds around `(r, c)`: `-J · σ · Σσj`. */
  function LocalEnergy(g: Grid, n: nat, J: int, r: nat, c: nat): int
    requires IsLattice(g, n) && r < n && c < n
  {
    -J * g[r][c].spin * NeighbourSum(g, n, r, c)
  }

  /** The rule of a visit: the spin is reversed exactly when that lowers or
      keeps the local energy, or when the draw accepts a rise; the stored
      state is the new spin times the neighbour sum before the visit. */
  lemma FlipRule(g: Grid, n: nat, J: int, r: nat, c: nat, accept: bool)
    requires IsLattice(g, n) && r < n && c < n
    ensures var h := FlipStep(g, n, J, r, c, accept);
      var sum := NeighbourSum(g, n, r, c);
      var dH := 2 * J * g[r][c].spin * sum;
      && dH == -2 * LocalEnergy(g, n, J, r, c)
      && (h[r][c].spin == -g[r][c].spin <==> (dH <= 0 || accept))
      && h[r][c].state == h[r][c].spin * sum
  {
    var spin := g[r][c].spin;
    var sum := NeighbourSum(g, n, r, c);
    assert SiteNeighbourSum(g, n, r, c) == sum;
    assert EnergyChange(J, spin, sum) == 2 * J * spin * sum;
    EnergySigns(J, spin, sum);
  }

  /** A visit that rejects every rise never raises the energy of the bonds
      around the site. */
  lemma VisitNeverRaisesEnergy(g: Grid, n: nat, J: int, r: nat, c: nat)
    requires IsLattice(g, n) && r < n && c < n
    ensures var h := FlipStep(g, n, J, r, c, false);
      -J * h[r][c].spin * NeighbourSum(g, n, r, c) <= LocalEnergy(g, n, J, r, c)
  {
    FlipRule(g, n, J, r, c, false);
    EnergySigns(J, g[r][c].spin, NeighbourSum(g, n, r, c));
  }

  lemma EnergySigns(J: int, s: int, sum: int)
    ensures -J * -s * sum == -(-J * s * sum)
    ensures 2 * J * s * sum == -2 * (-J * s * sum)
  {
  }

  /** One visit of a sweep: the site and the outcome of its acceptance draw. */
  datatype Step = Step(row: nat, col: nat, accept: bool)

  /** Every visit is to a site of an `n`-by-`n` lattice. */
  predicate InRange(steps: seq<Step>, n: nat)
  {
    forall t :: 0 <= t < |steps| ==> steps[t].row < n && steps[t].col < n
  }

  /** The inner loop over the columns of row `r`, in the order `cols`, the
      `m`-th visit decided by `accept[m]`. */
  function RowSteps(r: nat, cols: seq<nat>, accept: seq<bool>): (steps: seq<Step>)
    requires |accept| == |cols|
    ensures |steps| == |cols|
    ensures forall m :: 0 <= m < |cols| ==> steps[m] == Step(r, cols[m], accept[m])
  {
    seq(|cols|, m requires 0 <= m < |cols| => Step(r, cols[m], accept[m]))
  }

  /** The outer loop from the `k`-th processed row on: row `rows[k]` is swept
      in the column order its own draws give, then the remaining rows. */
  function SweepSteps(n: nat, d: SweepDraws, rows: seq<nat>, k: nat): (steps: seq<Step>)
    requires ValidSweepDraws(d, n) && IsIndexPermutation(rows, n) && k <= n
    ensures InRange(steps, n)
    decreases n - k
  {
    if k == n then []
    else RowSteps(rows[k], RandomIndices(n, d.cols[k]), d.accept[k]) + SweepSteps(n, d, rows, k + 1)
  }

  /** All visits of one sweep, in the order the two loops make them. */
  function Schedule(n: nat, d: SweepDraws): (steps: seq<Step>)
    requires ValidSweepDraws(d, n)
    ensures InRange(steps, n)
  {
    SweepSteps(n, d, RandomIndices(n, d.rows), 0)
  }

  /** The visits `steps[t..]` applied in turn. */
  function Apply(g: Grid, n: nat, J: int, steps: seq<Step>, t: nat): (h: Grid)
    requires IsLattice(g, n) && InRange(steps, n) && t <= |steps|
    ensures IsLattice(h, n)
    decreases |steps| - t
  {
    if t == |steps| then g
    else Apply(FlipStep(g, n, J, steps[t].row, steps[t].col, steps[t].accept), n, J, steps, t + 1)
  }

  /** No visit from the `t`-th on is to `(i, j)`. */
  predicate Untouched(steps: seq<Step>, t: nat, i: nat, j: nat)
  {
    forall u :: t <= u < |steps| ==> steps[u].row != i || steps[u].col != j
  }

  /** A site that no visit reaches keeps its spin and its state. */
  lemma {:induction false} ApplyFrame(g: Grid, n: nat, J: int, steps: seq<Step>, t: nat, i: nat, j: nat)
    requires IsLattice(g, n) && InRange(steps, n) && t <= |steps| && i < n && j < n
    requires Untouched(steps, t, i, j)
    ensures Apply(g, n, J, steps, t)[i][j] == g[i][j]
    decreases |steps| - t
  {
    if t < |steps| {
      var g' := FlipStep(g, n, J, steps[t].row, steps[t].col, steps[t].accept);
      ApplyFrame(g', n, J, steps, t + 1, i, j);
    }
  }

  /** The site visited as the `m`-th column of the `k`-th processed row. */
  function Visit(n: nat, d: SweepDraws, k: nat, m: nat): (site: (nat, nat))
    requires ValidSweepDraws(d, n) && k < n && m < n
    ensures site.0 < n && site.1 < n
  {
    (RandomIndices(n, d.rows)[k], RandomIndices(n, d.cols[k])[m])
  }

  /** The step of the sweep at which a given site is visited. */
  lemma VisitOf(n: nat, d: SweepDraws, r: nat, c: nat) returns (k: nat, m: nat)
    requires ValidSweepDraws(d, n) && r < n && c < n
    ensures k < n && m < n && Visit(n, d, k, m) == (r, c)
  {
    var rows := RandomIndices(n, d.rows);
    assert r in rows;
    k :| k < n && rows[k] == r;
    var cols := RandomIndices(n, d.cols[k]);
    assert c in cols;
    m :| m < n && cols[m] == c;
  }

  /** Some step of the sweep visits `(r, c)`. */
  predicate Visited(n: nat, d: SweepDraws, r: nat, c: nat)
    requires ValidSweepDraws(d, n)
  {
    exists k: nat, m: nat :: k < n && m < n && Visit(n, d, k, m) == (r, c)
  }

  /** Each sweep visits every site exactly once. */
  lemma VisitsEverySiteOnce(n: nat, d: SweepDraws)
    requires ValidSweepDraws(d, n)
    ensures forall r: nat, c: nat :: r < n && c < n ==> Visited(n, d, r, c)
    ensures forall k: nat, m: nat, k': nat, m': nat ::
      (k < n && m < n && k' < n && m' < n &&
       Visit(n, d, k, m) == Visit(n, d, k', m')) ==> k == k' && m == m'
  {
    forall r: nat, c: nat | r < n && c < n
      ensures Visited(n, d, r, c)
    {
      var k, m := VisitOf(n, d, r, c);
    }
  }

  /** The visit made as the `m`-th column of the `k`-th processed row, found
      in the visits from the `j`-th processed row on. */
  lemma {:induction false} StepInSweepSteps(n: nat, d: SweepDraws, rows: seq<nat>, j: nat, k: nat, m: nat)
    returns (t: nat)
    requires ValidSweepDraws(d, n) && IsIndexPermutation(rows, n) && j <= k < n && m < n
    ensures t < |SweepSteps(n, d, rows, j)|
    ensures SweepSteps(n, d, rows, j)[t] == Step(rows[k], RandomIndices(n, d.cols[k])[m], d.accept[k][m])
    decreases k - j
  {
    var head := RowSteps(rows[j], RandomIndices(n, d.cols[j]), d.accept[j]);
    var rest := SweepSteps(n, d, rows, j + 1);
    assert SweepSteps(n, d, rows, j) == head + rest;
    if j == k {
      t := m;
      assert (head + rest)[t] == head[m];
    } else {
      var t' := StepInSweepSteps(n, d, rows, j + 1, k, m);
      t := |head| + t';
      assert (head + rest)[t] == rest[t'];
    }
  }

  /** The position in the schedule of the `m`-th visit of the `k`-th processed row. */
  lemma StepOfVisit(n: nat, d: SweepDraws, k: nat, m: nat) returns (t: nat)
    requires ValidSweepDraws(d, n) && k < n && m < n
    ensures t < |Schedule(n, d)|
    ensures Schedule(n, d)[t] == Step(Visit(n, d, k, m).0, Visit(n, d, k, m).1, d.accept[k][m])
  {
    t := StepInSweepSteps(n, d, RandomIndices(n, d.rows), 0, k, m);
  }

  /** Row `r` is processed at the `k`-th step of the outer loop or later. */
  predicate RowFrom(rows: seq<nat>, k: nat, r: nat)
  {
    exists i :: k <= i < |rows| && rows[i] == r
  }

  /** No two visits go to the same site. */
  predicate SitesDistinct(steps: seq<Step>)
  {
    forall t, u :: 0 <= t < u < |steps| ==> steps[t].row != steps[u].row || steps[t].col != steps[u].col
  }

  /** The visits from the `k`-th processed row on stay in rows processed from then on. */
  lemma {:induction false} SweepStepsRows(n: nat, d: SweepDraws, rows: seq<nat>, k: nat)
    requires ValidSweepDraws(d, n) && IsIndexPermutation(rows, n) && k <= n
    ensures forall t :: 0 <= t < |SweepSteps(n, d, rows, k)| ==> RowFrom(rows, k, SweepSteps(n, d, rows, k)[t].row)
    decreases n - k
  {
    if k < n {
      var head := RowSteps(rows[k], RandomIndices(n, d.cols[k]), d.accept[k]);
      var rest := SweepSteps(n, d, rows, k + 1);
      SweepStepsRows(n, d, rows, k + 1);
      var steps := head + rest;
      assert SweepSteps(n, d, rows, k) == steps;
      forall t | 0 <= t < |steps|
        ensures RowFrom(rows, k, steps[t].row)
      {
        if t < |head| {
          assert steps[t].row == rows[k];
        } else {
          assert steps[t] == rest[t - |head|];
          assert RowFrom(rows, k + 1, rest[t - |head|].row);
          var i :| k + 1 <= i < |rows| && rows[i] == rest[t - |head|].row;
        }
      }
    }
  }

  lemma {:induction false} SweepStepsDistinct(n: nat, d: SweepDraws, rows: seq<nat>, k: nat)
    requires ValidSweepDraws(d, n) && IsIndexPermutation(rows, n) && k <= n
    ensures SitesDistinct(SweepSteps(n, d, rows, k))
    decreases n - k
  {
    if k < n {
      var cols := RandomIndices(n, d.cols[k]);
      var head := RowSteps(rows[k], cols, d.accept[k]);
      var rest := SweepSteps(n, d, rows, k + 1);
      SweepStepsDistinct(n, d, rows, k + 1);
      SweepStepsRows(n, d, rows, k + 1);
      var steps := head + rest;
      assert SweepSteps(n, d, rows, k) == steps;
      forall t, u | 0 <= t < u < |steps|
        ensures steps[t].row != steps[u].row || steps[t].col != steps[u].col
      {
        if u < |head| {
          assert steps[t].col == cols[t] && steps[u].col == cols[u];
        } else if t >= |head| {
          assert steps[t] == rest[t - |head|] && steps[u] == rest[u - |head|];
        } else {
          assert steps[u] == rest[u - |head|];
          assert RowFrom(rows, k + 1, rest[u - |head|].row);
          var i :| k + 1 <= i < |rows| && rows[i] == steps[u].row;
          assert steps[t].row == rows[k] != rows[i];
        }
      }
    }
  }

  /** Some visit of `steps` goes to `(r, c)`. */
  predicate Scheduled(steps: seq<Step>, r: nat, c: nat)
  {
    exists t :: 0 <= t < |steps| && steps[t].row == r && steps[t].col == c
  }

  /** The schedule of a sweep visits every site, and none twice. */
  lemma ScheduleVisitsEverySiteOnce(n: nat, d: SweepDraws)
    requires ValidSweepDraws(d, n)
    ensures SitesDistinct(Schedule(n, d))
    ensures forall r: nat, c: nat :: r < n && c < n ==> Scheduled(Schedule(n, d), r, c)
  {
    SweepStepsDistinct(n, d, RandomIndices(n, d.rows), 0);
    forall r: nat, c: nat | r < n && c < n
      ensures Scheduled(Schedule(n, d), r, c)
    {
      var k, m := VisitOf(n, d, r, c);
      var t := StepOfVisit(n, d, k, m);
    }
  }

  /** One iteration of `metropolisSweep`: the row order is drawn, every row is
      swept, and the system properties are recomputed. `Tc` and `β` are
      recomputed too and are not part of the model. */
  function SweepOnce(l: Lattice, d: SweepDraws): (r: Lattice)
    requires WellFormed(l) && ValidSweepDraws(d, l.size)
    ensures Consistent(r)
    ensures r.size == l.size && r.k == l.k && r.J == l.J && r.T == l.T
  {
    SystemProperties(l.(spins := Apply(l.spins, l.size, l.J, Schedule(l.size, d), 0)))
  }

  /** `metropolisSweep(iterations)` with `iterations == |ds|`; no iteration
      leaves the model as it is. */
  function MetropolisSweep(l: Lattice, ds: seq<SweepDraws>): (r: Lattice)
    requires WellFormed(l)
    requires forall i :: 0 <= i < |ds| ==> ValidSweepDraws(ds[i], l.size)
    ensures WellFormed(r)
    ensures r.size == l.size && r.k == l.k && r.J == l.J && r.T == l.T
    ensures |ds| == 0 ==> r == l
    ensures |ds| > 0 ==> Consistent(r)
    decreases |ds|
  {
    if |ds| == 0 then l
    else MetropolisSweep(SweepOnce(l, ds[0]), ds[1..])
  }

  // Low temperature: every rise of the energy is rejected.

  /** No draw of the sweep accepts a rise of the energy, as at `T` close to 0. */
  predicate RejectsAll(d: SweepDraws)
  {
    forall k, m :: 0 <= k < |d.accept| && 0 <= m < |d.accept[k]| ==> !d.accept[k][m]
  }

  /** Every spin equals `s`. */
  predicate AllSpins(g: Grid, n: nat, s: int)
    requires IsLattice(g, n)
  {
    forall r, c :: 0 <= r < n && 0 <= c < n ==> g[r][c].spin == s
  }

  /** Every spin equals `s` except the reversed one at `(r0, c0)`. */
  predicate OneDefect(g: Grid, n: nat, s: int, r0: nat, c0: nat)
    requires IsLattice(g, n) && r0 < n && c0 < n
  {
    && g[r0][c0].spin == -s
    && forall r, c :: 0 <= r < n && 0 <= c < n && (r != r0 || c != c0) ==> g[r][c].spin == s
  }

  /** Aligned with all four neighbours, a site keeps its spin when rises are rejected. */
  lemma AlignedSiteStays(g: Grid, n: nat, J: int, r: nat, c: nat, s: int)
    requires IsLattice(g, n) && r < n && c < n && J > 0 && IsSpin(s)
    requires g[r][c].spin == s && s * NeighbourSum(g, n, r, c) > 0
    ensures FlipStep(g, n, J, r, c, false)[r][c].spin == s
  {
    var sum := NeighbourSum(g, n, r, c);
    assert J * (s * sum) > 0;
    assert 2 * J * s * sum == 2 * (J * (s * sum));
  }

  /** A site that opposes its neighbours' majority turns, whatever the draw. */
  lemma OpposedSiteTurns(g: Grid, n: nat, J: int, r: nat, c: nat, accept: bool)
    requires IsLattice(g, n) && r < n && c < n && J > 0
    requires g[r][c].spin * NeighbourSum(g, n, r, c) < 0
    ensures FlipStep(g, n, J, r, c, accept)[r][c].spin == -g[r][c].spin
  {
    var s := g[r][c].spin;
    var sum := NeighbourSum(g, n, r, c);
    assert J * (s * sum) < 0;
    assert 2 * J * s * sum == 2 * (J * (s * sum));
  }

  /** A uniform lattice stays uniform under a visit that rejects rises. */
  lemma UniformVisit(g: Grid, n: nat, J: int, r: nat, c: nat, s: int)
    requires IsLattice(g, n) && r < n && c < n && J > 0 && IsSpin(s)
    requires AllSpins(g, n, s)
    ensures AllSpins(FlipStep(g, n, J, r, c, false), n, s)
  {
    assert NeighbourSum(g, n, r, c) == 4 * s;
    AlignedSiteStays(g, n, J, r, c, s);
  }

  /** On a torus of side at least 3 the four neighbours of a site are four
      different sites, so a single reversed spin is next to a site at most once. */
  lemma DefectNeighbourSum(g: Grid, n: nat, s: int, r0: nat, c0: nat, r: nat, c: nat)
    requires IsLattice(g, n) && n >= 3 && IsSpin(s) && r0 < n && c0 < n && r < n && c < n
    requires OneDefect(g, n, s, r0, c0)
    ensures r == r0 && c == c0 ==> NeighbourSum(g, n, r, c) == 4 * s
    ensures r != r0 || c != c0 ==> s * NeighbourSum(g, n, r, c) >= 2
  {
  }

  /** A visit keeps a lattice with one reversed spin that way, except that
      visiting the reversed spin itself makes the lattice uniform. */
  lemma DefectVisit(g: Grid, n: nat, J: int, r: nat, c: nat, s: int, r0: nat, c0: nat)
    requires IsLattice(g, n) && n >= 3 && J > 0 && IsSpin(s)
    requires r < n && c < n && r0 < n && c0 < n
    requires OneDefect(g, n, s, r0, c0)
    ensures r == r0 && c == c0 ==> AllSpins(FlipStep(g, n, J, r, c, false), n, s)
    ensures r != r0 || c != c0 ==> OneDefect(FlipStep(g, n, J, r, c, false), n, s, r0, c0)
  {
    DefectNeighbourSum(g, n, s, r0, c0, r, c);
    if r == r0 && c == c0 {
      OpposedSiteTurns(g, n, J, r, c, false);
    } else {
      AlignedSiteStays(g, n, J, r, c, s);
    }
  }

  /** No visit accepts a rise of the energy. */
  predicate NoneAccepted(steps: seq<Step>)
  {
    forall t :: 0 <= t < |steps| ==> !steps[t].accept
  }

  lemma {:induction false} SweepStepsReject(n: nat, d: SweepDraws, rows: seq<nat>, k: nat)
    requires ValidSweepDraws(d, n) && RejectsAll(d) && IsIndexPermutation(rows, n) && k <= n
    ensures NoneAccepted(SweepSteps(n, d, rows, k))
    decreases n - k
  {
    if k < n {
      var head := RowSteps(rows[k], RandomIndices(n, d.cols[k]), d.accept[k]);
      assert SweepSteps(n, d, rows, k) == head + SweepSteps(n, d, rows, k + 1);
      SweepStepsReject(n, d, rows, k + 1);
    }
  }

  /** When every rise is rejected, so is every visit of the schedule. */
  lemma ScheduleRejects(n: nat, d: SweepDraws)
    requires ValidSweepDraws(d, n) && RejectsAll(d)
    ensures NoneAccepted(Schedule(n, d))
  {
    SweepStepsReject(n, d, RandomIndices(n, d.rows), 0);
  }

  /** A uniform lattice stays uniform under visits that reject every rise. */
  lemma {:induction false} ApplyKeepsUniform(g: Grid, n: nat, J: int, steps: seq<Step>, t: nat, s: int)
    requires IsLattice(g, n) && J > 0 && IsSpin(s)
    requires InRange(steps, n) && NoneAccepted(steps) && t <= |steps|
    requires AllSpins(g, n, s)
    ensures AllSpins(Apply(g, n, J, steps, t), n, s)
    decreases |steps| - t
  {
    if t < |steps| {
      UniformVisit(g, n, J, steps[t].row, steps[t].col, s);
      ApplyKeepsUniform(FlipStep(g, n, J, steps[t].row, steps[t].col, false), n, J, steps, t + 1, s);
    }
  }

  /** A single reversed spin that is visited at step `t0 >= t` is gone after
      the visits, when every rise is rejected and the side is at least 3. */
  lemma {:induction false} ApplyHeals(g: Grid, n: nat, J: int, steps: seq<Step>, t: nat,
                                      s: int, r0: nat, c0: nat, t0: nat)
    requires IsLattice(g, n) && n >= 3 && J > 0 && IsSpin(s) && r0 < n && c0 < n
    requires InRange(steps, n) && NoneAccepted(steps)
    requires t <= t0 < |steps| && steps[t0].row == r0 && steps[t0].col == c0
    requires OneDefect(g, n, s, r0, c0)
    ensures AllSpins(Apply(g, n, J, steps, t), n, s)
    decreases |steps| - t
  {
    var r, c := steps[t].row, steps[t].col;
    assert t == t0 ==> r == r0 && c == c0;
    var g' := FlipStep(g, n, J, r, c, false);
    assert Apply(g, n, J, steps, t) == Apply(g', n, J, steps, t + 1);
    DefectVisit(g, n, J, r, c, s, r0, c0);
    if r == r0 && c == c0 {
      ApplyKeepsUniform(g', n, J, steps, t + 1, s);
    } else {
      ApplyHeals(g', n, J, steps, t + 1, s, r0, c0, t0);
    }
  }

  /** Close to zero temperature (every rise rejected) with a ferromagnetic
      coupling, one sweep heals a single reversed spin on a torus of side at
      least 3: the result is the lattice that recomputing the properties of
      the uniform configuration gives, with hamiltonian `-2·J·N²` and
      magnetisation `s`. */
  lemma SweepHealsDefect(l: Lattice, d: SweepDraws, s: int, r0: nat, c0: nat, ref: Lattice)
    requires WellFormed(l) && l.size >= 3 && l.J > 0 && IsSpin(s) && r0 < l.size && c0 < l.size
    requires ValidSweepDraws(d, l.size) && RejectsAll(d)
    requires OneDefect(l.spins, l.size, s, r0, c0)
    requires WellFormed(ref) && ref.size == l.size && ref.k == l.k && ref.J == l.J && ref.T == l.T
    requires AllSpins(ref.spins, ref.size, s)
    ensures SweepOnce(l, d) == SystemProperties(ref)
    ensures SweepOnce(l, d).hamiltonian == -2 * l.J * l.size * l.size
    ensures SweepOnce(l, d).magnetisation == s as real
  {
    var n := l.size;
    var steps := Schedule(n, d);
    var k, m := VisitOf(n, d, r0, c0);
    var t0 := StepOfVisit(n, d, k, m);
    ScheduleRejects(n, d);
    ApplyHeals(l.spins, n, l.J, steps, 0, s, r0, c0, t0);
    var swept := l.(spins := Apply(l.spins, n, l.J, steps, 0));
    SystemPropertiesOfSameSpins(swept, ref);
    UniformProperties(ref, s);
  }

  /** Close to zero temperature with a ferromagnetic coupling, a uniform
      lattice is left as it is by a sweep. */
  lemma SweepKeepsUniform(l: Lattice, d: SweepDraws, s: int)
    requires WellFormed(l) && l.J > 0 && IsSpin(s)
    requires ValidSweepDraws(d, l.size) && RejectsAll(d)
    requires AllSpins(l.spins, l.size, s)
    ensures SweepOnce(l, d) == SystemProperties(l)
  {
    var n := l.size;
    var steps := Schedule(n, d);
    ScheduleRejects(n, d);
    ApplyKeepsUniform(l.spins, n, l.J, steps, 0, s);
    var swept := l.(spins := Apply(l.spins, n, l.J, steps, 0));
    SystemPropertiesOfSameSpins(swept, l);
  }
}
