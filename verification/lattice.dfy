/** The spin lattice of `IsingModel`: an n-by-n torus of sites holding a spin
    of -1 or +1 and a local `state`, together with the observables
    `hamiltonian` and `magnetisation` that `calculateSystemProperties`
    derives from the spins. The coupling `J` is an integer here, so every
    quantity except the magnetisation is an exact integer. */
module Ising {
  import opened Results
  import opened Shuffles

  function Abs(x: int): nat
  {
    if x < 0 then -x else x
  }

  /** JavaScript's `a % m` for `m > 0`: it truncates toward zero, so the
      remainder carries the sign of the dividend. */
  function TruncRem(a: int, m: int): (r: int)
    requires m > 0
    ensures -m < r < m
    ensures a >= 0 ==> r >= 0
    ensures a <= 0 ==> r <= 0
  {
    if a >= 0 then a % m else -((-a) % m)
  }

  /** Euclidean division leaves a unique remainder. */
  lemma ModUnique(a: int, m: int, q: int, r: int)
    requires m > 0 && 0 <= r < m
    requires a == q * m + r
    ensures a % m == r
  {
    var d := q - a / m;
    assert d * m == a % m - r;
  }

  /** `mod(dividend, divisor)`: the "proper" modulo built from two truncating
      remainders. It never goes negative and agrees with the Euclidean
      remainder, also for a negative dividend. */
  function Mod(dividend: int, divisor: int): (r: int)
    requires divisor != 0
    ensures 0 <= r < Abs(divisor)
    ensures r == dividend % Abs(divisor)
  {
    var m := Abs(divisor);
    var r := TruncRem(TruncRem(dividend, m) + m, m);
    ModAgrees(dividend, m);
    r
  }

  lemma ModAgrees(d: int, m: int)
    requires m > 0
    ensures TruncRem(TruncRem(d, m) + m, m) == d % m
  {
    if d >= 0 {
      var x := d % m;
      assert d == (d / m) * m + x;
      ModUnique(x + m, m, 1, x);
    } else {
      var q := (-d) / m;
      var x := (-d) % m;
      assert -d == q * m + x;
      if x == 0 {
        ModUnique(m, m, 1, 0);
        ModUnique(d, m, -q, 0);
      } else {
        ModUnique(m - x, m, 0, m - x);
        ModUnique(d, m, -q - 1, m - x);
      }
    }
  }

  /** The neighbour one step back along an axis of length `n`, wrapping around. */
  function Prev(i: nat, n: nat): nat
    requires i < n
  {
    if i == 0 then n - 1 else i - 1
  }

  /** The neighbour one step forward along an axis of length `n`, wrapping around. */
  function Next(i: nat, n: nat): nat
    requires i < n
  {
    if i == n - 1 then 0 else i + 1
  }

  /** `mod(i - 1, size)` and `mod(i + 1, size)` are the torus neighbours of `i`. */
  lemma ModIsWrap(i: nat, n: nat)
    requires i < n
    ensures Mod(i - 1, n) == Prev(i, n)
    ensures Mod(i + 1, n) == Next(i, n)
  {
    if i == 0 {
      ModUnique(-1, n, -1, n - 1);
    } else {
      ModUnique(i - 1, n, 0, i - 1);
    }
    if i == n - 1 {
      ModUnique(n, n, 1, 0);
    } else {
      ModUnique(i + 1, n, 0, i + 1);
    }
  }

  /** A site: `spin` is -1 or +1, `state` is spin times neighbour sum. */
  datatype Site = Site(spin: int, state: int)

  type Grid = seq<seq<Site>>

  predicate IsSpin(x: int)
  {
    x == 1 || x == -1
  }

  /** An n-by-n grid of spins, n >= 1. */
  predicate IsLattice(g: Grid, n: nat)
  {
    && n > 0
    && |g| == n
    && (forall r :: 0 <= r < n ==> |g[r]| == n)
    && (forall r, c :: 0 <= r < n && 0 <= c < n ==> IsSpin(g[r][c].spin))
  }

  /** The sum of the four spins next to `(r, c)` on the torus. */
  function NeighbourSum(g: Grid, n: nat, r: nat, c: nat): (sum: int)
    requires IsLattice(g, n) && r < n && c < n
    ensures -4 <= sum <= 4 && sum % 2 == 0
  {
    g[r][Prev(c, n)].spin + g[r][Next(c, n)].spin + g[Prev(r, n)][c].spin + g[Next(r, n)][c].spin
  }

  /** `calculateSiteΣσj(row, col)`: the four neighbours are found with `mod`,
      so both axes wrap around and the sum is the torus neighbour sum. */
  function SiteNeighbourSum(g: Grid, n: nat, r: nat, c: nat): (sum: int)
    requires IsLattice(g, n) && r < n && c < n
    ensures sum == NeighbourSum(g, n, r, c)
  {
    ModIsWrap(r, n);
    ModIsWrap(c, n);
    var left := g[r][Mod(c - 1, n)].spin;
    var right := g[r][Mod(c + 1, n)].spin;
    var up := g[Mod(r - 1, n)][c].spin;
    var down := g[Mod(r + 1, n)][c].spin;
    left + right + up + down
  }

  /** On a 1-by-1 lattice all four neighbour lookups wrap to the site itself. */
  lemma SingleSiteNeighbours(g: Grid)
    requires IsLattice(g, 1)
    ensures SiteNeighbourSum(g, 1, 0, 0) == 4 * g[0][0].spin
  {
  }

  /** Two grids of size n with the same spins (states may differ). */
  predicate SameSpins(g: Grid, h: Grid, n: nat)
    requires IsLattice(g, n) && IsLattice(h, n)
  {
    forall r, c {:trigger g[r][c], h[r][c]} :: 0 <= r < n && 0 <= c < n ==> g[r][c].spin == h[r][c].spin
  }

  // Totals over a grid, row by row and site by site as the forEach loops visit them.

  function RowSpinTotal(row: seq<Site>): int
  {
    if |row| == 0 then 0 else row[0].spin + RowSpinTotal(row[1..])
  }

  function SpinTotal(g: Grid): int
  {
    if |g| == 0 then 0 else RowSpinTotal(g[0]) + SpinTotal(g[1..])
  }

  function RowStateTotal(row: seq<Site>): int
  {
    if |row| == 0 then 0 else row[0].state + RowStateTotal(row[1..])
  }

  function StateTotal(g: Grid): int
  {
    if |g| == 0 then 0 else RowStateTotal(g[0]) + StateTotal(g[1..])
  }

  /** `Σσiσj`: the running sum of `spin * siteΣσj / 2`, one term per site. */
  function RowHalfStates(row: seq<Site>): int
  {
    if |row| == 0 then 0 else row[0].state / 2 + RowHalfStates(row[1..])
  }

  function HalfStateTotal(g: Grid): int
  {
    if |g| == 0 then 0 else RowHalfStates(g[0]) + HalfStateTotal(g[1..])
  }

  /** Halving every even term halves the sum, so `Σσiσj` is exact. */
  lemma {:induction false} RowHalfStatesExact(row: seq<Site>)
    requires forall i :: 0 <= i < |row| ==> row[i].state % 2 == 0
    ensures 2 * RowHalfStates(row) == RowStateTotal(row)
  {
    if |row| > 0 {
      RowHalfStatesExact(row[1..]);
    }
  }

  lemma {:induction false} HalfStateTotalExact(g: Grid)
    requires forall r, c :: 0 <= r < |g| && 0 <= c < |g[r]| ==> g[r][c].state % 2 == 0
    ensures 2 * HalfStateTotal(g) == StateTotal(g)
  {
    if |g| > 0 {
      RowHalfStatesExact(g[0]);
      HalfStateTotalExact(g[1..]);
    }
  }

  lemma {:induction false} RowSpinTotalBound(row: seq<Site>)
    requires forall i :: 0 <= i < |row| ==> IsSpin(row[i].spin)
    ensures -|row| <= RowSpinTotal(row) <= |row|
  {
    if |row| > 0 {
      RowSpinTotalBound(row[1..]);
    }
  }

  /** The spins of a grid with `rows` rows of `n` sites sum to at most `rows * n` in size. */
  lemma {:induction false} SpinTotalBound(g: Grid, n: nat)
    requires forall r :: 0 <= r < |g| ==> |g[r]| == n
    requires forall r, c :: 0 <= r < |g| && 0 <= c < n ==> IsSpin(g[r][c].spin)
    ensures -(|g| * n) <= SpinTotal(g) <= |g| * n
  {
    if |g| > 0 {
      RowSpinTotalBound(g[0]);
      SpinTotalBound(g[1..], n);
      assert |g| * n == n + (|g| - 1) * n;
    }
  }

  /** Totals only read what they sum: grids with the same spins have the same spin total. */
  lemma {:induction false} SpinTotalOfSameSpins(g: Grid, h: Grid, n: nat)
    requires |g| == |h|
    requires forall r :: 0 <= r < |g| ==> |g[r]| == n && |h[r]| == n
    requires forall r, c :: 0 <= r < |g| && 0 <= c < n ==> g[r][c].spin == h[r][c].spin
    ensures SpinTotal(g) == SpinTotal(h)
  {
    if |g| > 0 {
      RowSpinTotalOfSameSpins(g[0], h[0]);
      SpinTotalOfSameSpins(g[1..], h[1..], n);
    }
  }

  lemma {:induction false} RowSpinTotalOfSameSpins(a: seq<Site>, b: seq<Site>)
    requires |a| == |b|
    requires forall i :: 0 <= i < |a| ==> a[i].spin == b[i].spin
    ensures RowSpinTotal(a) == RowSpinTotal(b)
  {
    if |a| > 0 {
      RowSpinTotalOfSameSpins(a[1..], b[1..]);
    }
  }

  /** The first `k` sites of row `r`, each with its state recomputed from the spins. */
  function RecomputeRow(g: Grid, n: nat, r: nat, k: nat): (row: seq<Site>)
    requires IsLattice(g, n) && r < n && k <= n
    ensures |row| == k
    ensures forall c :: 0 <= c < k ==> row[c].spin == g[r][c].spin
    ensures forall c {:trigger NeighbourSum(g, n, r, c)} :: 0 <= c < k ==>
      row[c] == Site(g[r][c].spin, g[r][c].spin * NeighbourSum(g, n, r, c))
  {
    if k == 0 then []
    else RecomputeRow(g, n, r, k - 1) + [Site(g[r][k - 1].spin, g[r][k - 1].spin * NeighbourSum(g, n, r, k - 1))]
  }

  /** The first `k` rows, recomputed. */
  function RecomputeRows(g: Grid, n: nat, k: nat): (h: Grid)
    requires IsLattice(g, n) && k <= n
    ensures |h| == k
    ensures forall r :: 0 <= r < k ==> h[r] == RecomputeRow(g, n, r, n)
  {
    if k == 0 then [] else RecomputeRows(g, n, k - 1) + [RecomputeRow(g, n, k - 1, n)]
  }

  /** Every site's state recomputed from the spins, the spins kept. */
  function Recompute(g: Grid, n: nat): (h: Grid)
    requires IsLattice(g, n)
    ensures IsLattice(h, n) && SameSpins(h, g, n)
    ensures forall r, c {:trigger NeighbourSum(g, n, r, c)} :: 0 <= r < n && 0 <= c < n ==>
      h[r][c] == Site(g[r][c].spin, g[r][c].spin * NeighbourSum(g, n, r, c))
  {
    RecomputeRows(g, n, n)
  }

  /** The configuration constants and observables of an `IsingModel`. The
      critical temperature `Tc` and inverse temperature `β` are floating-point
      functions of `k`, `J` and `T` and are not part of the model. */
  datatype Lattice = Lattice(
    size: nat,
    spins: Grid,
    hamiltonian: int,
    magnetisation: real,
    k: real,
    J: int,
    T: real)

  predicate WellFormed(l: Lattice)
  {
    IsLattice(l.spins, l.size)
  }

  /** The state `calculateSystemProperties` stores at `(r, c)`. */
  predicate LocalState(g: Grid, n: nat, r: nat, c: nat)
    requires IsLattice(g, n) && r < n && c < n
  {
    g[r][c].state == g[r][c].spin * NeighbourSum(g, n, r, c)
  }

  /** What `calculateSystemProperties` establishes: every state is spin times
      neighbour sum, the energy is `-J/2` times the sum of the states (each
      bond counted once), and the magnetisation is the mean spin. */
  predicate Consistent(l: Lattice)
  {
    && WellFormed(l)
    && (forall r: nat, c: nat :: r < l.size && c < l.size ==> LocalState(l.spins, l.size, r, c))
    && l.hamiltonian == Energy(l.J, l.spins)
    && l.magnetisation == Mean(SpinTotal(l.spins), SiteCount(l.size))
  }

  /** `-J · Σσiσj`, the hamiltonian of the states in `g`. */
  function Energy(J: int, g: Grid): int
  {
    -J * HalfStateTotal(g)
  }

  /** The number of sites of an n-by-n lattice. */
  function SiteCount(n: nat): (count: nat)
    ensures n > 0 ==> count > 0
  {
    n * n
  }

  /** The neighbour sum reads spins only. */
  lemma NeighbourSumOfSameSpins(g: Grid, h: Grid, n: nat, r: nat, c: nat)
    requires IsLattice(g, n) && IsLattice(h, n) && SameSpins(g, h, n)
    requires r < n && c < n
    ensures NeighbourSum(g, n, r, c) == NeighbourSum(h, n, r, c)
  {
  }

  lemma SpinTimesEven(s: int, x: int)
    requires IsSpin(s) && x % 2 == 0
    ensures (s * x) % 2 == 0
  {
  }

  /** What one recomputation pass yields. */
  lemma RecomputeFacts(g: Grid, n: nat)
    requires IsLattice(g, n)
    ensures var h := Recompute(g, n);
      && SameSpins(h, g, n)
      && (forall r: nat, c: nat :: r < n && c < n ==> LocalState(h, n, r, c))
  {
    var h := Recompute(g, n);
    forall r: nat, c: nat | r < n && c < n
      ensures LocalState(h, n, r, c)
    {
      NeighbourSumOfSameSpins(h, g, n, r, c);
    }
  }

  /** Local states are even, so halving each of them halves their sum exactly. */
  lemma LocalStatesHalve(g: Grid, n: nat)
    requires IsLattice(g, n)
    requires forall r: nat, c: nat :: r < n && c < n ==> LocalState(g, n, r, c)
    ensures 2 * HalfStateTotal(g) == StateTotal(g)
  {
    forall r, c | 0 <= r < |g| && 0 <= c < |g[r]|
      ensures g[r][c].state % 2 == 0
    {
      assert LocalState(g, n, r, c);
      SpinTimesEven(g[r][c].spin, NeighbourSum(g, n, r, c));
    }
    HalfStateTotalExact(g);
  }

  /** The mean of `count` values summing to `total`; it lies in [-1, 1] when
      every value does. */
  function Mean(total: int, count: int): (m: real)
    requires count > 0
    ensures m * count as real == total as real
    ensures -count <= total <= count ==> -1.0 <= m <= 1.0
  {
    total as real / count as real
  }

  lemma ScaleHalf(J: int, half: int, total: int)
    requires 2 * half == total
    ensures 2 * (-J * half) == -J * total
  {
  }

  /** Each bond enters the sum of the states twice, once from either end, and
      the hamiltonian counts it once: `2·H = -J · Σ state`. */
  lemma EnergyCountsBondsOnce(l: Lattice)
    requires Consistent(l)
    ensures 2 * l.hamiltonian == -l.J * StateTotal(l.spins)
  {
    LocalStatesHalve(l.spins, l.size);
    ScaleHalf(l.J, HalfStateTotal(l.spins), StateTotal(l.spins));
  }

  /** The second half of `calculateSystemProperties()`: with every state of `g`
      already local, `Σσiσj` gives the hamiltonian and the spin total gives the
      magnetisation. */
  function WithObservables(l: Lattice, g: Grid): (r: Lattice)
    requires IsLattice(g, l.size)
    requires forall r: nat, c: nat :: r < l.size && c < l.size ==> LocalState(g, l.size, r, c)
    ensures Consistent(r) && r.spins == g
    ensures r.size == l.size && r.k == l.k && r.J == l.J && r.T == l.T
    ensures -1.0 <= r.magnetisation <= 1.0
  {
    var n := l.size;
    LocalStatesHalve(g, n);
    SpinTotalBound(g, n);
    l.(spins := g,
       hamiltonian := Energy(l.J, g),
       magnetisation := Mean(SpinTotal(g), SiteCount(n)))
  }

  /** `calculateSystemProperties()`: one pass over all sites that recomputes every
      state and then sets the hamiltonian and the magnetisation. No spin changes. */
  function SystemProperties(l: Lattice): (r: Lattice)
    requires WellFormed(l)
    ensures Consistent(r)
    ensures r.size == l.size && r.k == l.k && r.J == l.J && r.T == l.T
    ensures forall i, j {:trigger r.spins[i][j]} :: 0 <= i < l.size && 0 <= j < l.size ==>
      r.spins[i][j].spin == l.spins[i][j].spin
    ensures -1.0 <= r.magnetisation <= 1.0
  {
    RecomputeFacts(l.spins, l.size);
    WithObservables(l, Recompute(l.spins, l.size))
  }

  /** Recomputation reads spins only. */
  lemma RecomputeOfSameSpins(g: Grid, h: Grid, n: nat)
    requires IsLattice(g, n) && IsLattice(h, n) && SameSpins(g, h, n)
    ensures Recompute(g, n) == Recompute(h, n)
  {
    var a := Recompute(g, n);
    var b := Recompute(h, n);
    forall r | 0 <= r < n
      ensures a[r] == b[r]
    {
      forall c | 0 <= c < n
        ensures a[r][c] == b[r][c]
      {
        NeighbourSumOfSameSpins(g, h, n, r, c);
      }
    }
  }

  /** The properties depend on the spins alone. */
  lemma SystemPropertiesOfSameSpins(l: Lattice, m: Lattice)
    requires WellFormed(l) && WellFormed(m)
    requires l.size == m.size && l.k == m.k && l.J == m.J && l.T == m.T
    requires SameSpins(l.spins, m.spins, l.size)
    ensures SystemProperties(l) == SystemProperties(m)
  {
    RecomputeOfSameSpins(l.spins, m.spins, l.size);
  }

  /** Recomputing states that are already local changes nothing. */
  lemma RecomputeOfLocal(g: Grid, n: nat)
    requires IsLattice(g, n)
    requires forall r: nat, c: nat :: r < n && c < n ==> LocalState(g, n, r, c)
    ensures Recompute(g, n) == g
  {
    var h := Recompute(g, n);
    forall r | 0 <= r < n
      ensures h[r] == g[r]
    {
      forall c | 0 <= c < n
        ensures h[r][c] == g[r][c]
      {
        assert LocalState(g, n, r, c);
      }
    }
  }

  /** A lattice is consistent exactly when recomputing its properties changes nothing. */
  lemma ConsistentIsFixpoint(l: Lattice)
    requires WellFormed(l)
    ensures Consistent(l) <==> SystemProperties(l) == l
  {
    if Consistent(l) {
      var n := l.size;
      RecomputeOfLocal(l.spins, n);
      var p := SystemProperties(l);
      assert p.spins == l.spins;
      assert p.hamiltonian == l.hamiltonian;
      assert p.magnetisation == l.magnetisation;
    }
  }

  /** Calling `calculateSystemProperties()` a second time changes nothing. */
  lemma SystemPropertiesIdempotent(l: Lattice)
    requires WellFormed(l)
    ensures SystemProperties(SystemProperties(l)) == SystemProperties(l)
  {
    ConsistentIsFixpoint(SystemProperties(l));
  }

  lemma {:induction false} RowSpinTotalConst(row: seq<Site>, s: int)
    requires forall i :: 0 <= i < |row| ==> row[i].spin == s
    ensures RowSpinTotal(row) == |row| * s
  {
    if |row| > 0 {
      RowSpinTotalConst(row[1..], s);
    }
  }

  lemma {:induction false} RowStateTotalConst(row: seq<Site>, s: int)
    requires forall i :: 0 <= i < |row| ==> row[i].state == s
    ensures RowStateTotal(row) == |row| * s
  {
    if |row| > 0 {
      RowStateTotalConst(row[1..], s);
    }
  }

  /** A grid of `|g|` rows of `n` sites, every spin `s` and every state `t`. */
  lemma {:induction false} TotalsConst(g: Grid, n: nat, s: int, t: int)
    requires forall r :: 0 <= r < |g| ==> |g[r]| == n
    requires forall r, c :: 0 <= r < |g| && 0 <= c < n ==> g[r][c].spin == s && g[r][c].state == t
    ensures SpinTotal(g) == |g| * n * s
    ensures StateTotal(g) == |g| * n * t
  {
    if |g| > 0 {
      RowSpinTotalConst(g[0], s);
      RowStateTotalConst(g[0], t);
      TotalsConst(g[1..], n, s, t);
      assert |g| * n * s == n * s + (|g| - 1) * n * s;
      assert |g| * n * t == n * t + (|g| - 1) * n * t;
    }
  }

  /** The hamiltonian of `n²` states all equal to `2u`. */
  lemma EnergyOfConstant(J: int, n: int, half: int, total: int, u: int)
    requires total == n * n * (2 * u) && 2 * half == total
    ensures -J * half == -u * J * n * n
  {
  }

  /** The mean of `count` values all equal to `s`. */
  lemma MeanOfConstant(total: int, count: int, s: int)
    requires count > 0 && total == count * s
    ensures Mean(total, count) == s as real
  {
  }

  /** A consistent lattice whose spins all equal `s`: every state is 4, the
      hamiltonian is `-2·J·N²` and the magnetisation is `s`. */
  lemma UniformConsistent(p: Lattice, s: int)
    requires Consistent(p) && IsSpin(s)
    requires forall r, c :: 0 <= r < p.size && 0 <= c < p.size ==> p.spins[r][c].spin == s
    ensures forall r, c :: 0 <= r < p.size && 0 <= c < p.size ==> p.spins[r][c].state == 4
    ensures p.hamiltonian == -2 * p.J * p.size * p.size
    ensures p.magnetisation == s as real
  {
    var n := p.size;
    var g: Grid := p.spins;
    forall r: nat, c: nat | r < n && c < n
      ensures g[r][c].state == 4
    {
      assert LocalState(g, n, r, c);
      assert NeighbourSum(g, n, r, c) == 4 * s;
    }
    TotalsConst(g, n, s, 4);
    LocalStatesHalve(g, n);
    EnergyOfConstant(p.J, n, HalfStateTotal(g), StateTotal(g), 2);
    MeanOfConstant(SpinTotal(g), SiteCount(n), s);
  }

  /** All spins +1, or all -1: every state is 4, the hamiltonian is `-2·J·N²`
      and the magnetisation is the common spin. */
  lemma UniformProperties(l: Lattice, s: int)
    requires WellFormed(l) && IsSpin(s)
    requires forall r, c :: 0 <= r < l.size && 0 <= c < l.size ==> l.spins[r][c].spin == s
    ensures var p := SystemProperties(l);
      && (forall r, c :: 0 <= r < l.size && 0 <= c < l.size ==> p.spins[r][c].state == 4)
      && p.hamiltonian == -2 * l.J * l.size * l.size
      && p.magnetisation == s as real
  {
    var p := SystemProperties(l);
    forall r, c | 0 <= r < l.size && 0 <= c < l.size
      ensures p.spins[r][c].spin == s
    {
      assert l.spins[r][c].spin == s;
    }
    UniformConsistent(p, s);
  }

  /** The spin of the checkerboard pattern at `(r, c)`. */
  function Checker(r: nat, c: nat): int
  {
    if (r + c) % 2 == 0 then 1 else -1
  }

  lemma {:induction false} RowSpinTotalAlternating(row: seq<Site>)
    requires |row| % 2 == 0
    requires forall i :: 0 <= i < |row| ==> IsSpin(row[i].spin)
    requires forall i :: 0 <= i < |row| - 1 ==> row[i + 1].spin == -row[i].spin
    ensures RowSpinTotal(row) == 0
  {
    if |row| > 0 {
      assert row[1..][1..] == row[2..];
      RowSpinTotalAlternating(row[2..]);
    }
  }

  /** On an axis of even length a step in either direction changes parity. */
  lemma StepChangesParity(i: nat, n: nat)
    requires n % 2 == 0 && i < n
    ensures (i + Prev(i, n)) % 2 == 1 && (i + Next(i, n)) % 2 == 1
  {
  }

  lemma CheckerOpposite(r: nat, c: nat, r2: nat, c2: nat)
    requires (r + c + r2 + c2) % 2 == 1
    ensures Checker(r2, c2) == -Checker(r, c)
  {
  }

  /** On an even torus every neighbour of a checkerboard site has the opposite spin. */
  lemma CheckerNeighbours(r: nat, c: nat, n: nat)
    requires n % 2 == 0 && r < n && c < n
    ensures Checker(r, Prev(c, n)) == -Checker(r, c)
    ensures Checker(r, Next(c, n)) == -Checker(r, c)
    ensures Checker(Prev(r, n), c) == -Checker(r, c)
    ensures Checker(Next(r, n), c) == -Checker(r, c)
  {
    StepChangesParity(r, n);
    StepChangesParity(c, n);
    CheckerOpposite(r, c, r, Prev(c, n));
    CheckerOpposite(r, c, r, Next(c, n));
    CheckerOpposite(r, c, Prev(r, n), c);
    CheckerOpposite(r, c, Next(r, n), c);
  }

  /** Every local state of a checkerboard on an even torus is -4. */
  lemma CheckerboardStates(g: Grid, n: nat)
    requires IsLattice(g, n) && n % 2 == 0
    requires forall r: nat, c: nat :: r < n && c < n ==> LocalState(g, n, r, c)
    requires forall r, c :: 0 <= r < n && 0 <= c < n ==> g[r][c].spin == Checker(r, c)
    ensures forall r, c :: 0 <= r < n && 0 <= c < n ==> g[r][c].state == -4
  {
    forall r: nat, c: nat | r < n && c < n
      ensures g[r][c].state == -4
    {
      assert LocalState(g, n, r, c);
      CheckerNeighbours(r, c, n);
      assert NeighbourSum(g, n, r, c) == -4 * Checker(r, c);
    }
  }

  /** A consistent checkerboard lattice: every state is -4, the hamiltonian
      is `+2·J·N²` and the magnetisation is 0. */
  lemma CheckerboardConsistent(p: Lattice)
    requires Consistent(p) && p.size % 2 == 0
    requires forall r, c :: 0 <= r < p.size && 0 <= c < p.size ==> p.spins[r][c].spin == Checker(r, c)
    ensures forall r, c :: 0 <= r < p.size && 0 <= c < p.size ==> p.spins[r][c].state == -4
    ensures p.hamiltonian == 2 * p.J * p.size * p.size
    ensures p.magnetisation == 0.0
  {
    var n := p.size;
    var g: Grid := p.spins;
    CheckerboardStates(g, n);
    forall r: nat, c: nat | r < n && c < n - 1
      ensures g[r][c + 1].spin == -g[r][c].spin
    {
      CheckerOpposite(r, c, r, c + 1);
    }
    TotalsStateConst(g, n, -4);
    SpinTotalCheckerboard(g, n);
    LocalStatesHalve(g, n);
    EnergyOfConstant(p.J, n, HalfStateTotal(g), StateTotal(g), -2);
    MeanOfConstant(SpinTotal(g), SiteCount(n), 0);
  }

  /** On an even torus the checkerboard is the antiferromagnetic ground
      state: every state is -4, the hamiltonian is `+2·J·N²` and the
      magnetisation is 0. */
  lemma CheckerboardProperties(l: Lattice)
    requires WellFormed(l) && l.size % 2 == 0
    requires forall r, c :: 0 <= r < l.size && 0 <= c < l.size ==> l.spins[r][c].spin == Checker(r, c)
    ensures var p := SystemProperties(l);
      && (forall r, c :: 0 <= r < l.size && 0 <= c < l.size ==> p.spins[r][c].state == -4)
      && p.hamiltonian == 2 * l.J * l.size * l.size
      && p.magnetisation == 0.0
  {
    var p := SystemProperties(l);
    forall r: nat, c: nat | r < l.size && c < l.size
      ensures p.spins[r][c].spin == Checker(r, c)
    {
      assert l.spins[r][c].spin == Checker(r, c);
    }
    CheckerboardConsistent(p);
  }

  lemma {:induction false} TotalsStateConst(g: Grid, n: nat, t: int)
    requires forall r :: 0 <= r < |g| ==> |g[r]| == n
    requires forall r, c :: 0 <= r < |g| && 0 <= c < n ==> g[r][c].state == t
    ensures StateTotal(g) == |g| * n * t
  {
    if |g| > 0 {
      RowStateTotalConst(g[0], t);
      TotalsStateConst(g[1..], n, t);
      assert |g| * n * t == n * t + (|g| - 1) * n * t;
    }
  }

  lemma {:induction false} SpinTotalCheckerboard(g: Grid, n: nat)
    requires n % 2 == 0
    requires forall r :: 0 <= r < |g| ==> |g[r]| == n
    requires forall r, c :: 0 <= r < |g| && 0 <= c < n ==> IsSpin(g[r][c].spin)
    requires forall r, c :: 0 <= r < |g| && 0 <= c < n - 1 ==> g[r][c + 1].spin == -g[r][c].spin
    ensures SpinTotal(g) == 0
  {
    if |g| > 0 {
      RowSpinTotalAlternating(g[0]);
      SpinTotalCheckerboard(g[1..], n);
    }
  }

  // Construction.

  /** The options object of the constructor; a missing entry is `None`. */
  datatype Options = Options(k: Option<real>, J: Option<int>, T: Option<real>)

  const DefaultK: real := 1.0
  const DefaultJ: int := 1
  const DefaultT: real := 0.01

  /** `x || fallback` for a real option: missing and zero are falsy. */
  function RealOr(x: Option<real>, fallback: real): real
  {
    if x.Some? && x.value != 0.0 then x.value else fallback
  }

  /** `x || fallback` for an integer option. */
  function IntOr(x: Option<int>, fallback: int): int
  {
    if x.Some? && x.value != 0 then x.value else fallback
  }

  /** A spin drawn by `Math.random() < 0.5 ? 1 : -1`. */
  function InitialSpin(p: real): (s: int)
    requires IsUnitDraw(p)
    ensures IsSpin(s)
    ensures s == 1 <==> p < 0.5
  {
    if p < 0.5 then 1 else -1
  }

  /** One draw for every site, row by row. */
  predicate ValidInitialDraws(draws: seq<seq<real>>, n: nat)
  {
    && |draws| == n
    && (forall r :: 0 <= r < n ==> |draws[r]| == n)
    && (forall r, c :: 0 <= r < n && 0 <= c < n ==> IsUnitDraw(draws[r][c]))
  }

  /** The spins `generateInitialState` draws, one per site, row by row. */
  function InitialGrid(n: nat, draws: seq<seq<real>>): (g: Grid)
    requires n > 0 && ValidInitialDraws(draws, n)
    ensures IsLattice(g, n)
    ensures forall r, c :: 0 <= r < n && 0 <= c < n ==> g[r][c].spin == InitialSpin(draws[r][c])
  {
    seq(n, r requires 0 <= r < n =>
      seq(n, c requires 0 <= c < n => Site(InitialSpin(draws[r][c]), 0)))
  }

  /** `new IsingModel(size, options)`: falsy options fall back to their
      defaults, spins are drawn site by site, and the system properties are
      computed twice (once by `generateInitialState`, once by the
      constructor). A state is `null` until the first computation; the model
      starts it at 0. */
  function Construct(size: nat, options: Options, draws: seq<seq<real>>): (l: Lattice)
    requires size > 0
    requires ValidInitialDraws(draws, size)
    ensures Consistent(l)
    ensures l.size == size
    ensures l.k != 0.0 && l.J != 0 && l.T != 0.0
    ensures forall r, c :: 0 <= r < size && 0 <= c < size ==>
      l.spins[r][c].spin == InitialSpin(draws[r][c])
  {
    var initial := Lattice(size, InitialGrid(size, draws), 0, 0.0,
      RealOr(options.k, DefaultK), IntOr(options.J, DefaultJ), RealOr(options.T, DefaultT));
    var once := SystemProperties(initial);
    SystemProperties(once)
  }

  /** The fallback rule of the constructor: a given non-zero constant is kept,
      a missing or zero one becomes its default, so `T = 0` runs at `T = 0.01`. */
  lemma ConstructorDefaults(size: nat, options: Options, draws: seq<seq<real>>)
    requires size > 0
    requires ValidInitialDraws(draws, size)
    ensures var l := Construct(size, options, draws);
      && (l.k == if options.k.Some? && options.k.value != 0.0 then options.k.value else 1.0)
      && (l.J == if options.J.Some? && options.J.value != 0 then options.J.value else 1)
      && (l.T == if options.T.Some? && options.T.value != 0.0 then options.T.value else 0.01)
      && (options.T == Some(0.0) ==> l.T == 0.01)
  {
  }

  /** Constructing performs one recomputation too many: the second one changes nothing. */
  lemma ConstructRecomputesOnce(size: nat, options: Options, draws: seq<seq<real>>)
    requires size > 0
    requires ValidInitialDraws(draws, size)
    ensures SystemProperties(Construct(size, options, draws)) == Construct(size, options, draws)
  {
    ConsistentIsFixpoint(Construct(size, options, draws));
  }
}
