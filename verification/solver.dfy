/** The Held-Karp solver `solveTSP`: table initialisation, the transition
    loop over masks in ascending order, the best-cycle extraction and the
    reconstruction of the tour from the parent pointers. The city count `n`
    and the cost matrix `w` are explicit parameters. */
module Solver {
  import opened Masks
  import opened Paths
  import opened Recurrence

  /** A `2^n x n` table, indexed by mask and city. */
  predicate Shaped(n: nat, t: seq<seq<int>>)
  {
    |t| == Pow2(n) && forall m :: 0 <= m < |t| ==> |t[m]| == n
  }

  /** Allocates `dp` filled with `INF` and `parent` filled with `-1`, then
      seeds the start state `dp[1][0] = 0`. */
  method InitTables(n: nat) returns (dp: seq<seq<int>>, parent: seq<seq<int>>)
    requires n >= 1
    ensures Shaped(n, dp) && Shaped(n, parent)
    ensures forall m, x :: 0 <= m < Pow2(n) && 0 <= x < n ==> parent[m][x] == -1
    ensures dp[1][0] == 0
    ensures forall m, x :: 0 <= m < Pow2(n) && 0 <= x < n && (m, x) != (1, 0) ==> dp[m][x] == INF
  {
    dp := seq(Pow2(n), _ => seq(n, _ => INF));
    parent := seq(Pow2(n), _ => seq(n, _ => -1));
    dp := dp[1 := dp[1][0 := 0]];
  }

  /** The content of cell `(m, x)` while the transition loop is at mask `M`,
      source `U`, target `V`: a cell whose predecessor mask `m - {x}` is below
      `M` is final; one whose predecessor is above `M` still holds its seed;
      one whose predecessor is `M` has seen the sources below `U`, and also
      `U` itself when its city is below `V`. */
  ghost function Staged(n: nat, w: seq<seq<int>>, m: nat, x: nat, M: nat, U: nat, V: nat): Entry
    requires Square(n, w) && x < n && U <= n && (V == 0 || U < n)
  {
    if !Has(m, x) then Entry(INF, -1)
    else
      var pm := m - Pow2(x);
      if pm < M then Table(n, w, m, x)
      else if pm > M then Fold(n, w, pm, x, 0)
      else if x < V then Fold(n, w, pm, x, U + 1)
      else Fold(n, w, pm, x, U)
  }

  /** Both tables agree with `Staged` at loop position `(M, U, V)`. */
  ghost predicate Stage(n: nat, w: seq<seq<int>>, dp: seq<seq<int>>, parent: seq<seq<int>>, M: nat, U: nat, V: nat)
    requires Square(n, w) && Shaped(n, dp) && Shaped(n, parent) && U <= n && (V == 0 || U < n)
  {
    forall m, x :: 0 <= m < Pow2(n) && 0 <= x < n ==>
      && dp[m][x] == Staged(n, w, m, x, M, U, V).cost
      && parent[m][x] == Staged(n, w, m, x, M, U, V).parent
  }

  /** The transition loop: for every mask in ascending order, every source
      `u` in the mask with a finite cell, and every target `v` outside it,
      relax `dp[mask | {v}][v]` with `dp[mask][u] + w[u][v]` on a strict `<`.
      Afterwards every cell holds the value of the recurrence. */
  method Relax(n: nat, w: seq<seq<int>>, dp0: seq<seq<int>>, parent0: seq<seq<int>>)
    returns (dp: seq<seq<int>>, parent: seq<seq<int>>)
    requires n >= 1 && Square(n, w) && Shaped(n, dp0) && Shaped(n, parent0)
    requires forall m, x :: 0 <= m < Pow2(n) && 0 <= x < n ==> dp0[m][x] == Seed(m, x) && parent0[m][x] == -1
    ensures Shaped(n, dp) && Shaped(n, parent)
    ensures forall m, x :: 0 <= m < Pow2(n) && 0 <= x < n ==>
              dp[m][x] == Table(n, w, m, x).cost && parent[m][x] == Table(n, w, m, x).parent
  {
    dp, parent := dp0, parent0;
    var mask := 0;
    while mask < Pow2(n)
      invariant mask <= Pow2(n)
      invariant Shaped(n, dp) && Shaped(n, parent)
      invariant Stage(n, w, dp, parent, mask, 0, 0)
    {
      dp, parent := RelaxMask(n, w, dp, parent, mask);
      mask := mask + 1;
    }
  }

  /** One mask of the transition loop: every source `u` in the mask with a
      finite cell relaxes all its targets; afterwards every cell whose
      predecessor mask is `mask` is final. */
  method RelaxMask(n: nat, w: seq<seq<int>>, dp0: seq<seq<int>>, parent0: seq<seq<int>>, mask: nat)
    returns (dp: seq<seq<int>>, parent: seq<seq<int>>)
    requires Square(n, w) && Shaped(n, dp0) && Shaped(n, parent0) && mask < Pow2(n)
    requires Stage(n, w, dp0, parent0, mask, 0, 0)
    ensures Shaped(n, dp) && Shaped(n, parent)
    ensures Stage(n, w, dp, parent, mask + 1, 0, 0)
  {
    dp, parent := dp0, parent0;
    for u := 0 to n
      invariant Shaped(n, dp) && Shaped(n, parent)
      invariant Stage(n, w, dp, parent, mask, u, 0)
    {
      if !Has(mask, u) || dp[mask][u] == INF {
        SkipSource(n, w, dp, parent, mask, u);
        continue;
      }
      dp, parent := RelaxSource(n, w, dp, parent, mask, u);
    }
  }

  /** One source of the transition loop: for every target `v` outside the
      mask, `dp[mask | {v}][v]` takes `dp[mask][u] + w[u][v]` and `parent`
      takes `u` when that is strictly cheaper. */
  method RelaxSource(n: nat, w: seq<seq<int>>, dp0: seq<seq<int>>, parent0: seq<seq<int>>, mask: nat, u: nat)
    returns (dp: seq<seq<int>>, parent: seq<seq<int>>)
    requires Square(n, w) && Shaped(n, dp0) && Shaped(n, parent0) && mask < Pow2(n) && u < n
    requires Stage(n, w, dp0, parent0, mask, u, 0)
    requires Has(mask, u) && dp0[mask][u] != INF
    ensures Shaped(n, dp) && Shaped(n, parent)
    ensures Stage(n, w, dp, parent, mask, u + 1, 0)
  {
    dp, parent := dp0, parent0;
    for v := 0 to n
      invariant Shaped(n, dp) && Shaped(n, parent)
      invariant Stage(n, w, dp, parent, mask, u, v)
      invariant dp[mask][u] == dp0[mask][u]
    {
      if Has(mask, v) {
        SkipTarget(n, w, dp, parent, mask, u, v);
        continue;
      }
      var newMask := Or(mask, v);
      OrBelow(n, mask, v);
      var newCost := dp[mask][u] + w[u][v];
      var dp', parent' := dp, parent;
      if newCost < dp[newMask][v] {
        dp := dp[newMask := dp[newMask][v := newCost]];
        parent := parent[newMask := parent[newMask][v := u]];
      }
      RelaxTarget(n, w, dp', parent', dp, parent, mask, u, v);
    }
  }

  /** A source outside the mask, or with an `INF` cell, changes nothing. */
  lemma SkipSource(n: nat, w: seq<seq<int>>, dp: seq<seq<int>>, parent: seq<seq<int>>, M: nat, U: nat)
    requires Square(n, w) && Shaped(n, dp) && Shaped(n, parent) && M < Pow2(n) && U < n
    requires Stage(n, w, dp, parent, M, U, 0)
    requires !Has(M, U) || dp[M][U] == INF
    ensures Stage(n, w, dp, parent, M, U + 1, 0)
  {
    assert !Has(M, U) || Table(n, w, M, U).cost == INF;
  }

  /** A target already in the mask changes nothing: no cell has `M` as its
      predecessor for a city that `M` already holds. */
  lemma SkipTarget(n: nat, w: seq<seq<int>>, dp: seq<seq<int>>, parent: seq<seq<int>>, M: nat, U: nat, V: nat)
    requires Square(n, w) && Shaped(n, dp) && Shaped(n, parent) && U < n && V < n
    requires Stage(n, w, dp, parent, M, U, V)
    requires Has(M, V)
    ensures Stage(n, w, dp, parent, M, U, V + 1)
  {
    forall m, x | 0 <= m < Pow2(n) && 0 <= x < n && Has(m, x)
      ensures Staged(n, w, m, x, M, U, V + 1) == Staged(n, w, m, x, M, U, V)
    {
      HasSub(m, x);
    }
  }

  /** One relaxation of `dp[M | {V}][V]` from source `U` moves exactly that
      cell from the fold over sources below `U` to the fold including `U`. */
  lemma RelaxTarget(n: nat, w: seq<seq<int>>, dp: seq<seq<int>>, parent: seq<seq<int>>,
                    dp': seq<seq<int>>, parent': seq<seq<int>>, M: nat, U: nat, V: nat)
    requires Square(n, w) && Shaped(n, dp) && Shaped(n, parent) && M < Pow2(n) && U < n && V < n
    requires Stage(n, w, dp, parent, M, U, V)
    requires Has(M, U) && dp[M][U] != INF && !Has(M, V)
    requires Or(M, V) < Pow2(n)
    requires var c := dp[M][U] + w[U][V];
             if c < dp[Or(M, V)][V] then
               && dp' == dp[Or(M, V) := dp[Or(M, V)][V := c]]
               && parent' == parent[Or(M, V) := parent[Or(M, V)][V := U]]
             else dp' == dp && parent' == parent
    ensures Shaped(n, dp') && Shaped(n, parent')
    ensures Stage(n, w, dp', parent', M, U, V + 1)
  {
    var nm := Or(M, V);
    assert dp[M][U] == Table(n, w, M, U).cost by {
      assert Staged(n, w, M, U, M, U, V) == Table(n, w, M, U);
    }
    StagedTarget(n, w, M, U, V);
    forall m, x | 0 <= m < Pow2(n) && 0 <= x < n
      ensures dp'[m][x] == Staged(n, w, m, x, M, U, V + 1).cost
      ensures parent'[m][x] == Staged(n, w, m, x, M, U, V + 1).parent
    {
      if (m, x) != (nm, V) {
        assert dp'[m][x] == dp[m][x] && parent'[m][x] == parent[m][x];
        StagedOther(n, w, m, x, M, U, V);
      }
    }
  }

  /** The relaxed cell goes from the fold over sources below `U` to the fold
      including `U`. */
  lemma StagedTarget(n: nat, w: seq<seq<int>>, M: nat, U: nat, V: nat)
    requires Square(n, w) && U < n && V < n && !Has(M, V)
    ensures Has(Or(M, V), V) && Or(M, V) - Pow2(V) == M
    ensures Staged(n, w, Or(M, V), V, M, U, V) == Fold(n, w, M, V, U)
    ensures Staged(n, w, Or(M, V), V, M, U, V + 1) == Fold(n, w, M, V, U + 1)
  {
  }

  /** Every other cell keeps its staged value when the target advances. */
  lemma StagedOther(n: nat, w: seq<seq<int>>, m: nat, x: nat, M: nat, U: nat, V: nat)
    requires Square(n, w) && x < n && U < n && V < n && !Has(M, V)
    requires (m, x) != (Or(M, V), V)
    ensures Staged(n, w, m, x, M, U, V + 1) == Staged(n, w, m, x, M, U, V)
  {
    if Has(m, x) && x == V {
      assert m - Pow2(x) != M;
    }
  }

  /** The parent chain is well formed at every cell. */
  ghost predicate ChainOk(n: nat, w: seq<seq<int>>, dp: seq<seq<int>>, parent: seq<seq<int>>)
    requires Square(n, w) && Shaped(n, dp) && Shaped(n, parent)
  {
    forall m, x :: 0 <= m < Pow2(n) && 0 <= x < n ==> Linked(n, w, dp, parent, m, x)
  }

  /** Cell `(m, x)` of the parent chain is well formed: when finite, it has
      city 0 and its own city in its mask; the cell of city 0 is finite only
      for the start state, with cost 0 and no parent; every other finite cell
      names a parent in `m - {x}`, different from `x`, whose cell is finite
      and explains the cost exactly. */
  ghost predicate Linked(n: nat, w: seq<seq<int>>, dp: seq<seq<int>>, parent: seq<seq<int>>, m: nat, x: nat)
    requires Square(n, w) && Shaped(n, dp) && Shaped(n, parent) && m < Pow2(n) && x < n
  {
    dp[m][x] < INF ==>
      && Has(m, x) && Has(m, 0)
      && (x == 0 ==> m == 1 && dp[m][x] == 0 && parent[m][x] == -1)
      && (x != 0 ==>
            var p := parent[m][x];
            && 0 <= p < n && p != x && Has(m - Pow2(x), p)
            && dp[m - Pow2(x)][p] < INF
            && dp[m][x] == dp[m - Pow2(x)][p] + w[p][x])
  }

  /** The walk read off the parent chain from cell `(m, x)`: it starts at
      city 0, visits exactly the cities of `m` once each, ends at `x`, and
      costs exactly `dp[m][x]`. */
  ghost function ChainWalk(n: nat, w: seq<seq<int>>, dp: seq<seq<int>>, parent: seq<seq<int>>, m: nat, x: nat): (p: seq<int>)
    requires Square(n, w) && Shaped(n, dp) && Shaped(n, parent) && ChainOk(n, w, dp, parent)
    requires m < Pow2(n) && x < n && dp[m][x] < INF
    ensures IsWalk(n, m, x, p)
    ensures PathCost(n, w, p) == dp[m][x]
    decreases m
  {
    assert Linked(n, w, dp, parent, m, x);
    if x == 0 then
      StartWalk(n);
      [0]
    else
      var u := parent[m][x];
      var q := ChainWalk(n, w, dp, parent, m - Pow2(x), u);
      ExtendWalk(n, m, x, u, q);
      PathCostSnoc(n, w, q, x);
      q + [x]
  }

  /** `s` in reverse order, as Swift's `reverse()`. */
  function Reverse(s: seq<int>): (r: seq<int>)
    ensures |r| == |s|
    ensures forall i :: 0 <= i < |s| ==> r[i] == s[|s| - 1 - i]
  {
    if |s| == 0 then [] else [s[|s| - 1]] + Reverse(s[..|s| - 1])
  }

  lemma ConcatAssoc(a: seq<int>, b: seq<int>, c: seq<int>)
    ensures a + (b + c) == (a + b) + c
  {
  }

  lemma DropLast(s: seq<int>, c: int)
    ensures (s + [c])[..|s|] == s
  {
  }

  lemma ReverseSnoc(s: seq<int>, c: int)
    ensures Reverse(s + [c]) == [c] + Reverse(s)
  {
    assert (s + [c])[..|s|] == s;
  }

  /** One step back along the parent chain: the mask loses the current city,
      and the chain walk of the current cell is the chain walk of the parent
      cell followed by the current city (just `[0]` at the start state). */
  lemma ChainStep(n: nat, w: seq<seq<int>>, dp: seq<seq<int>>, parent: seq<seq<int>>, m: nat, x: nat)
    requires Square(n, w) && Shaped(n, dp) && Shaped(n, parent) && ChainOk(n, w, dp, parent)
    requires m < Pow2(n) && x < n && dp[m][x] < INF
    ensures Xor(m, x) < m
    ensures parent[m][x] == -1 ==> x == 0 && ChainWalk(n, w, dp, parent, m, x) == [x]
    ensures var p := parent[m][x];
            p != -1 ==> && 0 <= p < n && dp[Xor(m, x)][p] < INF
                        && ChainWalk(n, w, dp, parent, m, x) == ChainWalk(n, w, dp, parent, Xor(m, x), p) + [x]
  {
    assert Linked(n, w, dp, parent, m, x);
  }

  /** Walks the parent pointers back from `(full, lastCity)` until `-1`,
      removing each city from the mask with `^`, then reverses the collected
      cities and closes the cycle with city 0. */
  method Reconstruct(n: nat, w: seq<seq<int>>, dp: seq<seq<int>>, parent: seq<seq<int>>, lastCity: int)
    returns (path: seq<int>)
    requires n >= 1 && Square(n, w) && Shaped(n, dp) && Shaped(n, parent) && ChainOk(n, w, dp, parent)
    requires lastCity == -1 || (0 <= lastCity < n && dp[Full(n)][lastCity] < INF)
    ensures lastCity == -1 ==> path == [0]
    ensures lastCity != -1 ==>
              && |path| >= 2 && path[|path| - 1] == 0
              && IsWalk(n, Full(n), lastCity, path[..|path| - 1])
              && PathCost(n, w, path[..|path| - 1]) == dp[Full(n)][lastCity]
              && path[..|path| - 1] == ChainWalk(n, w, dp, parent, Full(n), lastCity)
  {
    path := [];
    var mask: nat := Full(n);
    var city := lastCity;
    ghost var target := if lastCity == -1 then [] else ChainWalk(n, w, dp, parent, Full(n), lastCity);
    while city != -1
      invariant mask < Pow2(n)
      invariant city != -1 ==>
                  && 0 <= city < n && dp[mask][city] < INF
                  && ChainWalk(n, w, dp, parent, mask, city) + Reverse(path) == target
      invariant city == -1 ==> Reverse(path) == target
      decreases if city == -1 then 0 else mask + 1
    {
      ReverseSnoc(path, city);
      ChainStep(n, w, dp, parent, mask, city);
      var prev := parent[mask][city];
      if prev != -1 {
        ghost var back := ChainWalk(n, w, dp, parent, Xor(mask, city), prev);
        ConcatAssoc(back, [city], Reverse(path));
      }
      path := path + [city];
      mask := Xor(mask, city);
      city := prev;
    }
    path := Reverse(path);
    DropLast(path, 0);
    path := path + [0];
  }

  /** Best-cycle extraction: the cheapest return `dp[full][i] + w[i][0]` over
      `i` in `1 ..< n`, the first such `i` on ties; `(INF, -1)` when no return
      is below `INF`. */
  method Extract(n: nat, w: seq<seq<int>>, dp: seq<seq<int>>) returns (minCost: int, lastCity: int)
    requires n >= 1 && Square(n, w) && Shaped(n, dp)
    ensures lastCity == -1 ==> minCost == INF
    ensures lastCity == -1 ==> forall i :: 1 <= i < n ==> dp[Full(n)][i] + w[i][0] >= INF
    ensures lastCity != -1 ==> 1 <= lastCity < n && minCost == dp[Full(n)][lastCity] + w[lastCity][0] < INF
    ensures lastCity != -1 ==> forall i :: 1 <= i < n ==> minCost <= dp[Full(n)][i] + w[i][0]
    ensures lastCity != -1 ==> forall i :: 1 <= i < lastCity ==> minCost < dp[Full(n)][i] + w[i][0]
  {
    var full := Full(n);
    minCost := INF;
    lastCity := -1;
    for i := 1 to n
      invariant lastCity == -1 ==> minCost == INF
      invariant lastCity == -1 ==> forall j :: 1 <= j < i ==> dp[full][j] + w[j][0] >= INF
      invariant lastCity != -1 ==> 1 <= lastCity < i && minCost == dp[full][lastCity] + w[lastCity][0] < INF
      invariant lastCity != -1 ==> forall j :: 1 <= j < i ==> minCost <= dp[full][j] + w[j][0]
      invariant lastCity != -1 ==> forall j :: 1 <= j < lastCity ==> minCost < dp[full][j] + w[j][0]
    {
      var totalCost := dp[full][i] + w[i][0];
      if totalCost < minCost {
        minCost := totalCost;
        lastCity := i;
      }
    }
  }

  /** Every tour costs at least the best return through its last city, or
      costs `INF` or more. */
  lemma TourBound(n: nat, w: seq<seq<int>>, t: seq<int>)
    requires n >= 2 && Square(n, w) && NonNegative(n, w) && IsTour(n, t)
    ensures 1 <= t[n - 1] < n
    ensures PathCost(n, w, t) >= INF || Table(n, w, Full(n), t[n - 1]).cost + w[t[n - 1]][0] <= PathCost(n, w, t)
  {
    var walk := t[..n];
    var i := t[n - 1];
    assert walk[0] != walk[n - 1];
    forall c | 0 <= c < n
      ensures Has(Full(n), c) <==> c in walk
    {
      FullHas(n, c);
    }
    assert IsWalk(n, Full(n), i, walk);
    assert t == walk + [0];
    PathCostSnoc(n, w, walk, 0);
    TableLowerBound(n, w, Full(n), i, walk);
  }

  /** Held-Karp: the cheapest Hamiltonian cycle through city 0 and its cost.
      When no return to city 0 is below `INF` (always so for `n == 1`) the
      result is `(INF, [0])`. */
  method SolveTSP(n: nat, w: seq<seq<int>>) returns (cost: int, path: seq<int>)
    requires n >= 1 && Square(n, w) && NonNegative(n, w)
    ensures cost <= INF
    ensures cost < INF ==> IsTour(n, path) && PathCost(n, w, path) == cost
    ensures cost < INF ==> forall t :: IsTour(n, t) ==> cost <= PathCost(n, w, t)
    ensures cost < INF ==> forall i :: 1 <= i < path[n - 1] ==> cost < Table(n, w, Full(n), i).cost + w[i][0]
    ensures cost == INF ==> path == [0]
    ensures cost == INF && n >= 2 ==> forall t :: IsTour(n, t) ==> PathCost(n, w, t) >= INF
    ensures n == 1 ==> cost == INF && path == [0]
    ensures n >= 2 && Uniform(n, w, w[0][1]) && n * w[0][1] < INF ==> cost == n * w[0][1]
    ensures cost < INF ==> Table(n, w, Full(n), path[n - 1]).cost < INF
                           && path[..n] == TableWalk(n, w, Full(n), path[n - 1])
  {
    var dp0, parent0 := InitTables(n);
    var dp, parent := Relax(n, w, dp0, parent0);
    TableChainOk(n, w, dp, parent);
    var lastCity;
    cost, lastCity := Extract(n, w, dp);
    path := Reconstruct(n, w, dp, parent, lastCity);
    if lastCity != -1 {
      FoundTour(n, w, dp[Full(n)][lastCity], cost, lastCity, path);
      ResultIsTableTour(n, w, dp, parent, lastCity, path);
    }
    if n >= 2 {
      ExtractOptimal(n, w, dp, cost, lastCity);
    }
    if n >= 2 && Uniform(n, w, w[0][1]) && n * w[0][1] < INF {
      UniformOptimum(n, w, cost, path);
    }
  }

  /** With every off-diagonal cost equal to `c` and `n * c < INF`, any result
      meeting the solver's contract (a tour of that cost when below `INF`, and
      no tour below `INF` otherwise) costs exactly `n * c`. */
  lemma UniformOptimum(n: nat, w: seq<seq<int>>, cost: int, path: seq<int>)
    requires n >= 2 && Square(n, w) && Uniform(n, w, w[0][1]) && n * w[0][1] < INF
    requires cost <= INF
    requires cost < INF ==> IsTour(n, path) && PathCost(n, w, path) == cost
    requires cost == INF ==> forall t :: IsTour(n, t) ==> PathCost(n, w, t) >= INF
    ensures cost == n * w[0][1]
  {
    var c := w[0][1];
    IdentityTour(n);
    UniformTourCost(n, w, c, seq(n, i => i) + [0]);
    if cost < INF {
      UniformTourCost(n, w, c, path);
    }
  }

  /** The extracted return is no dearer than any tour: with tables holding
      the recurrence, a finite `minCost` is at most every tour's cost, and an
      `INF` one means every tour costs `INF` or more. */
  lemma ExtractOptimal(n: nat, w: seq<seq<int>>, dp: seq<seq<int>>, minCost: int, lastCity: int)
    requires n >= 2 && Square(n, w) && NonNegative(n, w) && Shaped(n, dp)
    requires forall m, x :: 0 <= m < Pow2(n) && 0 <= x < n ==> dp[m][x] == Table(n, w, m, x).cost
    requires lastCity == -1 ==> minCost == INF && forall i :: 1 <= i < n ==> dp[Full(n)][i] + w[i][0] >= INF
    requires lastCity != -1 ==> minCost < INF && forall i :: 1 <= i < n ==> minCost <= dp[Full(n)][i] + w[i][0]
    ensures minCost < INF ==> forall t :: IsTour(n, t) ==> minCost <= PathCost(n, w, t)
    ensures minCost == INF ==> forall t :: IsTour(n, t) ==> PathCost(n, w, t) >= INF
  {
    forall t | IsTour(n, t)
      ensures minCost < INF ==> minCost <= PathCost(n, w, t)
      ensures minCost == INF ==> PathCost(n, w, t) >= INF
    {
      TourBound(n, w, t);
      assert Full(n) < Pow2(n);
    }
  }

  /** A found return closes the reconstructed walk into a tour whose summed
      cost is the extracted cost, with the chosen city last before the
      return to 0. */
  lemma FoundTour(n: nat, w: seq<seq<int>>, walkCost: int, cost: int, lastCity: nat, path: seq<int>)
    requires Square(n, w) && lastCity < n
    requires cost == walkCost + w[lastCity][0]
    requires |path| >= 2 && path[|path| - 1] == 0
    requires IsWalk(n, Full(n), lastCity, path[..|path| - 1])
    requires PathCost(n, w, path[..|path| - 1]) == walkCost
    ensures IsTour(n, path) && PathCost(n, w, path) == cost
    ensures path[n - 1] == lastCity && path[..n] == path[..|path| - 1]
  {
    CloseTour(n, w, lastCity, path);
  }

  /** Tables holding the recurrence have a well-formed parent chain. */
  lemma TableChainOk(n: nat, w: seq<seq<int>>, dp: seq<seq<int>>, parent: seq<seq<int>>)
    requires Square(n, w) && Shaped(n, dp) && Shaped(n, parent)
    requires forall m, x :: 0 <= m < Pow2(n) && 0 <= x < n ==>
               dp[m][x] == Table(n, w, m, x).cost && parent[m][x] == Table(n, w, m, x).parent
    ensures ChainOk(n, w, dp, parent)
  {
    forall m, x | 0 <= m < Pow2(n) && 0 <= x < n
      ensures Linked(n, w, dp, parent, m, x)
    {
      if dp[m][x] < INF {
        TableChain(n, w, m, x);
      }
    }
  }

  /** The meaning of a final cell (non-negative costs): `dp[m][x]` is the
      least cost of a walk from city 0 over exactly the cities of `m` ending
      at `x` when that least cost is below `INF`, and `INF` otherwise. */
  lemma TableIsMinimum(n: nat, w: seq<seq<int>>, m: nat, x: nat)
    requires n >= 1 && Square(n, w) && NonNegative(n, w) && m < Pow2(n) && x < n
    ensures Table(n, w, m, x).cost <= INF
    ensures forall p :: IsWalk(n, m, x, p) && PathCost(n, w, p) < INF ==> Table(n, w, m, x).cost <= PathCost(n, w, p)
    ensures Table(n, w, m, x).cost < INF ==> exists p :: IsWalk(n, m, x, p) && PathCost(n, w, p) == Table(n, w, m, x).cost
  {
    TableBound(n, w, m, x);
    forall p | IsWalk(n, m, x, p) && PathCost(n, w, p) < INF
      ensures Table(n, w, m, x).cost <= PathCost(n, w, p)
    {
      TableLowerBound(n, w, m, x, p);
    }
    if Table(n, w, m, x).cost < INF {
      var dp := seq(Pow2(n), mm requires 0 <= mm => seq(n, xx requires 0 <= xx < n => Table(n, w, mm, xx).cost));
      var parent := seq(Pow2(n), mm requires 0 <= mm => seq(n, xx requires 0 <= xx < n => Table(n, w, mm, xx).parent));
      TableChainOk(n, w, dp, parent);
      var p := ChainWalk(n, w, dp, parent, m, x);
    }
  }

  /** A walk over the full mask closed by city 0 is a tour, whose cost is the
      walk's cost plus the return edge. */
  lemma CloseTour(n: nat, w: seq<seq<int>>, x: nat, path: seq<int>)
    requires Square(n, w) && x < n
    requires |path| >= 2 && path[|path| - 1] == 0
    requires IsWalk(n, Full(n), x, path[..|path| - 1])
    ensures IsTour(n, path)
    ensures PathCost(n, w, path) == PathCost(n, w, path[..|path| - 1]) + w[x][0]
  {
    var walk := path[..|path| - 1];
    WalkFullLength(n, x, walk);
    assert path == walk + [0];
    PathCostSnoc(n, w, walk, 0);
    forall c | 0 <= c < n
      ensures c in path[..n]
    {
      FullHas(n, c);
    }
  }
  /** The walk read off the recurrence's own parent entries from a finite
      cell `(m, x)`: the reference for the tour the solver returns. */
  ghost function TableWalk(n: nat, w: seq<seq<int>>, m: nat, x: nat): seq<int>
    requires Square(n, w) && x < n && Table(n, w, m, x).cost < INF
    decreases m
  {
    TableChain(n, w, m, x);
    if x == 0 then [0]
    else TableWalk(n, w, m - Pow2(x), Table(n, w, m, x).parent) + [x]
  }

  /** On tables holding the recurrence, the parent chain of the tables is
      the parent chain of the recurrence. */
  lemma {:induction false} ChainIsTableWalk(n: nat, w: seq<seq<int>>, dp: seq<seq<int>>, parent: seq<seq<int>>, m: nat, x: nat)
    requires Square(n, w) && Shaped(n, dp) && Shaped(n, parent) && ChainOk(n, w, dp, parent)
    requires forall m, x :: 0 <= m < Pow2(n) && 0 <= x < n ==>
               dp[m][x] == Table(n, w, m, x).cost && parent[m][x] == Table(n, w, m, x).parent
    requires m < Pow2(n) && x < n && dp[m][x] < INF
    ensures Table(n, w, m, x).cost < INF
    ensures ChainWalk(n, w, dp, parent, m, x) == TableWalk(n, w, m, x)
    decreases m
  {
    assert Linked(n, w, dp, parent, m, x);
    TableChain(n, w, m, x);
    if x != 0 {
      ChainIsTableWalk(n, w, dp, parent, m - Pow2(x), parent[m][x]);
    }
  }

  /** The tour the solver returns is the recurrence's parent chain from the
      full mask at the chosen last city, closed by city 0. */
  lemma ResultIsTableTour(n: nat, w: seq<seq<int>>, dp: seq<seq<int>>, parent: seq<seq<int>>, lastCity: nat, path: seq<int>)
    requires Square(n, w) && Shaped(n, dp) && Shaped(n, parent) && ChainOk(n, w, dp, parent)
    requires forall m, x :: 0 <= m < Pow2(n) && 0 <= x < n ==>
               dp[m][x] == Table(n, w, m, x).cost && parent[m][x] == Table(n, w, m, x).parent
    requires lastCity < n && dp[Full(n)][lastCity] < INF
    requires |path| == n + 1 && IsWalk(n, Full(n), lastCity, path[..n])
    requires path[..n] == ChainWalk(n, w, dp, parent, Full(n), lastCity)
    ensures path[n - 1] == lastCity
    ensures Table(n, w, Full(n), path[n - 1]).cost < INF
    ensures path[..n] == TableWalk(n, w, Full(n), path[n - 1])
  {
    ChainIsTableWalk(n, w, dp, parent, Full(n), lastCity);
  }
}
