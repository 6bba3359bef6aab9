/** The cost matrix, paths through it, and the two pure helpers over the
    matrix: the input validation and the path-cost check. */
module Paths {
  import opened Masks

  /** `w` is an `n x n` matrix; `w[i][j]` is the cost of going from `i` to `j`. */
  predicate Square(n: nat, w: seq<seq<int>>)
  {
    |w| == n && forall i :: 0 <= i < n ==> |w[i]| == n
  }

  /** The condition the input validation accepts: no negative cost between
      two distinct cities. Diagonal entries are unconstrained. */
  predicate NonNegative(n: nat, w: seq<seq<int>>)
    requires Square(n, w)
  {
    forall i, j :: 0 <= i < n && 0 <= j < n && i != j ==> w[i][j] >= 0
  }

  /** Every off-diagonal cost is `c`. */
  predicate Uniform(n: nat, w: seq<seq<int>>, c: int)
    requires Square(n, w)
  {
    forall i, j :: 0 <= i < n && 0 <= j < n && i != j ==> w[i][j] == c
  }

  /** Every entry of `p` is a city below `n`. */
  predicate InRange(n: nat, p: seq<int>)
  {
    forall i :: 0 <= i < |p| ==> 0 <= p[i] < n
  }

  predicate Distinct(p: seq<int>)
  {
    forall i, j :: 0 <= i < j < |p| ==> p[i] != p[j]
  }

  /** Sum of `w[p[i]][p[i+1]]` over consecutive pairs; 0 for a path of at
      most one city. */
  function PathCost(n: nat, w: seq<seq<int>>, p: seq<int>): int
    requires Square(n, w) && InRange(n, p)
  {
    if |p| <= 1 then 0
    else PathCost(n, w, p[..|p| - 1]) + w[p[|p| - 2]][p[|p| - 1]]
  }

  /** `p` starts at city 0, visits exactly the cities of mask `m`, each once,
      and ends at city `x`. */
  ghost predicate IsWalk(n: nat, m: nat, x: nat, p: seq<int>)
  {
    && |p| >= 1
    && p[0] == 0
    && p[|p| - 1] == x
    && InRange(n, p)
    && Distinct(p)
    && m < Pow2(n)
    && forall c :: 0 <= c < n ==> (Has(m, c) <==> c in p)
  }

  /** A Hamiltonian cycle through city 0: `n + 1` cities, first and last 0,
      and the first `n` a permutation of `0 .. n-1`. */
  ghost predicate IsTour(n: nat, t: seq<int>)
  {
    && |t| == n + 1
    && t[0] == 0
    && t[n] == 0
    && InRange(n, t)
    && Distinct(t[..n])
    && forall c :: 0 <= c < n ==> c in t[..n]
  }

  /** Input validation: true exactly when no off-diagonal cost is negative.
      A non-zero diagonal entry only produces a warning. */
  method ValidateInput(n: nat, w: seq<seq<int>>) returns (ok: bool)
    requires Square(n, w)
    ensures ok <==> NonNegative(n, w)
  {
    for i := 0 to n
      invariant forall a, b :: 0 <= a < i && 0 <= b < n && a != b ==> w[a][b] >= 0
    {
      for j := 0 to n
        invariant forall a, b :: 0 <= a < i && 0 <= b < n && a != b ==> w[a][b] >= 0
        invariant forall b :: 0 <= b < j && i != b ==> w[i][b] >= 0
      {
        if i != j && w[i][j] < 0 {
          return false;
        }
      }
    }
    return true;
  }

  /** Re-sums the edge costs along `path`. Swift's `0 ..< path.count - 1`
      traps on an empty path, hence `|path| >= 1`. */
  method VerifyPath(n: nat, w: seq<seq<int>>, path: seq<int>) returns (total: int)
    requires Square(n, w) && InRange(n, path) && |path| >= 1
    ensures total == PathCost(n, w, path)
    ensures |path| == 1 ==> total == 0
  {
    total := 0;
    for i := 0 to |path| - 1
      invariant total == PathCost(n, w, path[..i + 1])
    {
      assert path[..i + 2][..i + 1] == path[..i + 1];
      total := total + w[path[i]][path[i + 1]];
    }
    assert path[..|path|] == path;
  }

  /** Cost of a path extended by one city: the old cost plus the new edge. */
  lemma {:induction false} PathCostSnoc(n: nat, w: seq<seq<int>>, p: seq<int>, c: int)
    requires Square(n, w) && InRange(n, p) && |p| >= 1 && 0 <= c < n
    ensures InRange(n, p + [c])
    ensures PathCost(n, w, p + [c]) == PathCost(n, w, p) + w[p[|p| - 1]][c]
  {
    var q := p + [c];
    assert q[..|q| - 1] == p;
    assert InRange(n, q) by {
      forall i | 0 <= i < |q|
        ensures 0 <= q[i] < n
      {
        if i < |p| {
          assert q[i] == p[i];
        }
      }
    }
    assert PathCost(n, w, q) == PathCost(n, w, p) + w[q[|q| - 2]][q[|q| - 1]];
  }

  /** The one-city walk `[0]` covers exactly the mask `{0}`. */
  lemma StartWalk(n: nat)
    requires n >= 1
    ensures IsWalk(n, 1, 0, [0])
  {
    forall c | 0 <= c < n
      ensures Has(1, c) <==> c in [0]
    {
      OneHas(c);
    }
  }

  /** A walk over `m - {x}` extended by the city `x` of `m` is a walk over `m`. */
  lemma ExtendWalk(n: nat, m: nat, x: nat, u: nat, q: seq<int>)
    requires Has(m, x) && m < Pow2(n) && x < n
    requires IsWalk(n, m - Pow2(x), u, q)
    ensures IsWalk(n, m, x, q + [x])
  {
    HasSub(m, x);
    var p := q + [x];
    assert x !in q;
    forall c | 0 <= c < n
      ensures Has(m, c) <==> c in p
    {
      assert c in p <==> c in q || c == x;
    }
  }

  /** A walk through the full mask visits all `n` cities, so it has length `n`. */
  lemma WalkFullLength(n: nat, x: nat, p: seq<int>)
    requires IsWalk(n, Full(n), x, p)
    ensures |p| == n
  {
    var elems := set i | 0 <= i < |p| :: p[i];
    var cities := Cities(n);
    forall c | c in cities
      ensures c in elems
    {
      FullHas(n, c);
      var i :| 0 <= i < |p| && p[i] == c;
    }
    assert elems == cities;
    DistinctCard(p);
  }

  lemma {:induction false} DistinctCard(p: seq<int>)
    requires Distinct(p)
    ensures |set i | 0 <= i < |p| :: p[i]| == |p|
  {
    if |p| > 0 {
      var q := p[..|p| - 1];
      DistinctCard(q);
      var sp := set i | 0 <= i < |p| :: p[i];
      var sq := set i | 0 <= i < |q| :: q[i];
      assert sp == sq + {p[|p| - 1]};
      assert p[|p| - 1] !in sq;
    }
  }

  /** With every off-diagonal cost equal to `c`, the first `k` cities of a
      tour (`n >= 2`) cost `(k - 1) * c`: consecutive cities always differ. */
  lemma {:induction false} UniformPrefixCost(n: nat, w: seq<seq<int>>, c: int, t: seq<int>, k: nat)
    requires n >= 2 && Square(n, w) && Uniform(n, w, c) && IsTour(n, t)
    requires 1 <= k <= n + 1
    ensures InRange(n, t[..k])
    ensures PathCost(n, w, t[..k]) == (k - 1) * c
  {
    if k > 1 {
      UniformPrefixCost(n, w, c, t, k - 1);
      assert t[..k][..k - 1] == t[..k - 1];
      assert t[k - 2] != t[k - 1] by {
        if k - 1 < n {
          assert t[..n][k - 2] != t[..n][k - 1];
        } else {
          assert t[..n][0] != t[..n][n - 1];
        }
      }
    }
  }

  /** With every off-diagonal cost equal to `c`, every tour of `n >= 2`
      cities costs exactly `n * c`. */
  lemma UniformTourCost(n: nat, w: seq<seq<int>>, c: int, t: seq<int>)
    requires n >= 2 && Square(n, w) && Uniform(n, w, c) && IsTour(n, t)
    ensures PathCost(n, w, t) == n * c
  {
    UniformPrefixCost(n, w, c, t, n + 1);
    assert t[..n + 1] == t;
  }

  /** `0, 1, .., n-1, 0` is a tour, so one always exists. */
  lemma IdentityTour(n: nat)
    requires n >= 1
    ensures IsTour(n, seq(n, i => i) + [0])
  {
    var t := seq(n, i => i) + [0];
    assert t[..n] == seq(n, i => i);
    forall c | 0 <= c < n
      ensures c in t[..n]
    {
      assert t[..n][c] == c;
    }
  }

  /** The set of cities `0 .. n-1`. */
  function Cities(n: nat): (r: set<int>)
    ensures |r| == n
    ensures forall c :: c in r <==> 0 <= c < n
  {
    if n == 0 then {} else Cities(n - 1) + {n - 1}
  }
}
