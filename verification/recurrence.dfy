/** The Held-Karp recurrence as a pure definition: what the solver's table
    entry `dp[m][x]` / `parent[m][x]` holds once the transition loop is done,
    and why that value is the cheapest walk from city 0 over `m` to `x`. */
module Recurrence {
  import opened Masks
  import opened Paths

  /** The "unreachable" sentinel, `Int(1e9)`. */
  const INF: int := 1000000000

  /** One cell of the two tables: `cost` is `dp[m][x]`, `parent` is
      `parent[m][x]`, `-1` meaning no predecessor. */
  datatype Entry = Entry(cost: int, parent: int)

  /** The value a `dp` cell holds before any transition: 0 for the start
      state `({0}, 0)`, `INF` everywhere else. */
  function Seed(m: nat, x: nat): int
  {
    if m == 1 && x == 0 then 0 else INF
  }

  /** The final content of cell `(m, x)`. A cell whose city is not in its mask
      is never written. Otherwise its only writer is the predecessor mask
      `m - {x}`, relaxing over every source city `u` in ascending order. */
  ghost function Table(n: nat, w: seq<seq<int>>, m: nat, x: nat): Entry
    requires Square(n, w) && x < n
    decreases m, 0, 0
  {
    if Has(m, x) then Fold(n, w, m - Pow2(x), x, n) else Entry(INF, -1)
  }

  /** Cell `(pm + {x}, x)` after the relaxations from the sources `u < k` of
      predecessor mask `pm`: a source is skipped when it is not in `pm` or its
      own cell is `INF`, and it replaces the cell only when strictly cheaper. */
  ghost function Fold(n: nat, w: seq<seq<int>>, pm: nat, x: nat, k: nat): Entry
    requires Square(n, w) && x < n && k <= n
    decreases pm, 1, k
  {
    if k == 0 then Entry(Seed(pm + Pow2(x), x), -1)
    else
      var e := Fold(n, w, pm, x, k - 1);
      var u := k - 1;
      if !Has(pm, u) || Table(n, w, pm, u).cost == INF then e
      else
        var c := Table(n, w, pm, u).cost + w[u][x];
        if c < e.cost then Entry(c, u) else e
  }

  /** The cost a source `u` of predecessor mask `pm` offers to city `x`. */
  ghost function Offer(n: nat, w: seq<seq<int>>, pm: nat, u: nat, x: nat): int
    requires Square(n, w) && u < n && x < n
  {
    Table(n, w, pm, u).cost + w[u][x]
  }

  /** A source that may relax a cell: a member of `pm` whose own cell is finite. */
  ghost predicate Usable(n: nat, w: seq<seq<int>>, pm: nat, u: nat)
    requires Square(n, w) && u < n
  {
    Has(pm, u) && Table(n, w, pm, u).cost != INF
  }

  /** Where a partial fold's value comes from: either the seed, untouched, or
      the offer of one usable source seen so far. */
  lemma {:induction false} FoldShape(n: nat, w: seq<seq<int>>, pm: nat, x: nat, k: nat)
    requires Square(n, w) && x < n && k <= n
    ensures Fold(n, w, pm, x, k).cost <= Seed(pm + Pow2(x), x)
    ensures Fold(n, w, pm, x, k).parent == -1 ==> Fold(n, w, pm, x, k).cost == Seed(pm + Pow2(x), x)
    ensures var p := Fold(n, w, pm, x, k).parent;
            p != -1 ==> 0 <= p < k && Usable(n, w, pm, p)
                        && Fold(n, w, pm, x, k).cost == Offer(n, w, pm, p, x)
  {
    if k > 0 {
      FoldShape(n, w, pm, x, k - 1);
    }
  }

  /** Relaxation only ever lowers a cell. */
  lemma {:induction false} FoldMonotone(n: nat, w: seq<seq<int>>, pm: nat, x: nat, j: nat, k: nat)
    requires Square(n, w) && x < n && j <= k <= n
    ensures Fold(n, w, pm, x, k).cost <= Fold(n, w, pm, x, j).cost
  {
    if j < k {
      FoldMonotone(n, w, pm, x, j, k - 1);
    }
  }

  /** After the sources below `k`, the cell is at most every usable offer seen. */
  lemma {:induction false} FoldLowerBound(n: nat, w: seq<seq<int>>, pm: nat, x: nat, k: nat, u: nat)
    requires Square(n, w) && x < n && u < k <= n
    requires Usable(n, w, pm, u)
    ensures Fold(n, w, pm, x, k).cost <= Offer(n, w, pm, u, x)
  {
    FoldMonotone(n, w, pm, x, u + 1, k);
  }

  /** Strict `<` keeps the first source attaining the minimum: every usable
      source before the recorded parent offers strictly more. */
  lemma {:induction false} FoldTieBreak(n: nat, w: seq<seq<int>>, pm: nat, x: nat, k: nat, u: nat)
    requires Square(n, w) && x < n && k <= n
    requires Fold(n, w, pm, x, k).parent != -1
    requires u < k && u < Fold(n, w, pm, x, k).parent && Usable(n, w, pm, u)
    ensures Fold(n, w, pm, x, k).cost < Offer(n, w, pm, u, x)
  {
    var e := Fold(n, w, pm, x, k - 1);
    if Fold(n, w, pm, x, k) == e {
      FoldShape(n, w, pm, x, k - 1);
      FoldTieBreak(n, w, pm, x, k - 1, u);
    } else {
      FoldLowerBound(n, w, pm, x, k - 1, u);
    }
  }

  /** The recurrence as a first minimum: for a city `x` in `m`, the cell is at
      most the seed and at most the offer of every usable source of `m - {x}`,
      it equals the seed or one such offer, and no usable source before the
      recorded parent offers as little. */
  lemma TableMinimum(n: nat, w: seq<seq<int>>, m: nat, x: nat)
    requires Square(n, w) && x < n && Has(m, x)
    ensures Table(n, w, m, x).cost <= Seed(m, x)
    ensures var pm := m - Pow2(x);
            forall u :: 0 <= u < n && Usable(n, w, pm, u) ==> Table(n, w, m, x).cost <= Offer(n, w, pm, u, x)
    ensures Table(n, w, m, x).parent == -1 ==> Table(n, w, m, x).cost == Seed(m, x)
    ensures Table(n, w, m, x).parent != -1 ==>
              && 0 <= Table(n, w, m, x).parent < n
              && Usable(n, w, m - Pow2(x), Table(n, w, m, x).parent)
              && Table(n, w, m, x).cost == Offer(n, w, m - Pow2(x), Table(n, w, m, x).parent, x)
    ensures var pm := m - Pow2(x);
            forall u :: 0 <= u < n && u < Table(n, w, m, x).parent && Usable(n, w, pm, u) ==>
              Table(n, w, m, x).cost < Offer(n, w, pm, u, x)
  {
    TableShape(n, w, m, x);
    TableBelowOffers(n, w, m, x);
    TableFirstAttainer(n, w, m, x);
  }

  /** A final cell holds either its seed, untouched, or the offer of one
      usable source. */
  lemma TableShape(n: nat, w: seq<seq<int>>, m: nat, x: nat)
    requires Square(n, w) && x < n && Has(m, x)
    ensures Table(n, w, m, x).cost <= Seed(m, x)
    ensures Table(n, w, m, x).parent == -1 ==> Table(n, w, m, x).cost == Seed(m, x)
    ensures Table(n, w, m, x).parent != -1 ==>
              && 0 <= Table(n, w, m, x).parent < n
              && Usable(n, w, m - Pow2(x), Table(n, w, m, x).parent)
              && Table(n, w, m, x).cost == Offer(n, w, m - Pow2(x), Table(n, w, m, x).parent, x)
  {
    var pm := m - Pow2(x);
    assert pm + Pow2(x) == m;
    assert Table(n, w, m, x) == Fold(n, w, pm, x, n);
    FoldShape(n, w, pm, x, n);
  }

  /** A final cell is at most the offer of every usable source. */
  lemma TableBelowOffers(n: nat, w: seq<seq<int>>, m: nat, x: nat)
    requires Square(n, w) && x < n && Has(m, x)
    ensures var pm := m - Pow2(x);
            forall u :: 0 <= u < n && Usable(n, w, pm, u) ==> Table(n, w, m, x).cost <= Offer(n, w, pm, u, x)
  {
    var pm := m - Pow2(x);
    forall u | 0 <= u < n && Usable(n, w, pm, u)
      ensures Table(n, w, m, x).cost <= Offer(n, w, pm, u, x)
    {
      FoldLowerBound(n, w, pm, x, n, u);
    }
  }

  /** Every usable source before a final cell's parent offers strictly more. */
  lemma TableFirstAttainer(n: nat, w: seq<seq<int>>, m: nat, x: nat)
    requires Square(n, w) && x < n && Has(m, x)
    ensures var pm := m - Pow2(x);
            forall u :: 0 <= u < n && u < Table(n, w, m, x).parent && Usable(n, w, pm, u) ==>
              Table(n, w, m, x).cost < Offer(n, w, pm, u, x)
  {
    var pm := m - Pow2(x);
    var e := Table(n, w, m, x);
    forall u | 0 <= u < n && u < e.parent && Usable(n, w, pm, u)
      ensures e.cost < Offer(n, w, pm, u, x)
    {
      FoldShape(n, w, pm, x, n);
      FoldTieBreak(n, w, pm, x, n, u);
    }
  }

  /** No cell ever exceeds `INF`. */
  lemma TableBound(n: nat, w: seq<seq<int>>, m: nat, x: nat)
    requires Square(n, w) && x < n
    ensures Table(n, w, m, x).cost <= INF
  {
    if Has(m, x) {
      FoldShape(n, w, m - Pow2(x), x, n);
    }
  }

  /** Structure of a finite cell: both city 0 and `x` are in `m`; a cell of
      city 0 is finite only for `m == {0}`, with cost 0 and no parent; any
      other finite cell has a parent `p != x` in `m - {x}` whose own cell is
      finite and which explains its cost exactly. */
  lemma {:induction false} TableChain(n: nat, w: seq<seq<int>>, m: nat, x: nat)
    requires Square(n, w) && x < n
    requires Table(n, w, m, x).cost < INF
    ensures Has(m, x) && Has(m, 0)
    ensures x == 0 ==> m == 1 && Table(n, w, m, x) == Entry(0, -1)
    ensures var e := Table(n, w, m, x);
            x != 0 ==> && 0 <= e.parent < n && e.parent != x
                       && Has(m - Pow2(x), e.parent)
                       && Table(n, w, m - Pow2(x), e.parent).cost < INF
                       && e.cost == Table(n, w, m - Pow2(x), e.parent).cost + w[e.parent][x]
  {
    var pm := m - Pow2(x);
    FoldShape(n, w, pm, x, n);
    HasSub(m, x);
    var p := Table(n, w, m, x).parent;
    if p == -1 {
      OneHas(x);
    } else {
      TableBound(n, w, pm, p);
      TableChain(n, w, pm, p);
    }
  }

  /** Lower bound (non-negative costs): every walk from city 0 over exactly
      the cities of `m` ending at `x` costs at least the cell `(m, x)`, unless
      it costs `INF` or more. */
  lemma {:induction false} TableLowerBound(n: nat, w: seq<seq<int>>, m: nat, x: nat, p: seq<int>)
    requires Square(n, w) && NonNegative(n, w) && x < n
    requires IsWalk(n, m, x, p)
    ensures PathCost(n, w, p) < INF ==> Table(n, w, m, x).cost <= PathCost(n, w, p)
    decreases |p|
  {
    assert Has(m, x);
    if |p| == 1 {
      forall c | 0 <= c < n
        ensures Has(m, c) <==> Has(1, c)
      {
        OneHas(c);
      }
      assert 1 < Pow2(n) by {
        assert Has(m, 0);
        HasBelow(n, m, 0);
      }
      MaskExt(n, m, 1);
      TableBound(n, w, m, x);
      FoldShape(n, w, m - Pow2(x), x, n);
    } else {
      var q := p[..|p| - 1];
      var u := q[|q| - 1];
      var pm := m - Pow2(x);
      assert x != 0 by {
        assert p[0] != p[|p| - 1];
      }
      HasSub(m, x);
      forall c | 0 <= c < n
        ensures Has(pm, c) <==> c in q
      {
        assert c in p <==> c in q || c == x;
        if c in q {
          var i :| 0 <= i < |q| && q[i] == c;
          assert p[i] != p[|p| - 1];
        }
      }
      assert IsWalk(n, pm, u, q);
      assert u != x;
      TableLowerBound(n, w, pm, u, q);
      if PathCost(n, w, p) < INF {
        assert PathCost(n, w, q) < INF;
        FoldLowerBound(n, w, pm, x, n, u);
      }
    }
  }
}
