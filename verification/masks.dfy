/** Subset masks over the cities `0 .. n-1`, represented as natural numbers
    below `2^n`: bit `i` set means city `i` belongs to the subset. */
module Masks {

  /** `1 << i` */
  function Pow2(i: nat): (r: nat)
    ensures r >= 1
  {
    if i == 0 then 1 else 2 * Pow2(i - 1)
  }

  /** Bit `i` of `m` is set, i.e. `(m & (1 << i)) != 0`. */
  predicate Has(m: nat, i: nat)
    ensures Has(m, i) ==> Pow2(i) <= m
  {
    if i == 0 then m % 2 == 1 else Has(m / 2, i - 1)
  }

  /** The mask with every city of `0 .. n-1`: `(1 << n) - 1`. */
  function Full(n: nat): nat
  {
    Pow2(n) - 1
  }

  /** `m | (1 << i)`: the subset with city `i` added. */
  function Or(m: nat, i: nat): (r: nat)
    ensures r >= m
    ensures !Has(m, i) ==> r > m
    ensures forall j :: Has(r, j) <==> Has(m, j) || j == i
  {
    if Has(m, i) then m
    else
      HasAdd(m, i);
      m + Pow2(i)
  }

  /** `m ^ (1 << i)`: city `i` toggled; removes `i` when it is present. */
  function Xor(m: nat, i: nat): (r: nat)
    ensures Has(m, i) ==> r < m
    ensures forall j :: Has(r, j) <==> (Has(m, j) != (j == i))
  {
    if Has(m, i) then
      HasSub(m, i);
      m - Pow2(i)
    else
      HasAdd(m, i);
      m + Pow2(i)
  }

  lemma Pow2Mono(i: nat, j: nat)
    requires i <= j
    ensures Pow2(i) <= Pow2(j)
  {
  }

  /** The empty mask holds no city. */
  lemma {:induction false} HasZero(i: nat)
    ensures !Has(0, i)
  {
    if i > 0 {
      HasZero(i - 1);
    }
  }

  /** Adding a city that is absent sets exactly that one bit more. */
  lemma {:induction false} HasAdd(m: nat, v: nat)
    requires !Has(m, v)
    ensures forall j :: Has(m + Pow2(v), j) <==> Has(m, j) || j == v
  {
    forall j: nat
      ensures Has(m + Pow2(v), j) <==> Has(m, j) || j == v
    {
      HasAddAt(m, v, j);
    }
  }

  lemma {:induction false} HasAddAt(m: nat, v: nat, j: nat)
    requires !Has(m, v)
    ensures Has(m + Pow2(v), j) <==> Has(m, j) || j == v
  {
    if v == 0 {
      assert (m + 1) / 2 == m / 2;
    } else {
      var q := Pow2(v - 1);
      assert (m + Pow2(v)) % 2 == m % 2 && (m + Pow2(v)) / 2 == m / 2 + q;
      if j > 0 {
        HasAddAt(m / 2, v - 1, j - 1);
      }
    }
  }

  /** Removing a city that is present clears exactly that bit. */
  lemma {:induction false} HasSub(m: nat, v: nat)
    requires Has(m, v)
    ensures forall j :: Has(m - Pow2(v), j) <==> Has(m, j) && j != v
  {
    forall j: nat
      ensures Has(m - Pow2(v), j) <==> Has(m, j) && j != v
    {
      HasSubAt(m, v, j);
    }
  }

  lemma {:induction false} HasSubAt(m: nat, v: nat, j: nat)
    requires Has(m, v)
    ensures Has(m - Pow2(v), j) <==> Has(m, j) && j != v
  {
    if v == 0 {
      assert (m - 1) / 2 == m / 2;
    } else {
      var q := Pow2(v - 1);
      assert m / 2 >= q;
      assert (m - Pow2(v)) % 2 == m % 2 && (m - Pow2(v)) / 2 == m / 2 - q;
      if j > 0 {
        HasSubAt(m / 2, v - 1, j - 1);
      }
    }
  }

  /** A mask below `2^n` only holds cities below `n`. */
  lemma HasBelow(n: nat, m: nat, i: nat)
    requires m < Pow2(n) && Has(m, i)
    ensures i < n
  {
    if i >= n {
      Pow2Mono(n, i);
    }
  }

  /** Adding a city below `n` keeps the mask below `2^n`. */
  lemma {:induction false} OrBelow(n: nat, m: nat, v: nat)
    requires m < Pow2(n) && v < n
    ensures Or(m, v) < Pow2(n)
  {
    if !Has(m, v) {
      AddBelow(n, m, v);
    }
  }

  lemma {:induction false} AddBelow(n: nat, m: nat, v: nat)
    requires m < Pow2(n) && v < n && !Has(m, v)
    ensures m + Pow2(v) < Pow2(n)
  {
    if v > 0 {
      var h := m / 2;
      assert h < Pow2(n - 1);
      AddBelow(n - 1, h, v - 1);
      assert m + Pow2(v) == 2 * (h + Pow2(v - 1)) + m % 2;
    }
  }

  /** The full mask holds every city below `n`. */
  lemma {:induction false} FullHas(n: nat, i: nat)
    requires i < n
    ensures Has(Full(n), i)
  {
    if i > 0 {
      assert (Pow2(n) - 1) / 2 == Pow2(n - 1) - 1;
      FullHas(n - 1, i - 1);
    }
  }

  /** Two masks below `2^n` with the same cities are equal. */
  lemma {:induction false} MaskExt(n: nat, a: nat, b: nat)
    requires a < Pow2(n) && b < Pow2(n)
    requires forall i :: 0 <= i < n ==> (Has(a, i) <==> Has(b, i))
    ensures a == b
  {
    if n > 0 {
      assert Has(a, 0) <==> Has(b, 0);
      forall i | 0 <= i < n - 1
        ensures Has(a / 2, i) <==> Has(b / 2, i)
      {
        assert Has(a, i + 1) <==> Has(b, i + 1);
      }
      MaskExt(n - 1, a / 2, b / 2);
    }
  }

  /** The mask `1` (`{0}`) holds city 0 and nothing else. */
  lemma OneHas(i: nat)
    ensures Has(1, i) <==> i == 0
  {
    if i > 0 {
      HasZero(i - 1);
    }
  }
}
