/** The round-robin split of a sequence into `n` sectors: position `p`
    goes to sector `p % n`, and each sector keeps the original order. */
module Sectors {

  /** Sector `i` of `s`, built the way the source's loop builds it: walking
      the positions in order and appending each one whose remainder is `i`. */
  function Sector<T>(s: seq<T>, n: nat, i: nat): seq<T>
    requires n > 0
    decreases |s|
  {
    if s == [] then []
    else Sector(s[..|s| - 1], n, i) + (if (|s| - 1) % n == i then [s[|s| - 1]] else [])
  }

  /** Position of the `m`-th entry of sector `i`: `i + m * n`, counted by
      steps of `n` so that the proofs below stay linear. */
  function Pos(i: nat, m: nat, n: nat): nat
  {
    if m == 0 then i else Pos(i, m - 1, n) + n
  }

  lemma {:induction false} PosIsProduct(i: nat, m: nat, n: nat)
    ensures Pos(i, m, n) == i + m * n
  {
    if m > 0 {
      PosIsProduct(i, m - 1, n);
      assert m * n == (m - 1) * n + n;
    }
  }

  lemma {:induction false} PosGrows(i: nat, a: nat, b: nat, n: nat)
    requires n > 0 && a < b
    ensures Pos(i, a, n) < Pos(i, b, n)
    decreases b
  {
    if a < b - 1 { PosGrows(i, a, b - 1, n); }
  }

  /** Every position of sector `i` has remainder `i`. */
  lemma {:induction false} PosRemainder(i: nat, m: nat, n: nat)
    requires i < n
    ensures Pos(i, m, n) % n == i
  {
    if m > 0 {
      PosRemainder(i, m - 1, n);
      var q := Pos(i, m - 1, n);
      assert q == (q / n) * n + i;
      assert q + n == (q / n + 1) * n + i;
      DivModUnique(q + n, q / n + 1, i, n);
    }
  }

  lemma {:induction false} MulAtLeast(d: int, n: int)
    requires n > 0 && d >= 1
    ensures d * n >= n
  {
    if d > 1 { MulAtLeast(d - 1, n); assert d * n == (d - 1) * n + n; }
  }

  /** Euclidean quotient and remainder are unique. */
  lemma DivModUnique(p: int, q: int, r: int, n: int)
    requires n > 0 && 0 <= r < n && p == q * n + r
    ensures p / n == q && p % n == r
  {
    var q0, r0 := p / n, p % n;
    assert p == q0 * n + r0;
    if q != q0 {
      var d := if q > q0 then q - q0 else q0 - q;
      assert d * n == if q > q0 then q * n - q0 * n else q0 * n - q * n;
      MulAtLeast(d, n);
    }
  }

  /** Two numbers with the same remainder are at least `n` apart. */
  lemma SameRemainderApart(a: nat, b: nat, n: nat)
    requires n > 0 && a < b && a % n == b % n
    ensures a + n <= b
  {
    var qa, qb := a / n, b / n;
    var d := qb - qa;
    assert a == qa * n + a % n && b == qb * n + b % n;
    assert d * n == b - a by {
      assert d * n == qb * n - qa * n;
    }
    if d <= 0 {
      if d < 0 {
        MulAtLeast(-d, n);
      }
      assert false;
    }
    MulAtLeast(d, n);
  }

  /** Sector `i` (for `i < n`) holds exactly the entries at positions
      `i, i + n, i + 2n, ...` below `|s|`, in that order. */
  lemma {:induction false} SectorAt<T>(s: seq<T>, n: nat, i: nat)
    requires n > 0 && i < n
    ensures forall m :: 0 <= m < |Sector(s, n, i)| ==>
              Pos(i, m, n) < |s| && Sector(s, n, i)[m] == s[Pos(i, m, n)]
    ensures Pos(i, |Sector(s, n, i)|, n) >= |s|
    decreases |s|
  {
    if s != [] {
      var t, p := s[..|s| - 1], |s| - 1;
      SectorAt(t, n, i);
      var before := Sector(t, n, i);
      var L := |before|;
      PosRemainder(i, L, n);
      if p % n == i {
        if Pos(i, L, n) != p {
          SameRemainderApart(p, Pos(i, L, n), n);
          assert false;
        }
        assert Sector(s, n, i) == before + [s[p]];
      } else {
        assert Sector(s, n, i) == before;
      }
      forall m | 0 <= m < L
        ensures Sector(s, n, i)[m] == s[Pos(i, m, n)]
      {
        assert Sector(s, n, i)[m] == before[m] && t[Pos(i, m, n)] == s[Pos(i, m, n)];
      }
    }
  }

  /** Every position's entry is in its sector, at the place its quotient says. */
  lemma PositionInSector<T>(s: seq<T>, n: nat, p: nat)
    requires n > 0 && p < |s|
    ensures p / n < |Sector(s, n, p % n)| && Sector(s, n, p % n)[p / n] == s[p]
  {
    var i, q := p % n, p / n;
    assert p == q * n + i;
    PosIsProduct(i, q, n);
    SectorAt(s, n, i);
    var L := |Sector(s, n, i)|;
    if L <= q {
      if L < q { PosGrows(i, L, q, n); }
      assert false;
    }
  }

  /** Total size of sectors `0 .. k-1`. */
  function SizeBelow<T>(s: seq<T>, n: nat, k: nat): nat
    requires n > 0
  {
    if k == 0 then 0 else SizeBelow(s, n, k - 1) + |Sector(s, n, k - 1)|
  }

  lemma {:induction false} SizeBelowSnoc<T>(s: seq<T>, x: T, n: nat, k: nat)
    requires n > 0 && k <= n
    ensures SizeBelow(s + [x], n, k) == SizeBelow(s, n, k) + (if |s| % n < k then 1 else 0)
  {
    assert (s + [x])[..|s + [x]| - 1] == s;
    if k > 0 { SizeBelowSnoc(s, x, n, k - 1); }
  }

  /** The sector sizes add up to the length of the sequence. */
  lemma {:induction false} SectorSizesSum<T>(s: seq<T>, n: nat)
    requires n > 0
    ensures SizeBelow(s, n, n) == |s|
    decreases |s|
  {
    if s == [] {
      ZeroBelow(s, n, n);
    } else {
      var t := s[..|s| - 1];
      assert s == t + [s[|s| - 1]];
      SectorSizesSum(t, n);
      SizeBelowSnoc(t, s[|s| - 1], n, n);
    }
  }

  lemma {:induction false} ZeroBelow<T>(s: seq<T>, n: nat, k: nat)
    requires n > 0 && s == []
    ensures SizeBelow(s, n, k) == 0
  {
    if k > 0 { ZeroBelow(s, n, k - 1); }
  }
}
