/** Rasters: rows of equal length, one after the other. */
module Raster {
  import opened Basics

  /** Where row `r` starts when rows have `w` elements. */
  function Start(w: nat, r: nat): nat {
    if r == 0 then 0 else Start(w, r - 1) + w
  }

  lemma {:induction false} StartIsProduct(w: nat, r: nat)
    ensures Start(w, r) == w * r == r * w
  {
    if r > 0 {
      StartIsProduct(w, r - 1);
      assert w * r == w * (r - 1) + w;
    }
  }

  lemma {:induction false} StartsApart(w: nat, r: nat, q: nat)
    ensures r < q ==> Start(w, r) + w <= Start(w, q)
    ensures r == q ==> Start(w, r) == Start(w, q)
    decreases q
  {
    if r < q {
      StartsApart(w, r, q - 1);
    }
  }

  lemma {:induction false} StartAdds(w: nat, r: nat, q: nat)
    ensures Start(w, r + q) == Start(w, r) + Start(w, q)
  {
    if q > 0 {
      StartAdds(w, r, q - 1);
    }
  }

  lemma DivisionSplits(m: nat, x: nat)
    requires m > 0
    ensures x == Start(m, x / m) + x % m
  {
    StartIsProduct(m, x / m);
  }

  lemma QuotientOfStart(m: nat, k: nat)
    requires m > 0
    ensures Start(m, k) / m == k
  {
    hide Start;
    var x := Start(m, k);
    DivisionSplits(m, x);
    StartsApart(m, x / m, k);
    StartsApart(m, k, x / m);
  }

  /** The size of `rows` lines. */
  method LineCount(line: nat, rows: nat) returns (size: nat)
    ensures size == Start(line, rows)
  {
    StartIsProduct(line, rows);
    size := line * rows;
  }

  /** Where byte `k` of the colour bytes is among bytes of which every fourth is left out. */
  function WithAlpha(k: nat): (m: nat)
    ensures m / 4 == k / 3 && m >= k
  {
    4 * (k / 3) + k % 3
  }

  lemma WithAlphaOfPixel(i: nat)
    ensures WithAlpha(3 * i) == 4 * i && WithAlpha(3 * i + 1) == 4 * i + 1 && WithAlpha(3 * i + 2) == 4 * i + 2
  {}

  /** The bytes of `n` pixels without every fourth. */
  function WithoutAlpha(s: seq<Byte>, n: nat): (r: seq<Byte>)
    requires |s| == 4 * n
    ensures |r| == 3 * n && forall k :: 0 <= k < 3 * n ==> r[k] == s[WithAlpha(k)]
  {
    seq(3 * n, k requires 0 <= k < 3 * n => s[WithAlpha(k)])
  }

  /** Element by element: colour byte `c` of pixel `i`. */
  lemma WithoutAlphaAt(s: seq<Byte>, n: nat, i: nat, c: nat)
    requires |s| == 4 * n && i < n && c < 3
    ensures WithoutAlpha(s, n)[3 * i + c] == s[4 * i + c]
  {
    WithAlphaOfPixel(i);
    hide WithAlpha;
    assert c == 0 || c == 1 || c == 2;
  }

  /** Element `x` of row `r` of rows of `w` elements. */
  lemma PlaceInRaster(w: nat, r: nat, x: nat, n: nat)
    requires r < n && x < w
    ensures 0 <= r * w + x < n * w && Start(w, r) == r * w && Start(w, n) == n * w && Start(w, r) + w <= Start(w, n)
  {
    StartIsProduct(w, r);
    StartIsProduct(w, n);
    StartsApart(w, r, n);
  }
}
