/**
 * The pandas Series operations that the analytics and the strategy use,
 * stated over exact reals: sum, boolean-mask selection, mean, product,
 * cumulative product, cumulative maximum and a NaN-skipping minimum.
 * Every recursive definition peels the LAST element, as a running scan does.
 */
module SeriesOps {
  import opened Wrappers

  function Last(s: seq<real>): real
    requires |s| > 0
  {
    s[|s| - 1]
  }

  function Init<T>(s: seq<T>): seq<T>
    requires |s| > 0
  {
    s[..|s| - 1]
  }

  function Max(a: real, b: real): real
  {
    if a >= b then a else b
  }

  function Sum(s: seq<real>): real
  {
    if s == [] then 0.0 else Sum(Init(s)) + Last(s)
  }

  /** The two masks the analytics applies: `x > 0` (wins) and `x < 0` (losses). */
  datatype Side = Win | Loss

  predicate Counts(side: Side, x: real)
  {
    match side
    case Win => x > 0.0
    case Loss => x < 0.0
  }

  /** `s[s > 0]` or `s[s < 0]`: the elements on one side, in their original order. */
  function Select(s: seq<real>, side: Side): (r: seq<real>)
    ensures |r| <= |s|
    ensures forall k :: 0 <= k < |r| ==> Counts(side, r[k])
  {
    if s == [] then []
    else
      var p := Select(Init(s), side);
      if Counts(side, Last(s)) then p + [Last(s)] else p
  }

  /** The mask keeps exactly the occurrences of on-side values, and nothing else. */
  lemma {:induction false} SelectMultiset(s: seq<real>, side: Side)
    ensures forall x :: multiset(Select(s, side))[x] == if Counts(side, x) then multiset(s)[x] else 0
  {
    if s != [] {
      var p, l := Init(s), Last(s);
      SelectMultiset(p, side);
      assert s == p + [l];
      assert multiset(s) == multiset(p) + multiset{l};
      if Counts(side, l) {
        assert multiset(Select(s, side)) == multiset(Select(p, side)) + multiset{l};
      } else {
        assert Select(s, side) == Select(p, side);
      }
    }
  }

  /** The mask keeps everything exactly when every element is on the chosen side. */
  lemma {:induction false} SelectAll(s: seq<real>, side: Side)
    ensures |Select(s, side)| == |s| <==> forall k :: 0 <= k < |s| ==> Counts(side, s[k])
  {
    if s != [] {
      SelectAll(Init(s), side);
      assert forall k :: 0 <= k < |s| - 1 ==> Init(s)[k] == s[k];
    }
  }

  /** An element of `s` on the chosen side survives the mask. */
  lemma SelectKeeps(s: seq<real>, side: Side, k: int)
    requires 0 <= k < |s| && Counts(side, s[k])
    ensures s[k] in Select(s, side)
  {
    SelectMultiset(s, side);
    assert s[k] in multiset(s);
    assert multiset(Select(s, side))[s[k]] == multiset(s)[s[k]];
  }

  /** The mask is empty exactly when no element is on the chosen side. */
  lemma SelectEmpty(s: seq<real>, side: Side)
    ensures Select(s, side) == [] <==> forall k :: 0 <= k < |s| ==> !Counts(side, s[k])
  {
    if Select(s, side) != [] {
      SelectMultiset(s, side);
      var x := Select(s, side)[0];
      assert x in multiset(Select(s, side));
      assert x in multiset(s);
      var k :| 0 <= k < |s| && s[k] == x;
    }
    forall k | 0 <= k < |s| && Counts(side, s[k])
      ensures Select(s, side) != []
    {
      SelectKeeps(s, side, k);
    }
  }

  /** Masking commutes with concatenation. */
  lemma {:induction false} SelectAppend(a: seq<real>, b: seq<real>, side: Side)
    ensures Select(a + b, side) == Select(a, side) + Select(b, side)
    decreases |b|
  {
    if b == [] {
      assert a + b == a;
    } else {
      assert Init(a + b) == a + Init(b);
      assert Last(a + b) == Last(b);
      SelectAppend(a, Init(b), side);
    }
  }

  lemma {:induction false} SumAppend(a: seq<real>, b: seq<real>)
    ensures Sum(a + b) == Sum(a) + Sum(b)
    decreases |b|
  {
    if b == [] {
      assert a + b == a;
    } else {
      assert Init(a + b) == a + Init(b);
      assert Last(a + b) == Last(b);
      SumAppend(a, Init(b));
    }
  }

  lemma {:induction false} SumBounds(s: seq<real>, lo: real, hi: real)
    requires forall k :: 0 <= k < |s| ==> lo <= s[k] <= hi
    ensures |s| as real * lo <= Sum(s) <= |s| as real * hi
  {
    if s != [] {
      SumBounds(Init(s), lo, hi);
    }
  }

  /** A sum of strictly positive (negative) terms is positive (negative) unless empty. */
  lemma {:induction false} SumSign(s: seq<real>, side: Side)
    requires forall k :: 0 <= k < |s| ==> Counts(side, s[k])
    ensures s == [] <==> Sum(s) == 0.0
    ensures s != [] ==> Counts(side, Sum(s))
  {
    if s != [] {
      SumSign(Init(s), side);
    }
  }

  /** `Series.mean()` of a non-empty series. */
  function Mean(s: seq<real>): real
    requires |s| > 0
  {
    Sum(s) / |s| as real
  }

  /** The mean lies within any bounds that hold of every element. */
  lemma MeanBounds(s: seq<real>, lo: real, hi: real)
    requires |s| > 0
    requires forall k :: 0 <= k < |s| ==> lo <= s[k] <= hi
    ensures lo <= Mean(s) <= hi
  {
    SumBounds(s, lo, hi);
    var n := |s| as real;
    assert Mean(s) * n == Sum(s);
  }

  /** `s.mean() if len(s) > 0 else 0`. */
  function MeanOrZero(s: seq<real>): (m: real)
    ensures s == [] ==> m == 0.0
    ensures s != [] ==> m * |s| as real == Sum(s)
  {
    if |s| > 0 then Mean(s) else 0.0
  }

  /** The mean of a mask is strictly on that side, or 0 when the mask is empty. */
  lemma MeanOfSide(s: seq<real>, side: Side)
    requires forall k :: 0 <= k < |s| ==> Counts(side, s[k])
    ensures s == [] <==> MeanOrZero(s) == 0.0
    ensures s != [] ==> Counts(side, MeanOrZero(s))
  {
    SumSign(s, side);
    if s != [] {
      var n := |s| as real;
      assert MeanOrZero(s) * n == Sum(s);
    }
  }

  /**
   * `(1 + s).prod()`: the growth factor of compounding every return in `s`.
   * It stays positive while no return reaches -100 %, and at least 1 while no
   * return is negative.
   */
  function GrowthProduct(s: seq<real>): (g: real)
    ensures (forall k :: 0 <= k < |s| ==> s[k] > -1.0) ==> g > 0.0
    ensures (forall k :: 0 <= k < |s| ==> s[k] >= 0.0) ==> g >= 1.0
  {
    if s == [] then 1.0
    else
      var g0, f := GrowthProduct(Init(s)), 1.0 + Last(s);
      ProductBounds(g0, f);
      g0 * f
  }

  lemma ProductBounds(a: real, b: real)
    ensures a > 0.0 && b > 0.0 ==> a * b > 0.0
    ensures a >= 1.0 && b >= 1.0 ==> a * b >= 1.0
  {
    if a >= 1.0 && b >= 1.0 {
      assert a * b >= a * 1.0;
    }
  }

  /** Compounding two stretches of returns multiplies their growth factors. */
  lemma {:induction false} GrowthProductAppend(a: seq<real>, b: seq<real>)
    ensures GrowthProduct(a + b) == GrowthProduct(a) * GrowthProduct(b)
    decreases |b|
  {
    if b == [] {
      assert a + b == a;
    } else {
      assert Init(a + b) == a + Init(b);
      assert Last(a + b) == Last(b);
      GrowthProductAppend(a, Init(b));
      var x, y, z := GrowthProduct(a), GrowthProduct(Init(b)), 1.0 + Last(b);
      assert GrowthProduct(a + b) == (x * y) * z;
      assert GrowthProduct(b) == y * z;
      MulAssoc(x, y, z);
    }
  }

  lemma MulAssoc(x: real, y: real, z: real)
    ensures (x * y) * z == x * (y * z)
  {
  }

  lemma ProductPositive(a: real, b: real)
    requires a > 0.0 && b > 0.0
    ensures a * b > 0.0
  {
  }

  /** `(1 + s).cumprod()`: the equity curve after each return. */
  function Equity(s: seq<real>): (e: seq<real>)
    ensures |e| == |s|
    ensures forall i :: 0 <= i < |s| ==> e[i] == GrowthProduct(s[..i + 1])
  {
    if s == [] then []
    else
      var p := Equity(Init(s));
      var before := if p == [] then 1.0 else Last(p);
      assert p != [] ==> Init(s) == Init(s)[..|p| - 1 + 1];
      assert s[..|s|] == s;
      var e := p + [before * (1.0 + Last(s))];
      InitPrefixes(s, p);
      e
  }

  lemma InitPrefixes(s: seq<real>, p: seq<real>)
    requires |s| > 0 && |p| == |s| - 1
    requires forall i :: 0 <= i < |p| ==> p[i] == GrowthProduct(Init(s)[..i + 1])
    ensures forall i :: 0 <= i < |p| ==> p[i] == GrowthProduct(s[..i + 1])
  {
    forall i | 0 <= i < |p|
      ensures p[i] == GrowthProduct(s[..i + 1])
    {
      assert Init(s)[..i + 1] == s[..i + 1];
    }
  }

  /** The position of the highest value among `c[..i + 1]` (the latest one on a tie). */
  function ArgPeak(c: seq<real>, i: nat): (j: nat)
    requires i < |c|
    ensures j <= i
    ensures forall k :: 0 <= k <= i ==> c[k] <= c[j]
  {
    if i == 0 then 0
    else
      var p := ArgPeak(c, i - 1);
      if c[p] > c[i] then p else i
  }

  lemma {:induction false} ArgPeakOfInit(c: seq<real>, i: nat)
    requires i < |c| - 1
    ensures ArgPeak(Init(c), i) == ArgPeak(c, i)
  {
    if i > 0 {
      ArgPeakOfInit(c, i - 1);
    }
  }

  /** `c.cummax()`: the highest value seen so far at each position. */
  function RunningPeak(c: seq<real>): (r: seq<real>)
    ensures |r| == |c|
    ensures forall i {:trigger r[i]} :: 0 <= i < |c| ==> r[i] == c[ArgPeak(c, i)]
  {
    if c == [] then []
    else
      var p := RunningPeak(Init(c));
      var r := p + [if p == [] then Last(c) else Max(Last(p), Last(c))];
      PeakScan(c, p, r);
      r
  }

  /** The running peak is the maximum of the prefix: at least every earlier value, and one of them. */
  lemma RunningPeakIsMax(c: seq<real>, i: nat)
    requires i < |c|
    ensures forall j :: 0 <= j <= i ==> c[j] <= RunningPeak(c)[i]
    ensures exists j :: 0 <= j <= i && RunningPeak(c)[i] == c[j]
  {
    var j := ArgPeak(c, i);
    assert RunningPeak(c)[i] == c[j];
  }

  lemma PeakScan(c: seq<real>, p: seq<real>, r: seq<real>)
    requires |c| > 0 && |p| == |c| - 1
    requires forall i {:trigger p[i]} :: 0 <= i < |p| ==> p[i] == Init(c)[ArgPeak(Init(c), i)]
    requires r == p + [if p == [] then Last(c) else Max(Last(p), Last(c))]
    ensures forall i {:trigger r[i]} :: 0 <= i < |c| ==> r[i] == c[ArgPeak(c, i)]
  {
    forall i | 0 <= i < |c|
      ensures r[i] == c[ArgPeak(c, i)]
    {
      PeakScanAt(c, p, r, i);
    }
  }

  lemma PeakScanAt(c: seq<real>, p: seq<real>, r: seq<real>, i: nat)
    requires |c| > 0 && |p| == |c| - 1 && i < |c|
    requires forall i {:trigger p[i]} :: 0 <= i < |p| ==> p[i] == Init(c)[ArgPeak(Init(c), i)]
    requires r == p + [if p == [] then Last(c) else Max(Last(p), Last(c))]
    ensures r[i] == c[ArgPeak(c, i)]
  {
    if i < |p| {
      ArgPeakOfInit(c, i);
      assert r[i] == p[i];
      assert Init(c)[ArgPeak(c, i)] == c[ArgPeak(c, i)];
    } else if p != [] {
      var q := ArgPeak(c, i - 1);
      ArgPeakOfInit(c, i - 1);
      assert Last(p) == p[i - 1] == Init(c)[q] == c[q];
      assert Last(c) == c[i];
      assert r[i] == Max(c[q], c[i]);
    } else {
      assert r[i] == Last(c) == c[0];
    }
  }

  /** `s.min()` with pandas' default `skipna=True`: `None` (NaN) only when every entry is NaN. */
  function MinPresent(s: seq<Option<real>>): (m: Option<real>)
    ensures m.None? <==> forall i :: 0 <= i < |s| ==> s[i].None?
    ensures m.Some? ==> exists i :: 0 <= i < |s| && s[i] == m
    ensures m.Some? ==> forall i :: 0 <= i < |s| && s[i].Some? ==> m.value <= s[i].value
  {
    if s == [] then None
    else
      var p := MinPresent(Init(s));
      var x := s[|s| - 1];
      if x.None? then p
      else if p.None? || x.value < p.value then x
      else p
  }
}
