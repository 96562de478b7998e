/**
 * Balanced ternary, the number system of GeoHex grid indices: a trit d in
 * {0, 1, 2} at position k (counted from the least significant end) stands for
 * (d - 1) * 3^k.
 */
module Ternary {

  /** 3^n, the exact integer the source obtains as `math.pow(3, n)`. */
  function Pow3(n: nat): (p: nat)
    ensures p >= 1
  {
    if n == 0 then 1 else 3 * Pow3(n - 1)
  }

  lemma {:induction false} Pow3Odd(n: nat)
    ensures Pow3(n) % 2 == 1
  {
    if n > 0 {
      Pow3Odd(n - 1);
    }
  }

  /** (3^n - 1) / 2: the largest magnitude that n balanced trits stand for. */
  function Span(n: nat): (s: int)
    ensures s >= 0 && 2 * s + 1 == Pow3(n)
  {
    Pow3Odd(n);
    (Pow3(n) - 1) / 2
  }

  lemma SpanStep(n: nat)
    ensures Span(n + 1) == 3 * Span(n) + 1
    ensures Span(n + 1) == Pow3(n) + Span(n)
  {
  }

  predicate IsTrits(ds: seq<int>)
  {
    forall i :: 0 <= i < |ds| ==> 0 <= ds[i] <= 2
  }

  /** The number a trit sequence stands for, most significant trit first. */
  function Value(ds: seq<int>): int
    decreases |ds|
  {
    if ds == [] then 0 else 3 * Value(ds[..|ds| - 1]) + (ds[|ds| - 1] - 1)
  }

  lemma ValueSnoc(ds: seq<int>, d: int)
    ensures Value(ds + [d]) == 3 * Value(ds) + (d - 1)
  {
    assert (ds + [d])[..|ds|] == ds;
  }

  lemma ConcatArith(va: int, p: int, vb: int, d: int)
    ensures 3 * (va * p + vb) + (d - 1) == va * (3 * p) + (3 * vb + (d - 1))
  {
  }

  /** Trits written after a prefix scale the prefix by a power of 3. */
  lemma {:induction false} ValueConcat(a: seq<int>, b: seq<int>)
    ensures Value(a + b) == Value(a) * Pow3(|b|) + Value(b)
    decreases |b|
  {
    if b != [] {
      var b', d := b[..|b| - 1], b[|b| - 1];
      assert a + b == (a + b') + [d];
      assert b == b' + [d];
      ValueSnoc(a + b', d);
      ValueSnoc(b', d);
      ValueConcat(a, b');
      assert Pow3(|b|) == 3 * Pow3(|b'|);
      ConcatArith(Value(a), Pow3(|b'|), Value(b'), d);
    } else {
      assert a + b == a;
    }
  }

  lemma ValueSingle(d: int)
    ensures Value([d]) == d - 1
  {
    assert [d][..0] == [];
  }

  /** A leading trit d in front of n trits weighs (d - 1) * 3^n. */
  lemma ValueCons(d: int, tail: seq<int>)
    ensures Value([d] + tail) == (d - 1) * Pow3(|tail|) + Value(tail)
  {
    ValueSingle(d);
    ValueConcat([d], tail);
  }

  /** The leading trit weighs 3^(n-1). */
  lemma ValueFirst(ds: seq<int>)
    requires |ds| >= 1
    ensures Value(ds) == (ds[0] - 1) * Pow3(|ds| - 1) + Value(ds[1..])
  {
    ConsSplit(ds);
    ValueCons(ds[0], ds[1..]);
  }

  lemma ConsSplit(ds: seq<int>)
    requires |ds| >= 1
    ensures [ds[0]] + ds[1..] == ds
  {
  }

  lemma MulPred(a: int, p: int)
    ensures (a - 1) * p == a * p - p
  {
  }

  /** Lowering the leading trit by one lowers the value by 3^(n-1). */
  lemma ValueFirstDown(ds: seq<int>)
    requires |ds| >= 1
    ensures Value(ds[0 := ds[0] - 1]) == Value(ds) - Pow3(|ds| - 1)
  {
    var es := ds[0 := ds[0] - 1];
    assert es[1..] == ds[1..];
    ValueFirst(ds);
    ValueFirst(es);
    MulPred(ds[0] - 1, Pow3(|ds| - 1));
  }

  /** Raising the leading trit by one raises the value by 3^(n-1). */
  lemma ValueFirstUp(ds: seq<int>)
    requires |ds| >= 1
    ensures Value(ds[0 := ds[0] + 1]) == Value(ds) + Pow3(|ds| - 1)
  {
    var es := ds[0 := ds[0] + 1];
    assert es[1..] == ds[1..];
    ValueFirst(ds);
    ValueFirst(es);
    MulPred(ds[0], Pow3(|ds| - 1));
  }

  /** n trits stand for a number of magnitude at most (3^n - 1) / 2. */
  lemma {:induction false} ValueBound(ds: seq<int>)
    requires IsTrits(ds)
    ensures -Span(|ds|) <= Value(ds) <= Span(|ds|)
    decreases |ds|
  {
    if ds != [] {
      var ds' := ds[..|ds| - 1];
      assert IsTrits(ds');
      ValueBound(ds');
      SpanStep(|ds'|);
    }
  }

  lemma TritEq(u: int, v: int, x: int, y: int)
    requires 0 <= x <= 2 && 0 <= y <= 2 && 3 * u + (x - 1) == 3 * v + (y - 1)
    ensures x == y && u == v
  {
  }

  /** Balanced ternary is unambiguous: equal values mean equal trits. */
  lemma {:induction false} ValueUnique(a: seq<int>, b: seq<int>)
    requires IsTrits(a) && IsTrits(b) && |a| == |b|
    requires Value(a) == Value(b)
    ensures a == b
    decreases |a|
  {
    if a != [] {
      var a', b' := a[..|a| - 1], b[..|b| - 1];
      var x, y := a[|a| - 1], b[|b| - 1];
      assert IsTrits(a') && IsTrits(b');
      TritEq(Value(a'), Value(b'), x, y);
      ValueUnique(a', b');
      assert a == a' + [x] && b == b' + [y];
    }
  }

  /** The trit sequence 2, 2, ..., 2 of length n, which stands for Span(n). */
  function Twos(n: nat): (ds: seq<int>)
    ensures |ds| == n && IsTrits(ds) && Value(ds) == Span(n)
  {
    if n == 0 then [] else
      var ds := Twos(n - 1) + [2];
      ValueSnoc(Twos(n - 1), 2);
      SpanStep(n - 1);
      ds
  }

  /** The trit sequence 0, 0, ..., 0 of length n, which stands for -Span(n). */
  function Zeros(n: nat): (ds: seq<int>)
    ensures |ds| == n && IsTrits(ds) && Value(ds) == -Span(n)
  {
    if n == 0 then [] else
      var ds := Zeros(n - 1) + [0];
      ValueSnoc(Zeros(n - 1), 0);
      SpanStep(n - 1);
      ds
  }

  /** The balanced residue of v modulo 3, in {-1, 0, 1}. */
  function Residue(v: int): (r: int)
    ensures -1 <= r <= 1 && (v - r) % 3 == 0
  {
    if v % 3 == 2 then -1 else v % 3
  }

  /**
   * The n balanced-ternary trits of v, computed from the least significant
   * end: an independent reference for the encoder's greedy digit loop.
   */
  function Trits(v: int, n: nat): (ds: seq<int>)
    requires -Span(n) <= v <= Span(n)
    ensures |ds| == n && IsTrits(ds) && Value(ds) == v
    decreases n
  {
    if n == 0 then [] else
      var r := Residue(v);
      var q := (v - r) / 3;
      SpanStep(n - 1);
      assert v - r == 3 * q;
      assert -3 * Span(n - 1) - 2 <= 3 * q <= 3 * Span(n - 1) + 2;
      var ds := Trits(q, n - 1) + [r + 1];
      ValueSnoc(Trits(q, n - 1), r + 1);
      ds
  }

  /** v forced into the range n balanced trits can express. */
  function Clamp(v: int, n: nat): (c: int)
    ensures -Span(n) <= c <= Span(n)
    ensures -Span(n) <= v <= Span(n) ==> c == v
    ensures v > Span(n) ==> c == Span(n)
    ensures v < -Span(n) ==> c == -Span(n)
  {
    if v > Span(n) then Span(n) else if v < -Span(n) then -Span(n) else v
  }

  /** Any trits standing for v are the reference trits of v. */
  lemma TritsUnique(ds: seq<int>, v: int)
    requires IsTrits(ds) && Value(ds) == v
    ensures -Span(|ds|) <= v <= Span(|ds|)
    ensures ds == Trits(v, |ds|)
  {
    ValueBound(ds);
    ValueUnique(ds, Trits(v, |ds|));
  }

  /** Out of range, the trits of the clamped value are all 2s or all 0s. */
  lemma TritsSaturate(v: int, n: nat)
    ensures v > Span(n) ==> Trits(Clamp(v, n), n) == Twos(n)
    ensures v < -Span(n) ==> Trits(Clamp(v, n), n) == Zeros(n)
  {
    var c := Clamp(v, n);
    if v > Span(n) {
      TritsUnique(Twos(n), c);
    } else if v < -Span(n) {
      TritsUnique(Zeros(n), c);
    }
  }

  /**
   * The greedy digit loop's residual with k trits still to come: after the
   * overflow `over` (the part of the input beyond what balanced trits can
   * express) is taken away, it is within Span(k), and it sits at the bound on
   * the side of a nonzero overflow.
   */
  predicate GreedyResidual(residual: int, over: int, k: nat)
  {
    && -Span(k) <= residual - over <= Span(k)
    && (over > 0 ==> residual - over == Span(k))
    && (over < 0 ==> residual - over == -Span(k))
  }

  /** The trit the greedy loop writes for `residual` at weight p: 2 at or above ceil(p / 2), 0 at or below -ceil(p / 2), else 1. */
  function GreedyTrit(residual: int, p: int): int
  {
    if residual >= (p + 1) / 2 then 2 else if residual <= -((p + 1) / 2) then 0 else 1
  }

  /** What the greedy loop leaves of `residual` after writing its trit at weight p. */
  function GreedyRest(residual: int, p: int): (r: int)
    ensures r == residual - (GreedyTrit(residual, p) - 1) * p
  {
    if residual >= (p + 1) / 2 then residual - p else if residual <= -((p + 1) / 2) then residual + p else residual
  }

  lemma TritsSnoc(ts: seq<int>, d: int)
    requires IsTrits(ts) && 0 <= d <= 2
    ensures IsTrits(ts + [d])
  {
  }

  /** One step of the greedy loop, with k trits left after it, keeps its residual invariant. */
  lemma GreedyStep(residual: int, over: int, k: nat)
    requires GreedyResidual(residual, over, k + 1)
    ensures 0 <= GreedyTrit(residual, Pow3(k)) <= 2
    ensures GreedyResidual(GreedyRest(residual, Pow3(k)), over, k)
  {
    SpanStep(k);
  }

  /** The part of a component the trits `ts` account for, with k trits still to come. */
  function Scaled(ts: seq<int>, k: nat): int
  {
    Value(ts) * Pow3(k)
  }

  lemma Distribute(v: int, d: int, p: int)
    ensures (3 * v + (d - 1)) * p == v * (3 * p) + (d - 1) * p
  {
  }

  /** Writing trit d with k trits to come adds (d - 1) * 3^k to what the trits account for. */
  lemma ScaledSnoc(ts: seq<int>, d: int, k: nat)
    ensures Scaled(ts + [d], k) == Scaled(ts, k + 1) + (d - 1) * Pow3(k)
  {
    ValueSnoc(ts, d);
    assert Pow3(k + 1) == 3 * Pow3(k);
    Distribute(Value(ts), d, Pow3(k));
  }
}
