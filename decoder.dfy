/**
 * `get_xy_by_code` (geohex.py): from a code back to the grid index of its
 * hexagon.  The floating-point hexagon size the source also computes is not
 * used by the result and is left out.
 *
 * The source tests `h_dec9[0] in [1, 5]` before the padding loop, comparing a
 * character with integers; the test is never true, so its rewrite of the
 * first digit never happens and is not modelled.
 */
module Decoder {
  import opened Builtins
  import opened Radix
  import opened Ternary
  import opened Grid
  import opened Codes

  /** The index a valid code stands for: its two trit sequences, folded back into the band. */
  function Decoded(code: string): (int, int)
    requires ValidCode(code)
  {
    var ns := NonaryDigits(code);
    var a := Adjust(Value(HighTrits(ns)), Value(LowTrits(ns)), |code| - 2);
    (a.x, a.y)
  }

  /** Base-9 digits written as characters. */
  function Nonary(ns: seq<int>): (s: string)
    requires forall i :: 0 <= i < |ns| ==> 0 <= ns[i] <= 8
    ensures |s| == |ns|
  {
    seq(|ns|, i requires 0 <= i < |ns| => DigitChar(ns[i]))
  }

  /** The digit values of a string of digit characters. */
  function DigitValues(s: string): (ds: seq<int>)
    ensures |ds| == |s|
  {
    seq(|s|, i requires 0 <= i < |s| => DigitValue(s[i]))
  }

  /** k zero characters. */
  function ZeroPad(k: nat): (s: string)
    ensures |s| == k && forall i :: 0 <= i < k ==> s[i] == '0'
  {
    seq(k, _ => '0')
  }

  lemma ZeroPadStep(k: nat, t: string)
    ensures "0" + (ZeroPad(k) + t) == ZeroPad(k + 1) + t
  {
  }

  /** `h_dec9` before padding: `str(h)` of the letters' value, then the rest of the code. */
  method LetterDecimal(code: string) returns (hDec9: string)
    requires |code| >= 2 && LetterIndex(code[0]) >= 0 && LetterIndex(code[1]) >= 0
    ensures hDec9 == Show(LetterValue(code), 10) + code[2..]
  {
    FindLetter(code[0]);
    FindLetter(code[1]);
    var h := Find(HKey, code[0]) * 30 + Find(HKey, code[1]);
    assert h == LetterValue(code);
    hDec9 := Show(h, 10) + code[2..];
  }

  /** The padding loop: '0' in front of `s` until it is `width` characters long. */
  method PadLoop(s: string, width: int) returns (hDec9: string)
    ensures |s| <= width ==> hDec9 == ZeroPad(width - |s|) + s
    ensures |s| > width ==> hDec9 == s
  {
    hDec9 := s;
    var d9xlen := |hDec9|;
    var count := width - d9xlen;
    var i := 0;
    while i < count
      invariant 0 <= i && (count >= 0 ==> i <= count) && d9xlen == |hDec9|
      invariant hDec9 == ZeroPad(i) + s
      invariant count < 0 ==> hDec9 == s
    {
      ZeroPadStep(i, s);
      hDec9 := "0" + hDec9;
      d9xlen := d9xlen + 1;
      i := i + 1;
    }
  }

  /** The padded string is the code's base-9 digits. */
  lemma PadLoopResult(code: string, h: int)
    requires ValidCode(code) && h == LetterValue(code)
    ensures 0 <= h < 1000 && |Show(h, 10)| <= 3
    ensures ZeroPad(3 - |Show(h, 10)|) + (Show(h, 10) + code[2..]) == Nonary(NonaryDigits(code))
  {
    DecimalBelow1000(h);
    var ns := NonaryDigits(code);
    var s := ZeroPad(3 - |Show(h, 10)|) + (Show(h, 10) + code[2..]);
    var head := ZeroPad(3 - |Show(h, 10)|) + Show(h, 10);
    assert s == head + code[2..];
    assert head == [DigitChar(h / 100), DigitChar(h / 10 % 10), DigitChar(h % 10)];
    assert forall i :: 2 <= i < |code| ==> code[i] == DigitChar(code[i] as int - '0' as int);
    assert forall i :: 0 <= i < |s| ==> s[i] == Nonary(ns)[i];
  }

  /** One pass of the `h_dec3` loop: `int2str(d, 3)`, padded on the left with '0' to two digits. */
  method TernaryPair(d: int) returns (pair: string)
    requires 0 <= d <= 8
    ensures pair == [DigitChar(d / 3), DigitChar(d % 3)]
  {
    var r := Int2Str(d, 3);
    var hDec0 := r.value;
    Base3OfNonary(d);
    pair := "";
    if |hDec0| == 0 {
      pair := "00";
    } else if |hDec0| == 1 {
      pair := "0";
    }
    pair := pair + hDec0;
  }

  /** The loop building `h_dec3`: every base-9 digit becomes two base-3 digit characters. */
  method TernaryLoop(hDec9: string) returns (hDec3: string)
    requires forall i :: 0 <= i < |hDec9| ==> '0' <= hDec9[i] <= '8'
    ensures |hDec3| == 2 * |hDec9|
    ensures forall i :: 0 <= i < |hDec9| ==>
      hDec3[2 * i] == DigitChar(DigitValue(hDec9[i]) / 3) && hDec3[2 * i + 1] == DigitChar(DigitValue(hDec9[i]) % 3)
  {
    hDec3 := "";
    var i := 0;
    while i < |hDec9|
      invariant 0 <= i <= |hDec9| && |hDec3| == 2 * i
      invariant forall j :: 0 <= j < i ==>
        hDec3[2 * j] == DigitChar(DigitValue(hDec9[j]) / 3) && hDec3[2 * j + 1] == DigitChar(DigitValue(hDec9[j]) % 3)
    {
      var pair := TernaryPair(DigitValue(hDec9[i]));
      hDec3 := hDec3 + pair;
      i := i + 1;
    }
  }

  /** The loop building `h_decx` and `h_decy`: the characters at even and at odd positions. */
  method SplitLoop(hDec3: string) returns (hDecx: string, hDecy: string)
    ensures |hDecx| == |hDec3| / 2 && |hDecy| == |hDec3| / 2
    ensures forall i :: 0 <= i < |hDec3| / 2 ==> hDecx[i] == hDec3[2 * i] && hDecy[i] == hDec3[2 * i + 1]
  {
    hDecx, hDecy := "", "";
    var i := 0;
    while i < |hDec3| / 2
      invariant 0 <= i <= |hDec3| / 2 && |hDecx| == i && |hDecy| == i
      invariant forall j :: 0 <= j < i ==> hDecx[j] == hDec3[2 * j] && hDecy[j] == hDec3[2 * j + 1]
    {
      hDecx := hDecx + [hDec3[i * 2]];
      hDecy := hDecy + [hDec3[i * 2 + 1]];
      i := i + 1;
    }
  }

  /** One term of the power sum: digit 0 subtracts the weight, digit 2 adds it, digit 1 leaves the sum alone. */
  method Weigh(h: int, c: char, hPow: int) returns (r: int)
    requires 0 <= DigitValue(c) <= 2
    ensures r == h + (DigitValue(c) - 1) * hPow
  {
    r := h;
    if DigitValue(c) == 0 {
      r := r - hPow;
    } else if DigitValue(c) == 2 {
      r := r + hPow;
    }
  }

  /** The trits `ts[..i + 1]` account for the trits `ts[..i]` at the next weight plus the new term. */
  lemma SumStep(ts: seq<int>, i: nat)
    requires i < |ts|
    ensures Scaled(ts[..i + 1], |ts| - i - 1) == Scaled(ts[..i], |ts| - i) + (ts[i] - 1) * Pow3(|ts| - i - 1)
  {
    assert ts[..i + 1] == ts[..i] + [ts[i]];
    ScaledSnoc(ts[..i], ts[i], |ts| - i - 1);
  }

  /**
   * The loop summing the powers of 3 (the source's `math.pow(3, level + 2 - i)`),
   * so the sums are the balanced ternary values of both digit strings.
   */
  method SumLoop(hDecx: string, hDecy: string, level: nat) returns (hX: int, hY: int)
    requires |hDecx| == level + 3 && |hDecy| == level + 3
    requires IsTrits(DigitValues(hDecx)) && IsTrits(DigitValues(hDecy))
    ensures hX == Value(DigitValues(hDecx)) && hY == Value(DigitValues(hDecy))
  {
    var n := level + 3;
    ghost var tx, ty := DigitValues(hDecx), DigitValues(hDecy);
    hX, hY := 0, 0;
    var i := 0;
    while i < n
      invariant 0 <= i <= n
      invariant hX == Scaled(tx[..i], n - i) && hY == Scaled(ty[..i], n - i)
    {
      var hPow := Pow3(level + 2 - i);
      SumStep(tx, i);
      SumStep(ty, i);
      assert tx[i] == DigitValue(hDecx[i]) && ty[i] == DigitValue(hDecy[i]);
      hX := Weigh(hX, hDecx[i], hPow);
      hY := Weigh(hY, hDecy[i], hPow);
      i := i + 1;
    }
    assert tx[..n] == tx && ty[..n] == ty;
  }

  /** `get_xy_by_code(code)`: the grid index of a valid code's hexagon. */
  method GetXYByCode(code: string) returns (x: int, y: int)
    requires ValidCode(code)
    ensures (x, y) == Decoded(code)
  {
    var level := |code| - 2;
    var ns := NonaryDigits(code);
    var hDec9 := LetterDecimal(code);
    PadLoopResult(code, LetterValue(code));
    hDec9 := PadLoop(hDec9, level + 3);
    NonaryChars(ns);
    var hDec3 := TernaryLoop(hDec9);
    var hDecx, hDecy := SplitLoop(hDec3);
    SplitTrits(ns, hDec9, hDec3, hDecx, hDecy);
    var hX, hY := SumLoop(hDecx, hDecy, level);
    var inner := AdjustXY(hX, hY, level);
    x, y := inner.x, inner.y;
  }

  lemma NonaryChars(ns: seq<int>)
    requires forall i :: 0 <= i < |ns| ==> 0 <= ns[i] <= 8
    ensures forall i :: 0 <= i < |ns| ==> '0' <= Nonary(ns)[i] <= '8' && DigitValue(Nonary(ns)[i]) == ns[i]
  {
  }

  /** The even and odd characters of `h_dec3` are the high and low trits of the code's digits. */
  lemma SplitTrits(ns: seq<int>, hDec9: string, hDec3: string, hDecx: string, hDecy: string)
    requires forall i :: 0 <= i < |ns| ==> 0 <= ns[i] <= 8
    requires hDec9 == Nonary(ns) && |hDec3| == 2 * |hDec9|
    requires forall i :: 0 <= i < |hDec9| ==>
      hDec3[2 * i] == DigitChar(DigitValue(hDec9[i]) / 3) && hDec3[2 * i + 1] == DigitChar(DigitValue(hDec9[i]) % 3)
    requires |hDecx| == |hDec3| / 2 && |hDecy| == |hDec3| / 2
    requires forall i :: 0 <= i < |hDec3| / 2 ==> hDecx[i] == hDec3[2 * i] && hDecy[i] == hDec3[2 * i + 1]
    ensures |hDecx| == |ns| && |hDecy| == |ns|
    ensures DigitValues(hDecx) == HighTrits(ns) && DigitValues(hDecy) == LowTrits(ns)
  {
    NonaryChars(ns);
    assert |hDec3| / 2 == |ns|;
    forall i | 0 <= i < |ns|
      ensures DigitValues(hDecx)[i] == HighTrits(ns)[i] && DigitValues(hDecy)[i] == LowTrits(ns)[i]
    {
      DigitValueChar(ns[i] / 3);
      DigitValueChar(ns[i] % 3);
    }
  }
}
