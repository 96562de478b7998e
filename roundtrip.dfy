/**
 * How the encoder and the decoder fit together: the shape of every code the
 * encoder writes, and decoding an encoded index giving back the index folded
 * by `adjust_xy`.
 */
module RoundTrip {
  import opened Builtins
  import opened Radix
  import opened Ternary
  import opened Grid
  import opened Codes
  import opened Encoder
  import opened Decoder

  /** The base-9 digits of trit pairs. */
  function PairDigits(tx: seq<int>, ty: seq<int>): (ns: seq<int>)
    requires |tx| == |ty| && IsTrits(tx) && IsTrits(ty)
    ensures |ns| == |tx| && forall i :: 0 <= i < |ns| ==> 0 <= ns[i] <= 8
  {
    seq(|tx|, i requires 0 <= i < |tx| => 3 * tx[i] + ty[i])
  }

  /** Packing writes the pairs' base-9 digits, and splitting those digits gives the pairs back. */
  lemma PairDigitsSplit(tx: seq<int>, ty: seq<int>)
    requires |tx| == |ty| && IsTrits(tx) && IsTrits(ty)
    ensures Pack(tx, ty) == Nonary(PairDigits(tx, ty))
    ensures HighTrits(PairDigits(tx, ty)) == tx && LowTrits(PairDigits(tx, ty)) == ty
  {
  }

  /** Base-9 digit characters read back as their values. */
  lemma CodeDigitsNonary(ms: seq<int>)
    requires forall i :: 0 <= i < |ms| ==> 0 <= ms[i] <= 8
    ensures CodeDigits(Nonary(ms)) == ms
    ensures forall i :: 0 <= i < |ms| ==> '0' <= Nonary(ms)[i] <= '8'
  {
  }

  lemma NonaryTail(ns: seq<int>)
    requires |ns| >= 3 && forall i :: 0 <= i < |ns| ==> 0 <= ns[i] <= 8
    ensures Nonary(ns)[..3] == [DigitChar(ns[0]), DigitChar(ns[1]), DigitChar(ns[2])]
    ensures Nonary(ns)[3..] == Nonary(ns[3..])
  {
  }

  /** The two letters of a base-9 numeral lettered as the encoder does, and the rest of it. */
  lemma LetteredHead(ns: seq<int>)
    requires |ns| >= 3 && forall i :: 0 <= i < |ns| ==> 0 <= ns[i] <= 8
    ensures var code := Lettered(Nonary(ns)); var h := 100 * ns[0] + 10 * ns[1] + ns[2];
      && |code| == |ns| - 1
      && code[0] == LetterAt(h / 30) && code[1] == LetterAt(h % 30)
      && 0 <= h / 30 <= 29 && 0 <= h % 30 < 30
      && code[2..] == Nonary(ns[3..])
  {
    var numeral := Nonary(ns);
    NonaryTail(ns);
    var s := numeral[..3];
    ParseThree(s);
  }

  /** ... and the letters' positions in `h_key` give back the value of the first three digits. */
  lemma LetteredLetters(ns: seq<int>)
    requires |ns| >= 3 && forall i :: 0 <= i < |ns| ==> 0 <= ns[i] <= 8
    ensures var code := Lettered(Nonary(ns)); var h := 100 * ns[0] + 10 * ns[1] + ns[2];
      && |code| >= 2
      && LetterIndex(code[0]) == h / 30 && LetterIndex(code[1]) == h % 30
      && LetterValue(code) == h
  {
    LetteredHead(ns);
    var h := 100 * ns[0] + 10 * ns[1] + ns[2];
    LetterIndexAt(h / 30);
    LetterIndexAt(h % 30);
  }

  /** The decimal digits of 100a + 10b + c are a, b and c. */
  lemma DecimalThree(a: int, b: int, c: int)
    requires 0 <= a <= 8 && 0 <= b <= 8 && 0 <= c <= 8
    ensures var h := 100 * a + 10 * b + c; h < 1000 && h / 100 == a && h / 10 % 10 == b && h % 10 == c
  {
    var h := 100 * a + 10 * b + c;
    assert h / 10 == 10 * a + b;
  }

  /** A numeral of base-9 digits, lettered as the encoder does, is a valid code. */
  lemma LetteredValid(ns: seq<int>)
    requires |ns| >= 3 && forall i :: 0 <= i < |ns| ==> 0 <= ns[i] <= 8
    ensures ValidCode(Lettered(Nonary(ns)))
  {
    var code := Lettered(Nonary(ns));
    LetteredHead(ns);
    LetteredLetters(ns);
    DecimalThree(ns[0], ns[1], ns[2]);
    CodeDigitsNonary(ns[3..]);
    assert forall i :: 2 <= i < |code| ==> code[i] == code[2..][i - 2];
  }

  /** ... and the code's base-9 digits are the numeral's. */
  lemma LetteredDigits(ns: seq<int>)
    requires |ns| >= 3 && forall i :: 0 <= i < |ns| ==> 0 <= ns[i] <= 8
    ensures ValidCode(Lettered(Nonary(ns)))
    ensures NonaryDigits(Lettered(Nonary(ns))) == ns
  {
    var code := Lettered(Nonary(ns));
    LetteredValid(ns);
    LetteredHead(ns);
    LetteredLetters(ns);
    DecimalThree(ns[0], ns[1], ns[2]);
    CodeDigitsNonary(ns[3..]);
    SplitThree(ns);
  }

  lemma SplitThree(ns: seq<int>)
    requires |ns| >= 3
    ensures [ns[0], ns[1], ns[2]] + ns[3..] == ns
  {
  }

  /** The base-9 digits the encoder writes for the digit loop's trits. */
  function CodedDigits(gx: seq<int>, gy: seq<int>, east: bool): (ns: seq<int>)
    requires |gx| == |gy| >= 3 && IsTrits(gx) && IsTrits(gy)
    ensures |ns| == |gx| && forall i :: 0 <= i < |ns| ==> 0 <= ns[i] <= 8
  {
    SeamCorrectionShape(gx, gy, east);
    PairDigits(CorrectedX(gx, gy, east), CorrectedY(gx, gy, east))
  }

  /** The code of the digit loop's trits is its base-9 digits, lettered; splitting them gives the corrected trits. */
  lemma CodedLettered(gx: seq<int>, gy: seq<int>, east: bool)
    requires |gx| == |gy| >= 3 && IsTrits(gx) && IsTrits(gy)
    ensures Coded(gx, gy, east) == Lettered(Nonary(CodedDigits(gx, gy, east)))
    ensures HighTrits(CodedDigits(gx, gy, east)) == CorrectedX(gx, gy, east)
    ensures LowTrits(CodedDigits(gx, gy, east)) == CorrectedY(gx, gy, east)
  {
    SeamCorrectionShape(gx, gy, east);
    PairDigitsSplit(CorrectedX(gx, gy, east), CorrectedY(gx, gy, east));
  }

  /** The code of the digit loop's trits is a valid code that reads back as the corrected trits. */
  lemma CodedValid(gx: seq<int>, gy: seq<int>, east: bool)
    requires |gx| == |gy| >= 3 && IsTrits(gx) && IsTrits(gy)
    ensures ValidCode(Coded(gx, gy, east))
    ensures HighTrits(NonaryDigits(Coded(gx, gy, east))) == CorrectedX(gx, gy, east)
    ensures LowTrits(NonaryDigits(Coded(gx, gy, east))) == CorrectedY(gx, gy, east)
  {
    CodedLettered(gx, gy, east);
    LetteredDigits(CodedDigits(gx, gy, east));
  }

  /** The code of the digit loop's trits: one letter pair, then a digit '0'..'8' per further pair. */
  lemma CodedShape(gx: seq<int>, gy: seq<int>, east: bool)
    requires |gx| == |gy| >= 3 && IsTrits(gx) && IsTrits(gy)
    ensures var code := Coded(gx, gy, east);
      && |code| == |gx| - 1
      && 0 <= LetterIndex(code[0]) <= 29 && 0 <= LetterIndex(code[1]) <= 29
      && forall i :: 2 <= i < |code| ==> '0' <= code[i] <= '8'
  {
    CodedLettered(gx, gy, east);
    var ns := CodedDigits(gx, gy, east);
    LetteredHead(ns);
    LetteredLetters(ns);
    LetteredValid(ns);
  }

  /** The code of a grid index is the code of its greedy trits. */
  lemma EncodingCoded(x: int, y: int, level: nat, eastOrSeam: bool)
    ensures var (sx, sy) := SeamSwapped(x, y, level);
      var east := eastOrSeam || Abs(x - y) == MaxSteps(level);
      Encoding(x, y, level, eastOrSeam) == Coded(GreedyTrits(sx, level), GreedyTrits(sy, level), east)
  {
  }

  /** The code of a grid index is a valid code, whose trits are the corrected greedy trits. */
  lemma EncodingDigits(x: int, y: int, level: nat, eastOrSeam: bool)
    ensures var (sx, sy) := SeamSwapped(x, y, level);
      var east := eastOrSeam || Abs(x - y) == MaxSteps(level);
      var (gx, gy) := (GreedyTrits(sx, level), GreedyTrits(sy, level));
      var code := Encoding(x, y, level, eastOrSeam);
      && ValidCode(code)
      && HighTrits(NonaryDigits(code)) == CorrectedX(gx, gy, east)
      && LowTrits(NonaryDigits(code)) == CorrectedY(gx, gy, east)
  {
    var (sx, sy) := SeamSwapped(x, y, level);
    var east := eastOrSeam || Abs(x - y) == MaxSteps(level);
    EncodingCoded(x, y, level, eastOrSeam);
    CodedValid(GreedyTrits(sx, level), GreedyTrits(sy, level), east);
  }

  /** `Zone.get_level` of an encoded zone is the level it was encoded at, and its code has that shape. */
  lemma EncodingShape(x: int, y: int, level: nat, eastOrSeam: bool)
    ensures var code := Encoding(x, y, level, eastOrSeam);
      && |code| == level + 2
      && Zone(x, y, code).Level() == level
      && 0 <= LetterIndex(code[0]) <= 29 && 0 <= LetterIndex(code[1]) <= 29
      && forall i :: 2 <= i < |code| ==> '0' <= code[i] <= '8'
  {
    var (sx, sy) := SeamSwapped(x, y, level);
    var east := eastOrSeam || Abs(x - y) == MaxSteps(level);
    EncodingCoded(x, y, level, eastOrSeam);
    CodedShape(GreedyTrits(sx, level), GreedyTrits(sy, level), east);
  }

  /** The value of three trits. */
  lemma ValueThree(t: seq<int>)
    requires |t| == 3
    ensures Value(t) == 9 * (t[0] - 1) + 3 * (t[1] - 1) + (t[2] - 1)
  {
    var a := [t[0]];
    var b := a + [t[1]];
    assert [] + [t[0]] == a && t == b + [t[2]];
    ValueSnoc([], t[0]);
    ValueSnoc(a, t[1]);
    ValueSnoc(b, t[2]);
  }

  lemma GapArith(vx: int, vy: int, rx: int, ry: int, p: int, s: int)
    requires vx == vy + 9 && -s <= rx <= s && -s <= ry <= s && 2 * s + 1 == p
    ensures 0 < (vx * p + rx) - (vy * p + ry) < 18 * p
  {
    assert vx * p == vy * p + 9 * p;
  }

  /** A trit sequence splits into its first three trits, weighted, and the rest. */
  lemma ValueSplit3(t: seq<int>)
    requires |t| >= 3 && IsTrits(t)
    ensures Value(t) == Value(t[..3]) * Pow3(|t| - 3) + Value(t[3..])
    ensures -Span(|t| - 3) <= Value(t[3..]) <= Span(|t| - 3)
  {
    assert t == t[..3] + t[3..];
    ValueConcat(t[..3], t[3..]);
    assert IsTrits(t[3..]);
    ValueBound(t[3..]);
  }

  lemma Pow3Two(k: nat)
    ensures Pow3(k + 2) == 9 * Pow3(k)
  {
    assert Pow3(k + 2) == 3 * Pow3(k + 1);
  }

  /** When the correction fires, the first three x trits stand for 9 more than the first three y trits. */
  lemma SeamHeadGap(tx: seq<int>, ty: seq<int>, east: bool)
    requires |tx| >= 3 && |ty| >= 3
    requires SeamFires(tx, ty, east)
    ensures Value(tx[..3]) == Value(ty[..3]) + 9
  {
    ValueThree(tx[..3]);
    ValueThree(ty[..3]);
  }

  /**
   * When the seam correction fires, the first trit pair differs by one and
   * the next two pairs agree, so x exceeds y by between 0 and 2 * 3^(n-1).
   */
  lemma SeamGap(tx: seq<int>, ty: seq<int>, east: bool)
    requires |tx| == |ty| >= 3 && IsTrits(tx) && IsTrits(ty)
    requires SeamFires(tx, ty, east)
    ensures 0 < Value(tx) - Value(ty) < 2 * Pow3(|tx| - 1)
  {
    var k := |tx| - 3;
    ValueSplit3(tx);
    ValueSplit3(ty);
    SeamHeadGap(tx, ty, east);
    GapArith(Value(tx[..3]), Value(ty[..3]), Value(tx[3..]), Value(ty[3..]), Pow3(k), Span(k));
    Pow3Two(k);
    assert |tx| - 1 == k + 2;
  }

  /** What the decoder reads off the corrected trits of an in-range index. */
  lemma CorrectedValues(sx: int, sy: int, level: nat, east: bool)
    requires -Span(level + 3) <= sx <= Span(level + 3) && -Span(level + 3) <= sy <= Span(level + 3)
    ensures var (gx, gy) := (GreedyTrits(sx, level), GreedyTrits(sy, level));
      var (vx, vy) := (Value(CorrectedX(gx, gy, east)), Value(CorrectedY(gx, gy, east)));
      && (!SeamFires(gx, gy, east) ==> vx == sx && vy == sy)
      && (SeamFires(gx, gy, east) ==>
            vx == sx - MaxSteps(level) && vy == sy + MaxSteps(level) && 0 < sx - sy < 2 * MaxSteps(level))
  {
    var (gx, gy) := (GreedyTrits(sx, level), GreedyTrits(sy, level));
    if SeamFires(gx, gy, east) {
      SeamCorrectionShift(gx, gy, east);
      SeamGap(gx, gy, east);
    }
  }

  /**
   * The decoder's `adjust_xy` undoes both the encoder's seam swap and a
   * firing seam correction: either leaves (x, y) as `adjust_xy` folds it.
   */
  lemma AdjustUndoesSeam(x: int, y: int, level: nat, vx: int, vy: int)
    requires var (sx, sy) := SeamSwapped(x, y, level); var m := MaxSteps(level);
      || (vx == sx && vy == sy)
      || (vx == sx - m && vy == sy + m && 0 < sx - sy < 2 * m)
    ensures Adjust(vx, vy, level).x == Adjust(x, y, level).x
    ensures Adjust(vx, vy, level).y == Adjust(x, y, level).y
  {
  }

  /** Decoding the code of an index reads back the corrected trits' values. */
  lemma DecodedEncoding(x: int, y: int, level: nat, eastOrSeam: bool)
    ensures var (sx, sy) := SeamSwapped(x, y, level);
      var east := eastOrSeam || Abs(x - y) == MaxSteps(level);
      var (gx, gy) := (GreedyTrits(sx, level), GreedyTrits(sy, level));
      var a := Adjust(Value(CorrectedX(gx, gy, east)), Value(CorrectedY(gx, gy, east)), level);
      && ValidCode(Encoding(x, y, level, eastOrSeam))
      && Decoded(Encoding(x, y, level, eastOrSeam)) == (a.x, a.y)
  {
    EncodingDigits(x, y, level, eastOrSeam);
  }

  /**
   * Decoding the code of an index gives back the index as `adjust_xy` folds
   * it, whatever the longitude test said, as long as both components are
   * within what level + 3 balanced trits express.
   */
  lemma DecodeEncode(x: int, y: int, level: nat, eastOrSeam: bool)
    requires -Span(level + 3) <= x <= Span(level + 3) && -Span(level + 3) <= y <= Span(level + 3)
    ensures ValidCode(Encoding(x, y, level, eastOrSeam))
    ensures Decoded(Encoding(x, y, level, eastOrSeam)) == (Adjust(x, y, level).x, Adjust(x, y, level).y)
  {
    var (sx, sy) := SeamSwapped(x, y, level);
    var east := eastOrSeam || Abs(x - y) == MaxSteps(level);
    var (gx, gy) := (GreedyTrits(sx, level), GreedyTrits(sy, level));
    DecodedEncoding(x, y, level, eastOrSeam);
    CorrectedValues(sx, sy, level, east);
    AdjustUndoesSeam(x, y, level, Value(CorrectedX(gx, gy, east)), Value(CorrectedY(gx, gy, east)));
  }

  /**
   * The decoder's `adjust_xy` undoes a firing correction: when
   * 0 < cx - cy < 2M, folding (cx - M, cy + M) gives the same coordinates
   * as folding (cx, cy).
   */
  lemma AdjustUndoesCorrection(cx: int, cy: int, level: nat, vx: int, vy: int)
    requires var m := MaxSteps(level);
      || (vx == cx && vy == cy)
      || (vx == cx - m && vy == cy + m && 0 < cx - cy < 2 * m)
    ensures Adjust(vx, vy, level).x == Adjust(cx, cy, level).x
    ensures Adjust(vx, vy, level).y == Adjust(cx, cy, level).y
  {
  }

  /**
   * For every index, in range or not: decoding its code gives `adjust_xy`
   * of the edge-swapped pair with each component clamped to what level + 3
   * balanced trits express.
   */
  lemma DecodeEncodeClamped(x: int, y: int, level: nat, eastOrSeam: bool)
    ensures ValidCode(Encoding(x, y, level, eastOrSeam))
    ensures var (sx, sy) := SeamSwapped(x, y, level);
      var a := Adjust(Clamp(sx, level + 3), Clamp(sy, level + 3), level);
      Decoded(Encoding(x, y, level, eastOrSeam)) == (a.x, a.y)
  {
    var (sx, sy) := SeamSwapped(x, y, level);
    var east := eastOrSeam || Abs(x - y) == MaxSteps(level);
    var (cx, cy) := (Clamp(sx, level + 3), Clamp(sy, level + 3));
    var (gx, gy) := (GreedyTrits(sx, level), GreedyTrits(sy, level));
    assert GreedyTrits(cx, level) == gx && GreedyTrits(cy, level) == gy;
    DecodedEncoding(x, y, level, eastOrSeam);
    CorrectedValues(cx, cy, level, east);
    AdjustUndoesCorrection(cx, cy, level, Value(CorrectedX(gx, gy, east)), Value(CorrectedY(gx, gy, east)));
  }

  /** Out of range the greedy trits saturate: a component above the range reads as all 2s, below it as all 0s. */
  lemma EncodingSaturates(v: int, level: nat)
    ensures v > Span(level + 3) ==> GreedyTrits(v, level) == Twos(level + 3)
    ensures v < -Span(level + 3) ==> GreedyTrits(v, level) == Zeros(level + 3)
  {
    TritsSaturate(v, level + 3);
  }

  /** One more trit of a prefix. */
  lemma ValueStep(t: seq<int>, k: nat, v: int)
    requires k < |t| && Value(t[..k]) == v
    ensures Value(t[..k + 1]) == 3 * v + (t[k] - 1)
  {
    assert t[..k + 1] == t[..k] + [t[k]];
    ValueSnoc(t[..k], t[k]);
  }

  /** The balanced trits of 912000 at level 11, most significant first. */
  lemma ExampleTritsX(x: int)
    requires x == 912000
    ensures GreedyTrits(x, 11) == [2, 0, 0, 1, 2, 2, 1, 1, 1, 1, 2, 0, 2, 1]
  {
    var t := [2, 0, 0, 1, 2, 2, 1, 1, 1, 1, 2, 0, 2, 1];
    assert t[..0] == [];
    ValueStep(t, 0, 0); ValueStep(t, 1, 1); ValueStep(t, 2, 2); ValueStep(t, 3, 5);
    ValueStep(t, 4, 15); ValueStep(t, 5, 46); ValueStep(t, 6, 139); ValueStep(t, 7, 417);
    ValueStep(t, 8, 1251); ValueStep(t, 9, 3753); ValueStep(t, 10, 11259); ValueStep(t, 11, 33778);
    ValueStep(t, 12, 101333); ValueStep(t, 13, 304000);
    assert t[..14] == t;
    TritsUnique(t, x);
  }

  /** The balanced trits of -325774 at level 11, most significant first. */
  lemma ExampleTritsY(y: int)
    requires y == -325774
    ensures GreedyTrits(y, 11) == [1, 0, 2, 1, 2, 2, 2, 1, 1, 2, 1, 2, 1, 0]
  {
    var u := [1, 0, 2, 1, 2, 2, 2, 1, 1, 2, 1, 2, 1, 0];
    assert u[..0] == [];
    ValueStep(u, 0, 0); ValueStep(u, 1, 0); ValueStep(u, 2, -1); ValueStep(u, 3, -2);
    ValueStep(u, 4, -6); ValueStep(u, 5, -17); ValueStep(u, 6, -50); ValueStep(u, 7, -149);
    ValueStep(u, 8, -447); ValueStep(u, 9, -1341); ValueStep(u, 10, -4022); ValueStep(u, 11, -12066);
    ValueStep(u, 12, -36197); ValueStep(u, 13, -108591);
    assert u[..14] == u;
    TritsUnique(u, y);
  }

  /** The base-9 digits of the example as characters. */
  lemma ExampleNumeral(ns: seq<int>)
    requires ns == [7, 0, 2, 4, 8, 8, 5, 4, 4, 5, 7, 2, 7, 3]
    ensures Nonary(ns[3..]) == "48854457273"
  {
    var s := Nonary(ns[3..]);
    assert |s| == 11;
    assert s[0] == '4' && s[1] == '8' && s[2] == '8' && s[3] == '5' && s[4] == '4' && s[5] == '4';
    assert s[6] == '5' && s[7] == '7' && s[8] == '2' && s[9] == '7' && s[10] == '3';
  }

  /** The example index lies inside the band, so the seam swap leaves it alone. */
  lemma ExampleSwap(x: int, y: int)
    requires x == 912000 && y == -325774
    ensures SeamSwapped(x, y, 11) == (x, y)
    ensures Adjust(x, y, 11) == Adjusted(x, y, false)
    ensures -Span(14) <= x <= Span(14) && -Span(14) <= y <= Span(14)
  {
  }

  lemma ExampleDigits(tx: seq<int>, ty: seq<int>)
    requires tx == [2, 0, 0, 1, 2, 2, 1, 1, 1, 1, 2, 0, 2, 1]
    requires ty == [1, 0, 2, 1, 2, 2, 2, 1, 1, 2, 1, 2, 1, 0]
    ensures !SeamFires(tx, ty, true)
    ensures PairDigits(tx, ty) == [7, 0, 2, 4, 8, 8, 5, 4, 4, 5, 7, 2, 7, 3]
  {
  }

  lemma ExampleLetters()
    ensures LetterAt(23) == 'X' && LetterAt(12) == 'M'
  {
  }

  /** A code is its two letters followed by the rest. */
  lemma LettersThenRest(code: string)
    requires |code| >= 2
    ensures code == [code[0], code[1]] + code[2..]
  {
  }

  lemma ExampleSplit()
    ensures "XM48854457273" == ['X', 'M'] + "48854457273"
  {
  }

  /** The example's trit pairs pack and letter to "XM48854457273"; the seam correction does not fire. */
  lemma ExampleLettered(tx: seq<int>, ty: seq<int>)
    requires tx == [2, 0, 0, 1, 2, 2, 1, 1, 1, 1, 2, 0, 2, 1]
    requires ty == [1, 0, 2, 1, 2, 2, 2, 1, 1, 2, 1, 2, 1, 0]
    ensures !SeamFires(tx, ty, true)
    ensures Coded(tx, ty, true) == "XM48854457273"
  {
    ExampleDigits(tx, ty);
    CodedLettered(tx, ty, true);
    var ns := CodedDigits(tx, ty, true);
    assert ns == [7, 0, 2, 4, 8, 8, 5, 4, 4, 5, 7, 2, 7, 3];
    LetteredHead(ns);
    ExampleLetters();
    ExampleNumeral(ns);
    LettersThenRest(Coded(tx, ty, true));
    ExampleSplit();
  }

  /** Where the seam swap leaves an index alone and the longitude test holds, its code is the lettered, corrected greedy trits. */
  lemma EncodingUnswapped(x: int, y: int, level: nat)
    requires SeamSwapped(x, y, level) == (x, y)
    ensures Encoding(x, y, level, true) == Coded(GreedyTrits(x, level), GreedyTrits(y, level), true)
  {
  }

  /** The index (912000, -325774) at level 11 has the code "XM48854457273". */
  lemma EncodeExample(x: int, y: int)
    requires x == 912000 && y == -325774
    ensures Encoding(x, y, 11, true) == "XM48854457273"
  {
    ExampleSwap(x, y);
    EncodingUnswapped(x, y, 11);
    ExampleTritsX(x);
    ExampleTritsY(y);
    ExampleLettered(GreedyTrits(x, 11), GreedyTrits(y, 11));
  }

  /** Decoding the example's code gives the index back. */
  lemma DecodeExample(x: int, y: int)
    requires x == 912000 && y == -325774
    ensures ValidCode(Encoding(x, y, 11, true))
    ensures Decoded(Encoding(x, y, 11, true)) == (x, y)
  {
    ExampleSwap(x, y);
    DecodeEncode(x, y, 11, true);
  }

  /** ... so decoding "XM48854457273" gives (912000, -325774). */
  lemma DecodeExampleCode(x: int, y: int, code: string)
    requires x == 912000 && y == -325774 && code == "XM48854457273"
    ensures ValidCode(code) && Decoded(code) == (x, y)
  {
    EncodeExample(x, y);
    DecodeExample(x, y);
  }
}
