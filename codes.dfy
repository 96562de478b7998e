/**
 * The shape of a GeoHex code: two letters of `h_key` standing for a number
 * below 1000, then one base-9 digit '0'..'8' per further trit pair.
 */
module Codes {
  import opened Builtins
  import opened Radix
  import opened Ternary

  /** `h_key`: the letters a code starts with. */
  const HKey: string := "ABCDEFGHIJKLMNOPQRSTUVWXYZ" + "abcdefghijklmnopqrstuvwxyz"

  /** The letter of value `i`. */
  function LetterAt(i: int): char
    requires 0 <= i < 52
  {
    if i < 26 then ('A' as int + i) as char else ('a' as int + i - 26) as char
  }

  lemma HKeyLetters()
    ensures |HKey| == 52
    ensures forall i :: 0 <= i < 52 ==> HKey[i] == LetterAt(i)
  {
    assert forall i :: 0 <= i < 26 ==> "ABCDEFGHIJKLMNOPQRSTUVWXYZ"[i] == LetterAt(i);
    assert forall i :: 0 <= i < 26 ==> "abcdefghijklmnopqrstuvwxyz"[i] == LetterAt(26 + i);
  }

  lemma HKeyAt(i: int)
    requires 0 <= i < 52
    ensures HKey[i] == LetterAt(i)
  {
    HKeyLetters();
  }

  /** The position of `c` among the letters of `h_key`, or -1. */
  function LetterIndex(c: char): (r: int)
    ensures -1 <= r < 52
    ensures 0 <= r ==> LetterAt(r) == c
  {
    if 'A' <= c <= 'Z' then c as int - 'A' as int
    else if 'a' <= c <= 'z' then c as int - 'a' as int + 26
    else -1
  }

  lemma LetterIndexAt(i: int)
    requires 0 <= i < 52
    ensures LetterIndex(LetterAt(i)) == i
  {
  }

  /** `h_key.find(c)` is the letter's position: the 52 letters are distinct, and nothing else is in `h_key`. */
  lemma FindLetter(c: char)
    ensures Find(HKey, c) == LetterIndex(c)
  {
    var r := LetterIndex(c);
    if r >= 0 {
      HKeyDistinct();
      HKeyAt(r);
      FindIndex(HKey, r);
    } else {
      HKeyOnlyLetters(c);
    }
  }

  lemma HKeyDistinct()
    ensures |HKey| == 52
    ensures forall j, k :: 0 <= j < k < |HKey| ==> HKey[j] != HKey[k]
  {
    HKeyLetters();
    forall j, k | 0 <= j < k < 52 ensures HKey[j] != HKey[k] {
      LetterIndexAt(j);
      LetterIndexAt(k);
    }
  }

  lemma HKeyOnlyLetters(c: char)
    requires LetterIndex(c) < 0
    ensures c !in HKey
  {
    HKeyLetters();
    forall i | 0 <= i < 52 ensures HKey[i] != c {
      LetterIndexAt(i);
    }
  }

  /** A hexagon: its grid index and its code (the source's latitude and longitude are not modelled). */
  datatype Zone = Zone(x: int, y: int, code: string)
  {
    /** `Zone.get_level`: a valid code of level l carries l + 3 trits per component. */
    function Level(): (l: int)
      ensures ValidCode(code) ==> l >= 0 && |NonaryDigits(code)| == l + 3
    {
      |code| - 2
    }
  }

  /** `int(c)` for a decimal digit character: the digit's value. */
  lemma DecimalDigit(k: int)
    requires 0 <= k < 10
    ensures DigitValue(DigitChar(k)) == k
    ensures Parse([DigitChar(k)], 10) == k
  {
    assert [DigitChar(k)][..0] == [];
  }

  /** `int(s)` for a string of three decimal digit characters. */
  lemma ParseThree(s: string)
    requires |s| == 3 && forall i :: 0 <= i < 3 ==> '0' <= s[i] <= '9'
    ensures Parse(s, 10) == 100 * (s[0] as int - '0' as int) + 10 * (s[1] as int - '0' as int) + (s[2] as int - '0' as int)
  {
    var a, b, c := s[0] as int - '0' as int, s[1] as int - '0' as int, s[2] as int - '0' as int;
    assert s[0] == DigitChar(a) && s[1] == DigitChar(b) && s[2] == DigitChar(c);
    DecimalDigit(a);
    DecimalDigit(b);
    DecimalDigit(c);
    assert s[..2][..1] == [s[0]];
    assert s[..2] == [s[0], s[1]];
    assert s[..2][1] == s[1];
  }

  /** The base-9 digit character of the trit pair (tx, ty): `str(int(str(tx) + str(ty), 3))` (see `NonaryCharBase3`). */
  function NonaryChar(tx: int, ty: int): char
    requires 0 <= tx <= 2 && 0 <= ty <= 2
  {
    DigitChar(3 * tx + ty)
  }

  /** `str(k)` of a single decimal digit is its digit character. */
  lemma ShowDigit(k: int)
    requires 0 <= k < 10
    ensures Show(k, 10) == [DigitChar(k)]
  {
    if k > 0 {
      DigitsStep(k, 10);
      assert Digits(k / 10, 10) == [];
    }
  }

  /** `int(str(tx) + str(ty), 3)` is 3 * tx + ty, and `str` of that one-digit number is `NonaryChar(tx, ty)`. */
  lemma NonaryCharBase3(tx: int, ty: int)
    requires 0 <= tx <= 2 && 0 <= ty <= 2
    ensures Parse(Show(tx, 10) + Show(ty, 10), 3) == 3 * tx + ty
    ensures Show(3 * tx + ty, 10) == [NonaryChar(tx, ty)]
  {
    ShowDigit(tx);
    ShowDigit(ty);
    ShowDigit(3 * tx + ty);
    var first: string := [DigitChar(tx)];
    assert [] + first == first;
    ParseStep([], 0, tx, 3);
    ParseStep(first, tx, ty, 3);
    assert first + [DigitChar(ty)] == Show(tx, 10) + Show(ty, 10);
  }

  /** The trit pairs of two equally long trit sequences as base-9 digit characters. */
  function Pack(tx: seq<int>, ty: seq<int>): string
    requires |tx| == |ty| && IsTrits(tx) && IsTrits(ty)
  {
    seq(|tx|, i requires 0 <= i < |tx| => NonaryChar(tx[i], ty[i]))
  }

  /** A packed numeral has one character per pair, each a digit '0'..'8'. */
  lemma PackNumeral(tx: seq<int>, ty: seq<int>)
    requires |tx| == |ty| && IsTrits(tx) && IsTrits(ty)
    ensures |Pack(tx, ty)| == |tx|
    ensures forall i :: 0 <= i < |tx| ==> '0' <= Pack(tx, ty)[i] <= '8'
  {
  }

  /** `h_key[h1 / 30] + h_key[h1 % 30] + h_2`: the first three digits become two letters. */
  function Lettered(numeral: string): string
    requires |numeral| >= 3 && forall i :: 0 <= i < 3 ==> '0' <= numeral[i] <= '8'
  {
    ParseThree(numeral[..3]);
    var h1 := Parse(numeral[..3], 10);
    [LetterAt(h1 / 30), LetterAt(h1 % 30)] + numeral[3..]
  }

  /** `h_key.find(code[0]) * 30 + h_key.find(code[1])` (see `FindLetter`). */
  function LetterValue(code: string): int
    requires |code| >= 2
  {
    LetterIndex(code[0]) * 30 + LetterIndex(code[1])
  }

  /**
   * A code the decoder reads as intended: two `h_key` letters standing for a
   * number below 1000 with no decimal digit 9, then base-9 digits.
   */
  predicate ValidCode(code: string)
  {
    && |code| >= 2
    && LetterIndex(code[0]) >= 0 && LetterIndex(code[1]) >= 0
    && (forall i :: 2 <= i < |code| ==> '0' <= code[i] <= '8')
    && (var h := LetterValue(code);
        h < 1000 && h / 100 <= 8 && h / 10 % 10 <= 8 && h % 10 <= 8)
  }

  /** The base-9 digits a valid code stands for: three from its letters, one per later character. */
  function NonaryDigits(code: string): (ns: seq<int>)
    requires ValidCode(code)
    ensures |ns| == |code| + 1
    ensures forall i :: 0 <= i < |ns| ==> 0 <= ns[i] <= 8
  {
    var h := LetterValue(code);
    [h / 100, h / 10 % 10, h % 10] + CodeDigits(code[2..])
  }

  /** The values of the decimal digit characters after a code's letters. */
  function CodeDigits(rest: string): (ds: seq<int>)
    ensures |ds| == |rest|
  {
    seq(|rest|, i requires 0 <= i < |rest| => rest[i] as int - '0' as int)
  }

  /** The x trits of base-9 digits (the high trit of each). */
  function HighTrits(ns: seq<int>): (ts: seq<int>)
    requires forall i :: 0 <= i < |ns| ==> 0 <= ns[i] <= 8
    ensures |ts| == |ns| && IsTrits(ts)
  {
    seq(|ns|, i requires 0 <= i < |ns| => ns[i] / 3)
  }

  /** The y trits of base-9 digits (the low trit of each). */
  function LowTrits(ns: seq<int>): (ts: seq<int>)
    requires forall i :: 0 <= i < |ns| ==> 0 <= ns[i] <= 8
    ensures |ts| == |ns| && IsTrits(ts)
  {
    seq(|ns|, i requires 0 <= i < |ns| => ns[i] % 3)
  }
}
