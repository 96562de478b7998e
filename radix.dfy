/** `int2str` (geohex.py): an integer written in a base between 2 and 36. */
module Radix {
  import opened Builtins

  /** The source's only exception here is `ValueError`, raised for a bad base. */
  datatype Result<T> = Success(value: T) | Failure(error: string)

  /** `int2str_table`: the digit characters of bases up to 36. */
  const Table: string := "0123456789" + "abcdefghijklmnopqrstuvwxyz"

  /** The character of digit value `k`. */
  function DigitChar(k: int): char
    requires 0 <= k < 36
  {
    if k < 10 then ('0' as int + k) as char else ('a' as int + k - 10) as char
  }

  lemma TableChars()
    ensures |Table| == 36
    ensures forall k :: 0 <= k < 36 ==> Table[k] == DigitChar(k)
  {
    assert forall k :: 0 <= k < 10 ==> "0123456789"[k] == DigitChar(k);
    assert forall k :: 0 <= k < 26 ==> "abcdefghijklmnopqrstuvwxyz"[k] == DigitChar(10 + k);
  }

  lemma TableAt(k: int)
    requires 0 <= k < 36
    ensures Table[k] == DigitChar(k)
  {
    TableChars();
  }

  /** The value `int(c, b)` gives a single digit character; -1 for a character that is no digit. */
  function DigitValue(c: char): int
  {
    if '0' <= c <= '9' then c as int - '0' as int
    else if 'a' <= c <= 'z' then c as int - 'a' as int + 10
    else if 'A' <= c <= 'Z' then c as int - 'A' as int + 10
    else -1
  }

  lemma DigitValueChar(k: int)
    requires 0 <= k < 36
    ensures DigitValue(DigitChar(k)) == k
  {
  }

  predicate ValidBase(b: int)
  {
    2 <= b <= 36
  }

  lemma DivMod(n: nat, b: int)
    requires ValidBase(b)
    ensures n / b * b + n % b == n
    ensures 0 <= n % b < b
    ensures 0 <= n / b && (n > 0 ==> n / b < n)
    ensures n < b <==> n / b == 0
  {
  }

  /** The base-`b` digits of `n`, most significant first; none for zero. */
  function Digits(n: nat, b: int): string
    requires ValidBase(b)
    decreases n
  {
    if n == 0 then [] else Digits(n / b, b) + [DigitChar(n % b)]
  }

  /** The digits `int2str` writes for a magnitude `n`: a lone "0" for zero. */
  function Show(n: nat, b: int): string
    requires ValidBase(b)
  {
    if n == 0 then "0" else Digits(n, b)
  }

  /** The value of a digit string read in base `b`, as `int(s, b)` reads it. */
  function Parse(s: string, b: int): int
  {
    if s == [] then 0 else Parse(s[..|s| - 1], b) * b + DigitValue(s[|s| - 1])
  }

  /** Appending the digit m to a numeral of value q gives q * b + m. */
  lemma ParseStep(ds: string, q: int, m: int, b: int)
    requires 0 <= m < 36 && Parse(ds, b) == q
    ensures Parse(ds + [DigitChar(m)], b) == q * b + m
  {
    assert (ds + [DigitChar(m)])[..|ds|] == ds;
  }

  lemma DigitsStep(n: nat, b: int)
    requires ValidBase(b) && n > 0
    ensures 0 <= n / b < n && 0 <= n % b < b
    ensures Digits(n, b) == Digits(n / b, b) + [DigitChar(n % b)]
  {
    DivMod(n, b);
  }

  lemma {:induction false} ParseDigits(n: nat, b: int)
    requires ValidBase(b)
    ensures Parse(Digits(n, b), b) == n
    decreases n
  {
    if n > 0 {
      var q, m := n / b, n % b;
      DivMod(n, b);
      DigitsStep(n, b);
      ParseDigits(q, b);
      ParseStep(Digits(q, b), q, m, b);
    }
  }

  lemma {:induction false} DigitsInBase(n: nat, b: int)
    requires ValidBase(b)
    ensures forall i :: 0 <= i < |Digits(n, b)| ==> 0 <= DigitValue(Digits(n, b)[i]) < b
    decreases n
  {
    if n > 0 {
      var ds, m := Digits(n / b, b), n % b;
      DigitsStep(n, b);
      DigitsInBase(n / b, b);
      DigitValueChar(m);
      assert Digits(n, b) == ds + [DigitChar(m)];
      assert forall i :: 0 <= i < |ds| ==> Digits(n, b)[i] == ds[i];
    }
  }

  lemma {:induction false} DigitsLeading(n: nat, b: int)
    requires ValidBase(b)
    ensures n > 0 ==> |Digits(n, b)| > 0 && Digits(n, b)[0] != '0'
    decreases n
  {
    if n > 0 {
      var ds, m := Digits(n / b, b), n % b;
      DigitsStep(n, b);
      if n / b == 0 {
        assert m == n by { DivMod(n, b); }
        assert Digits(n, b) == [DigitChar(m)];
      } else {
        DigitsLeading(n / b, b);
        assert Digits(n, b)[0] == ds[0];
      }
    }
  }

  /**
   * What `int2str` produces for a magnitude: the value read back is `n`,
   * every character is a digit of base `b`, and there is no leading zero
   * except in "0" itself.
   */
  lemma ShowCanonical(n: nat, b: int)
    requires ValidBase(b)
    ensures Parse(Show(n, b), b) == n
    ensures |Show(n, b)| >= 1
    ensures forall i :: 0 <= i < |Show(n, b)| ==> 0 <= DigitValue(Show(n, b)[i]) < b
    ensures Show(n, b)[0] == '0' <==> n == 0
  {
    DigitsInBase(n, b);
    DigitsLeading(n, b);
    if n == 0 {
      assert Show(n, b) == [DigitChar(0)];
    } else {
      ParseDigits(n, b);
    }
  }

  /** One round of the `int2str` loop moves the last digit of `n` onto the reversed output. */
  lemma DigitsLoopStep(n: nat, b: int, acc: string)
    requires ValidBase(b) && n > 0
    ensures 0 <= n / b < n && 0 <= n % b < b
    ensures Digits(n, b) + Reversed(acc) == Digits(n / b, b) + Reversed(acc + [DigitChar(n % b)])
  {
    DigitsStep(n, b);
    ReversedSnoc(acc, DigitChar(n % b));
    assert Digits(n / b, b) + [DigitChar(n % b)] + Reversed(acc)
        == Digits(n / b, b) + ([DigitChar(n % b)] + Reversed(acc));
  }

  /** `int2str(digit, base)`: raise for a bad base, else the sign and the digits of `abs(digit)`. */
  method Int2Str(digit: int, base: int) returns (r: Result<string>)
    ensures r.Failure? <==> !ValidBase(base)
    ensures r.Success? ==> r.value == (if digit < 0 then "-" else "") + Show(Abs(digit), base)
  {
    if !(2 <= base <= 36) {
      return Failure("base must be 2 <= base < 36");
    }
    var result: seq<char> := [];
    var temp := Abs(digit);
    if temp == 0 {
      result := result + ['0'];
    } else {
      while temp > 0
        invariant temp >= 0
        invariant Digits(Abs(digit), base) == Digits(temp, base) + Reversed(result)
        decreases temp
      {
        DigitsLoopStep(temp, base, result);
        TableAt(temp % base);
        result := result + [Table[temp % base]];
        temp := temp / base;
      }
    }
    if digit < 0 {
      ReversedSnoc(result, '-');
      result := result + ['-'];
    }
    return Success(Reversed(result));
  }

  /**
   * `int2str(d, 3)` for a base-9 digit `d`: one or two characters whose
   * base-3 value is `d`; padded on the left to two, they are the two trits of `d`.
   */
  lemma Base3OfNonary(d: int)
    requires 0 <= d <= 8
    ensures 1 <= |Show(d, 3)| <= 2
    ensures Parse(Show(d, 3), 3) == d
    ensures (if |Show(d, 3)| == 1 then "0" + Show(d, 3) else Show(d, 3)) == [DigitChar(d / 3), DigitChar(d % 3)]
  {
    ShowCanonical(d, 3);
    var q, m := d / 3, d % 3;
    if d >= 3 {
      assert q / 3 == 0 && q % 3 == q;
      assert Digits(q, 3) == Digits(0, 3) + [DigitChar(q)];
      assert Show(d, 3) == [DigitChar(q)] + [DigitChar(m)];
    } else if d > 0 {
      assert q == 0 && m == d;
      assert Show(d, 3) == Digits(0, 3) + [DigitChar(d)];
    }
  }

  /** `str(h)` for `h < 1000`, padded on the left with zeros to three characters. */
  lemma DecimalBelow1000(h: nat)
    requires h < 1000
    ensures |Show(h, 10)| <= 3
    ensures seq(3 - |Show(h, 10)|, _ => '0') + Show(h, 10)
            == [DigitChar(h / 100), DigitChar(h / 10 % 10), DigitChar(h % 10)]
  {
    var h1, h2 := h / 10, h / 100;
    assert h1 / 10 == h2 && h2 / 10 == 0;
    assert h2 % 10 == h2 && h1 % 10 == h / 10 % 10;
    if h >= 100 {
      assert Digits(h2, 10) == Digits(0, 10) + [DigitChar(h2)];
      assert Digits(h1, 10) == Digits(h2, 10) + [DigitChar(h1 % 10)];
      assert Show(h, 10) == [DigitChar(h2)] + [DigitChar(h1 % 10)] + [DigitChar(h % 10)];
    } else if h >= 10 {
      assert h2 == 0;
      assert Digits(h1, 10) == Digits(0, 10) + [DigitChar(h1 % 10)];
      assert Show(h, 10) == [DigitChar(h1 % 10)] + [DigitChar(h % 10)];
    } else if h > 0 {
      assert Show(h, 10) == Digits(0, 10) + [DigitChar(h)];
    }
  }
}
