/** Positional numerals: the digit strings that the base-2 and base-16 encoders build
    and that Python's `str` gives for a positive integer, and reading such a string back. */
module Numerals {

  /** The digit alphabet of the hexadecimal encoder, whose first ten are the decimal
      digits and whose first two are the binary ones. */
  const DigitChars: string := "0123456789ABCDEF"

  predicate ValidBase(base: nat) { 2 <= base <= 16 }

  /** The value a digit character stands for; -1 for a character that is not a digit. */
  function DigitValue(c: char): int
  {
    if '0' <= c <= '9' then c as int - '0' as int
    else if 'A' <= c <= 'F' then c as int - 'A' as int + 10
    else -1
  }

  /** `c` is one of the first `base` characters of `DigitChars`. */
  predicate IsDigit(c: char, base: nat)
  {
    0 <= DigitValue(c) < base
  }

  lemma DigitValueOfDigitChar(d: nat)
    requires d < 16
    ensures DigitValue(DigitChars[d]) == d
  {
    if d < 10 {
      assert DigitChars[d] == ('0' as int + d) as char by {
        assert DigitChars[..10] == "0123456789";
      }
    } else {
      assert DigitChars[d] == ('A' as int + (d - 10)) as char by {
        assert DigitChars[10..] == "ABCDEF";
      }
    }
  }

  lemma DigitCharOfValue(c: char)
    requires IsDigit(c, 16)
    ensures DigitChars[DigitValue(c)] == c
  {
    DigitValueOfDigitChar(DigitValue(c));
  }

  lemma DivMod(n: nat, base: nat)
    requires ValidBase(base)
    ensures n == (n / base) * base + n % base && 0 <= n % base < base
    ensures n > 0 ==> n / base < n
  {
  }

  lemma MulAtLeast(a: int, b: nat)
    requires a >= 1
    ensures a * b >= b
  {
  }

  lemma UniqueDivMod(v: nat, base: nat, q: int, r: int)
    requires ValidBase(base) && 0 <= r < base && v == q * base + r
    ensures v / base == q && v % base == r
  {
    DivMod(v, base);
    var q', r' := v / base, v % base;
    assert (q - q') * base == r' - r;
    if q - q' >= 1 {
      MulAtLeast(q - q', base);
    } else if q' - q >= 1 {
      MulAtLeast(q' - q, base);
    }
  }

  /** The digits of `n` in `base`, most significant first, with no leading zero;
      empty for 0. */
  function Digits(n: nat, base: nat): (s: string)
    requires ValidBase(base)
    decreases n
  {
    if n == 0 then "" else Digits(n / base, base) + [DigitChars[n % base]]
  }

  /** The digits of `m` followed by `acc`, in the form the encoder loops compute them:
      the last digit is prepended to the accumulator and `m` is divided by the base. */
  function DigitsAcc(m: nat, acc: string, base: nat): string
    requires ValidBase(base)
    decreases m
  {
    if m == 0 then acc else DigitsAcc(m / base, [DigitChars[m % base]] + acc, base)
  }

  lemma Regroup(x: string, a: string, c: char, s: string)
    requires x == a + [c]
    ensures x + s == a + ([c] + s)
  {
  }

  lemma {:induction false} DigitsAccIsDigits(m: nat, acc: string, base: nat)
    requires ValidBase(base)
    ensures DigitsAcc(m, acc, base) == Digits(m, base) + acc
    decreases m
  {
    if m > 0 {
      assert m / base < m by { DivMod(m, base); }
      DigitsAccIsDigits(m / base, [DigitChars[m % base]] + acc, base);
      assert Digits(m, base) == Digits(m / base, base) + [DigitChars[m % base]];
      Regroup(Digits(m, base), Digits(m / base, base), DigitChars[m % base], acc);
    }
  }

  /** The number a digit string denotes in `base`, read most significant digit first. */
  function ValueOf(s: string, base: nat): int
    requires ValidBase(base)
  {
    if s == [] then 0 else ValueOf(s[..|s| - 1], base) * base + DigitValue(s[|s| - 1])
  }

  /** A numeral as the encoders produce it: non-empty, only digits of `base`, and no
      leading zero. */
  predicate Canonical(s: string, base: nat)
  {
    |s| > 0 && s[0] != '0' && forall i | 0 <= i < |s| :: IsDigit(s[i], base)
  }

  lemma {:induction false} DigitsCanonical(n: nat, base: nat)
    requires ValidBase(base) && n > 0
    ensures Canonical(Digits(n, base), base)
  {
    var q, r := n / base, n % base;
    assert 0 <= r < base && 0 <= q < n && (q == 0 ==> r == n) by { DivMod(n, base); }
    var p, c := Digits(q, base), DigitChars[r];
    assert Digits(n, base) == p + [c];
    DigitValueOfDigitChar(r);
    if q == 0 {
      assert Digits(n, base) == [c];
    } else {
      DigitsCanonical(q, base);
      var s := p + [c];
      forall i | 0 <= i < |s| ensures IsDigit(s[i], base) {
        if i < |p| { assert s[i] == p[i]; }
      }
    }
  }

  /** Appending digit `c` to a numeral worth `q` gives one worth `q * base + c`. */
  lemma ValueOfSnoc(p: string, c: char, s: string, base: nat, q: int, v: int)
    requires ValidBase(base) && s == p + [c]
    requires ValueOf(p, base) == q && v == q * base + DigitValue(c)
    ensures ValueOf(s, base) == v
  {
    assert s[..|s| - 1] == p;
  }

  /** Reading the digits of `n` back gives `n`. */
  lemma {:induction false} ValueOfDigits(n: nat, base: nat)
    requires ValidBase(base)
    ensures ValueOf(Digits(n, base), base) == n
  {
    if n > 0 {
      var q, r := n / base, n % base;
      assert n == q * base + r && 0 <= r < base && 0 <= q < n by { DivMod(n, base); }
      var p, c := Digits(q, base), DigitChars[r];
      assert Digits(n, base) == p + [c];
      ValueOfDigits(q, base);
      DigitValueOfDigitChar(r);
      ValueOfSnoc(p, c, p + [c], base, q, n);
    }
  }

  /** A canonical numeral without its last digit is canonical, or empty. */
  lemma CanonicalPrefix(s: string, base: nat)
    requires Canonical(s, base) && |s| > 1
    ensures Canonical(s[..|s| - 1], base)
  {
    var p := s[..|s| - 1];
    assert p[0] == s[0];
    forall i | 0 <= i < |p| ensures IsDigit(p[i], base) { assert p[i] == s[i]; }
  }

  lemma {:induction false} CanonicalPositive(s: string, base: nat)
    requires ValidBase(base) && Canonical(s, base)
    ensures ValueOf(s, base) > 0
  {
    var p, c := s[..|s| - 1], s[|s| - 1];
    assert IsDigit(c, base);
    if |s| > 1 {
      CanonicalPrefix(s, base);
      CanonicalPositive(p, base);
      MulAtLeast(ValueOf(p, base), base);
    } else {
      assert c == s[0] && p == [];
    }
  }

  /** The converse round trip: a canonical numeral is the digit string of its value,
      so the encoders' output is the only canonical numeral for a number. */
  lemma {:induction false} DigitsOfValue(s: string, base: nat)
    requires ValidBase(base) && Canonical(s, base)
    ensures ValueOf(s, base) >= 0 && Digits(ValueOf(s, base), base) == s
  {
    CanonicalPositive(s, base);
    var p, c := s[..|s| - 1], s[|s| - 1];
    assert IsDigit(c, base);
    if |s| > 1 {
      CanonicalPrefix(s, base);
      DigitsOfValue(p, base);
    }
    var v, q, r := ValueOf(s, base), ValueOf(p, base), DigitValue(c);
    assert q >= 0 && v == q * base + r;
    UniqueDivMod(v, base, q, r);
    DigitCharOfValue(c);
    assert Digits(v, base) == Digits(q, base) + [c];
    assert s == p + [c];
  }
}
