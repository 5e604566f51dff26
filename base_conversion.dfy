/** The binary and hexadecimal encoders `to_binary` and `to_hexadecimal`: each peels the
    least significant digit off `n` with `% base` and `//= base` and prepends it to the
    result string. */
module BaseConversion {
  import opened Numerals

  /** What both encoders return for `n` in their base: "0" for zero, the digits for a
      positive number, and the empty string for a negative one, whose loop never runs. */
  function Numeral(n: int, base: nat): (s: string)
    requires ValidBase(base)
    ensures n < 0 <==> s == []
    ensures n == 0 ==> s == "0"
  {
    if n == 0 then "0" else if n < 0 then "" else Digits(n, base)
  }

  /** The properties promised of an encoder's output for `n`. */
  predicate Encodes(s: string, n: int, base: nat)
    requires ValidBase(base)
  {
    && (n == 0 ==> s == "0")
    && (n < 0 ==> s == "")
    && (n > 0 ==> Canonical(s, base) && ValueOf(s, base) == n)
  }

  lemma NumeralEncodes(n: int, base: nat)
    requires ValidBase(base)
    ensures Encodes(Numeral(n, base), n, base)
  {
    if n > 0 {
      DigitsCanonical(n, base);
      ValueOfDigits(n, base);
    }
  }

  /** An encoder's output is determined by the properties: no other string has them. */
  lemma EncodesUnique(s: string, n: int, base: nat)
    requires ValidBase(base) && Encodes(s, n, base)
    ensures s == Numeral(n, base)
  {
    if n > 0 {
      DigitsOfValue(s, base);
    }
  }

  method ToBinary(n: int) returns (s: string)
    ensures Encodes(s, n, 2)
    ensures forall i | 0 <= i < |s| :: s[i] == '0' || s[i] == '1'
    ensures s == Numeral(n, 2)
  {
    if n == 0 {
      NumeralEncodes(n, 2);
      return "0";
    }
    s := "";
    var m := n;
    while m > 0
      invariant n < 0 ==> m == n && s == ""
      invariant n > 0 ==> m >= 0 && DigitsAcc(n, "", 2) == DigitsAcc(m, s, 2)
    {
      var bit := if m % 2 == 0 then "0" else "1";  // str(n % 2)
      assert bit == [DigitChars[m % 2]];
      s := bit + s;
      m := m / 2;
    }
    if n > 0 {
      DigitsAccIsDigits(n, "", 2);
    }
    assert s == Numeral(n, 2);
    NumeralEncodes(n, 2);
    forall i | 0 <= i < |s| ensures s[i] == '0' || s[i] == '1' {
      assert IsDigit(s[i], 2);
    }
  }

  method ToHexadecimal(n: int) returns (s: string)
    ensures Encodes(s, n, 16)
    ensures forall i | 0 <= i < |s| :: s[i] in "0123456789ABCDEF"
    ensures s == Numeral(n, 16)
  {
    if n == 0 {
      NumeralEncodes(n, 16);
      return "0";
    }
    var hexChars := "0123456789ABCDEF";
    s := "";
    var m := n;
    while m > 0
      invariant n < 0 ==> m == n && s == ""
      invariant n > 0 ==> m >= 0 && DigitsAcc(n, "", 16) == DigitsAcc(m, s, 16)
    {
      var remainder := m % 16;
      s := [hexChars[remainder]] + s;
      m := m / 16;
    }
    if n > 0 {
      DigitsAccIsDigits(n, "", 16);
    }
    assert s == Numeral(n, 16);
    NumeralEncodes(n, 16);
    forall i | 0 <= i < |s| ensures s[i] in hexChars {
      assert IsDigit(s[i], 16);
      DigitCharOfValue(s[i]);
    }
  }

  // The expected outputs of the exercise's test cases: each string is read back digit by
  // digit and then, being canonical, is the encoder's output for that value.

  lemma KnownBinaryTen()
    ensures Numeral(0, 2) == "0" && Numeral(10, 2) == "1010"
  {
    ValueOfSnoc("", '1', "1", 2, 0, 1);
    ValueOfSnoc("1", '0', "10", 2, 1, 2);
    ValueOfSnoc("10", '1', "101", 2, 2, 5);
    ValueOfSnoc("101", '0', "1010", 2, 5, 10);
    EncodesUnique("1010", 10, 2);
  }

  lemma KnownBinaryTwentySix()
    ensures Numeral(26, 2) == "11010"
  {
    ValueOfSnoc("", '1', "1", 2, 0, 1);
    ValueOfSnoc("1", '1', "11", 2, 1, 3);
    ValueOfSnoc("11", '0', "110", 2, 3, 6);
    ValueOfSnoc("110", '1', "1101", 2, 6, 13);
    ValueOfSnoc("1101", '0', "11010", 2, 13, 26);
    EncodesUnique("11010", 26, 2);
  }

  lemma KnownBinaryByte()
    ensures Numeral(255, 2) == "11111111"
  {
    ValueOfSnoc("", '1', "1", 2, 0, 1);
    ValueOfSnoc("1", '1', "11", 2, 1, 3);
    ValueOfSnoc("11", '1', "111", 2, 3, 7);
    ValueOfSnoc("111", '1', "1111", 2, 7, 15);
    ValueOfSnoc("1111", '1', "11111", 2, 15, 31);
    ValueOfSnoc("11111", '1', "111111", 2, 31, 63);
    ValueOfSnoc("111111", '1', "1111111", 2, 63, 127);
    ValueOfSnoc("1111111", '1', "11111111", 2, 127, 255);
    EncodesUnique("11111111", 255, 2);
  }

  lemma KnownBinaryLong()
    ensures Numeral(482, 2) == "111100010"
  {
    ValueOfSnoc("", '1', "1", 2, 0, 1);
    ValueOfSnoc("1", '1', "11", 2, 1, 3);
    ValueOfSnoc("11", '1', "111", 2, 3, 7);
    ValueOfSnoc("111", '1', "1111", 2, 7, 15);
    ValueOfSnoc("1111", '0', "11110", 2, 15, 30);
    ValueOfSnoc("11110", '0', "111100", 2, 30, 60);
    ValueOfSnoc("111100", '0', "1111000", 2, 60, 120);
    ValueOfSnoc("1111000", '1', "11110001", 2, 120, 241);
    ValueOfSnoc("11110001", '0', "111100010", 2, 241, 482);
    EncodesUnique("111100010", 482, 2);
  }

  lemma KnownHexadecimal()
    ensures Numeral(0, 16) == "0" && Numeral(10, 16) == "A" && Numeral(26, 16) == "1A"
    ensures Numeral(255, 16) == "FF" && Numeral(482, 16) == "1E2"
  {
    ValueOfSnoc("", 'A', "A", 16, 0, 10);
    EncodesUnique("A", 10, 16);
    ValueOfSnoc("", '1', "1", 16, 0, 1);
    ValueOfSnoc("1", 'A', "1A", 16, 1, 26);
    EncodesUnique("1A", 26, 16);
    ValueOfSnoc("", 'F', "F", 16, 0, 15);
    ValueOfSnoc("F", 'F', "FF", 16, 15, 255);
    EncodesUnique("FF", 255, 16);
    ValueOfSnoc("1", 'E', "1E", 16, 1, 30);
    ValueOfSnoc("1E", '2', "1E2", 16, 30, 482);
    EncodesUnique("1E2", 482, 16);
  }

  /** The first ten binary digits of one million. */
  lemma MillionBinaryPrefix()
    ensures ValueOf("1111010000", 2) == 976
  {
    ValueOfSnoc("", '1', "1", 2, 0, 1);
    ValueOfSnoc("1", '1', "11", 2, 1, 3);
    ValueOfSnoc("11", '1', "111", 2, 3, 7);
    ValueOfSnoc("111", '1', "1111", 2, 7, 15);
    ValueOfSnoc("1111", '0', "11110", 2, 15, 30);
    ValueOfSnoc("11110", '1', "111101", 2, 30, 61);
    ValueOfSnoc("111101", '0', "1111010", 2, 61, 122);
    ValueOfSnoc("1111010", '0', "11110100", 2, 122, 244);
    ValueOfSnoc("11110100", '0', "111101000", 2, 244, 488);
    ValueOfSnoc("111101000", '0', "1111010000", 2, 488, 976);
  }

  lemma KnownBinaryMillion()
    ensures Numeral(1000000, 2) == "11110100001001000000"
  {
    MillionBinaryValue();
    EncodesUnique("11110100001001000000", 1000000, 2);
  }

  /** All twenty binary digits of one million. */
  lemma MillionBinaryValue()
    ensures ValueOf("11110100001001000000", 2) == 1000000
  {
    MillionBinaryPrefix();
    ValueOfSnoc("1111010000", '1', "11110100001", 2, 976, 1953);
    ValueOfSnoc("11110100001", '0', "111101000010", 2, 1953, 3906);
    ValueOfSnoc("111101000010", '0', "1111010000100", 2, 3906, 7812);
    ValueOfSnoc("1111010000100", '1', "11110100001001", 2, 7812, 15625);
    ValueOfSnoc("11110100001001", '0', "111101000010010", 2, 15625, 31250);
    ValueOfSnoc("111101000010010", '0', "1111010000100100", 2, 31250, 62500);
    ValueOfSnoc("1111010000100100", '0', "11110100001001000", 2, 62500, 125000);
    ValueOfSnoc("11110100001001000", '0', "111101000010010000", 2, 125000, 250000);
    ValueOfSnoc("111101000010010000", '0', "1111010000100100000", 2, 250000, 500000);
    ValueOfSnoc("1111010000100100000", '0', "11110100001001000000", 2, 500000, 1000000);
  }

  lemma KnownHexadecimalLong()
    ensures Numeral(1000000, 16) == "F4240"
  {
    ValueOfSnoc("", 'F', "F", 16, 0, 15);
    ValueOfSnoc("F", '4', "F4", 16, 15, 244);
    ValueOfSnoc("F4", '2', "F42", 16, 244, 3906);
    ValueOfSnoc("F42", '4', "F424", 16, 3906, 62500);
    ValueOfSnoc("F424", '0', "F4240", 16, 62500, 1000000);
    EncodesUnique("F4240", 1000000, 16);
  }
}
