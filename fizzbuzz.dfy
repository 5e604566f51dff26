/** The FizzBuzz sequence: for each `i` in `1..n`, "FizzBuzz" when 15 divides `i`, else
    "Fizz" when 3 does, else "Buzz" when 5 does, else the decimal digits of `i`; the
    program prints the entries joined by single spaces. */
module FizzBuzz {
  import opened Numerals
  import opened Text

  /** `str(i)` for a positive `i`. */
  function Decimal(i: nat): string
    requires i > 0
  {
    Digits(i, 10)
  }

  /** The decimal string of `i` is a canonical numeral worth `i`. */
  lemma DecimalValue(i: nat)
    requires i > 0
    ensures Canonical(Decimal(i), 10) && ValueOf(Decimal(i), 10) == i
  {
    DigitsCanonical(i, 10);
    ValueOfDigits(i, 10);
  }

  /** The comprehension's conditional expression for one `i`. */
  function Entry(i: nat): (word: string)
    requires i > 0
    ensures word != []
    ensures i % 3 == 0 || i % 5 == 0 <==> word in {"FizzBuzz", "Fizz", "Buzz"}
  {
    if i % 15 == 0 then
      MultipleOfFifteen(i);
      "FizzBuzz"
    else if i % 3 == 0 then "Fizz"
    else if i % 5 == 0 then "Buzz"
    else
      DecimalNotWord(i);
      Decimal(i)
  }

  /** A decimal numeral starts with a digit, so it is none of the three words. */
  lemma DecimalNotWord(i: nat)
    requires i > 0
    ensures Decimal(i) != [] && Decimal(i) !in {"FizzBuzz", "Fizz", "Buzz"}
  {
    DigitsCanonical(i, 10);
    var c := Decimal(i)[0];
    assert IsDigit(c, 10);
    assert c != 'F' && c != 'B';
  }

  /** The list built for input `n`: one entry per `i` in `range(1, n + 1)`, in order. */
  function FizzBuzzList(n: int): (entries: seq<string>)
    ensures |entries| == if n < 0 then 0 else n
  {
    if n <= 0 then [] else FizzBuzzList(n - 1) + [Entry(n)]
  }

  /** The printed line; it splits back into the list, so the space join loses nothing. */
  function Output(n: int): (line: string)
    ensures n <= 0 ==> line == ""
    ensures Words(line) == FizzBuzzList(n)
  {
    EntriesAreWords(n);
    WordsOfJoin(FizzBuzzList(n));
    Join(FizzBuzzList(n), " ")
  }

  /** The entry for `i` named by its divisors. */
  lemma EntryCases(i: nat)
    requires i > 0
    ensures i % 15 == 0 ==> Entry(i) == "FizzBuzz"
    ensures i % 3 == 0 && i % 15 != 0 ==> Entry(i) == "Fizz"
    ensures i % 5 == 0 && i % 3 != 0 ==> Entry(i) == "Buzz"
    ensures i % 3 != 0 && i % 5 != 0 ==> ValueOf(Entry(i), 10) == i
  {
    if i % 15 == 0 {
      MultipleOfFifteen(i);
    } else if i % 3 != 0 && i % 5 != 0 {
      DecimalValue(i);
    }
  }

  /** An independent reading of the rule: "Fizz" for a multiple of 3 followed by "Buzz"
      for a multiple of 5, and the number itself when neither word applies. */
  lemma EntryIsFizzThenBuzz(i: nat)
    requires i > 0
    ensures var words := (if i % 3 == 0 then "Fizz" else "") + (if i % 5 == 0 then "Buzz" else "");
            Entry(i) == if words == "" then Decimal(i) else words
  {
    if i % 15 == 0 {
      assert i % 3 == 0 && i % 5 == 0 by { MultipleOfFifteen(i); }
    } else if i % 3 == 0 && i % 5 == 0 {
      MultipleOfBoth(i);
    }
  }

  lemma MultipleOfFifteen(i: nat)
    requires i % 15 == 0
    ensures i % 3 == 0 && i % 5 == 0
  {
    var q := i / 15;
    assert i == 15 * q;
    assert i == 3 * (5 * q) && i == 5 * (3 * q);
  }

  lemma MultipleOfBoth(i: nat)
    requires i % 3 == 0 && i % 5 == 0
    ensures i % 15 == 0
  {
    var a := i / 3;
    assert i == 3 * a;
    assert a % 5 == 0 by {
      var r := a % 5;
      assert a == 5 * (a / 5) + r;
      assert i == 15 * (a / 5) + 3 * r;
      assert (3 * r) % 5 == 0;
      assert 0 <= r < 5;
    }
    assert i == 15 * (a / 5);
  }

  /** Every entry is a single word: no entry is empty and none holds a space, so the
      printed line splits back into the list. */
  lemma EntryIsWord(i: nat)
    requires i > 0
    ensures IsWord(Entry(i))
  {
    if i % 3 != 0 && i % 5 != 0 {
      var s := Decimal(i);
      DecimalValue(i);
      forall k | 0 <= k < |s| ensures !IsSpace(s[k]) {
        assert IsDigit(s[k], 10);
      }
    }
  }

  /** Every entry of the list is a word. */
  lemma {:induction false} EntriesAreWords(n: int)
    ensures forall k :: 0 <= k < |FizzBuzzList(n)| ==> IsWord(FizzBuzzList(n)[k])
  {
    if n > 0 {
      EntriesAreWords(n - 1);
      EntryIsWord(n);
      var entries := FizzBuzzList(n);
      assert entries == FizzBuzzList(n - 1) + [Entry(n)];
      forall k | 0 <= k < |entries| ensures IsWord(entries[k]) {
        if k < n - 1 {
          assert entries[k] == FizzBuzzList(n - 1)[k];
        }
      }
    }
  }

  /** Position `k` of the list holds the entry for `k + 1`. */
  lemma {:induction false} FizzBuzzListAt(n: int, k: nat)
    requires k < n
    ensures FizzBuzzList(n)[k] == Entry(k + 1)
  {
    if k < n - 1 {
      FizzBuzzListAt(n - 1, k);
    }
  }

  lemma KnownEntries()
    ensures Entry(1) == "1" && Entry(2) == "2" && Entry(3) == "Fizz"
    ensures Entry(4) == "4" && Entry(5) == "Buzz"
  {
    assert Digits(1, 10) == Digits(0, 10) + [DigitChars[1]];
    assert Digits(2, 10) == Digits(0, 10) + [DigitChars[2]];
    assert Digits(4, 10) == Digits(0, 10) + [DigitChars[4]];
  }

  lemma KnownLists()
    ensures FizzBuzzList(0) == [] && FizzBuzzList(-3) == []
    ensures FizzBuzzList(1) == ["1"] && FizzBuzzList(2) == ["1", "2"]
    ensures FizzBuzzList(3) == ["1", "2", "Fizz"]
    ensures FizzBuzzList(5) == ["1", "2", "Fizz", "4", "Buzz"]
  {
    KnownEntries();
    assert FizzBuzzList(1) == [] + [Entry(1)];
    assert FizzBuzzList(2) == FizzBuzzList(1) + [Entry(2)];
    assert FizzBuzzList(3) == FizzBuzzList(2) + [Entry(3)];
    assert FizzBuzzList(4) == FizzBuzzList(3) + [Entry(4)];
    assert FizzBuzzList(5) == FizzBuzzList(4) + [Entry(5)];
  }

  lemma KnownShortOutputs()
    ensures Output(0) == "" && Output(-3) == ""
    ensures Output(1) == "1" && Output(2) == "1 2" && Output(3) == "1 2 Fizz"
  {
    KnownLists();
    JoinThree();
  }

  lemma JoinThree()
    ensures Join(["1", "2"], " ") == "1 2" && Join(["1", "2", "Fizz"], " ") == "1 2 Fizz"
  {
    JoinCons("1", ["2", "Fizz"], " ");
    JoinCons("2", ["Fizz"], " ");
    JoinCons("1", ["2"], " ");
  }

  lemma JoinLastThree()
    ensures Join(["Fizz", "4", "Buzz"], " ") == "Fizz 4 Buzz"
  {
    JoinCons("4", ["Buzz"], " ");
    assert Join(["4", "Buzz"], " ") == "4 Buzz";
    JoinCons("Fizz", ["4", "Buzz"], " ");
  }

  lemma JoinFive()
    ensures Join(["1", "2", "Fizz", "4", "Buzz"], " ") == "1 2 Fizz 4 Buzz"
  {
    JoinLastThree();
    JoinCons("2", ["Fizz", "4", "Buzz"], " ");
    assert Join(["2", "Fizz", "4", "Buzz"], " ") == "2 Fizz 4 Buzz";
    JoinCons("1", ["2", "Fizz", "4", "Buzz"], " ");
  }

  lemma KnownOutputFive()
    ensures Output(5) == "1 2 Fizz 4 Buzz"
  {
    KnownLists();
    JoinFive();
  }
}
