/** The variadic calculator: the sum of the arguments, or their product when the keyword
    `operation` is "multiply", rounded when a `round_to` keyword holds an integer; and the
    reader that turns input lines into the positional and keyword arguments. */
module Calculator {
  import opened Wrappers
  import opened Numerals
  import opened Text
  import BaseConversion

  /** Python's `sum`: the arguments added left to right, 0 for none. */
  function Sum(s: seq<real>): real
  {
    if s == [] then 0.0 else Sum(s[..|s| - 1]) + s[|s| - 1]
  }

  /** The product of the arguments, multiplied left to right, 1 for none. */
  function Product(s: seq<real>): real
  {
    if s == [] then 1.0 else Product(s[..|s| - 1]) * s[|s| - 1]
  }

  lemma {:induction false} SumAppend(a: seq<real>, b: seq<real>)
    ensures Sum(a + b) == Sum(a) + Sum(b)
    decreases |b|
  {
    if b != [] {
      var b' := b[..|b| - 1];
      assert (a + b)[..|a + b| - 1] == a + b';
      SumAppend(a, b');
    } else {
      assert a + b == a;
    }
  }

  lemma {:induction false} ProductAppend(a: seq<real>, b: seq<real>)
    ensures Product(a + b) == Product(a) * Product(b)
    decreases |b|
  {
    if b != [] {
      var b' := b[..|b| - 1];
      assert (a + b)[..|a + b| - 1] == a + b';
      ProductAppend(a, b');
    } else {
      assert a + b == a;
    }
  }

  /** The product vanishes exactly when some argument is zero. */
  lemma {:induction false} ProductZero(s: seq<real>)
    ensures Product(s) == 0.0 <==> exists i :: 0 <= i < |s| && s[i] == 0.0
  {
    if s != [] {
      var p := s[..|s| - 1];
      ProductZero(p);
      assert forall i :: 0 <= i < |p| ==> p[i] == s[i];
      if Product(p) * s[|s| - 1] == 0.0 {
        assert Product(p) == 0.0 || s[|s| - 1] == 0.0;
      }
    }
  }

  /** Sum and product ignore the order of the arguments: swapping two neighbours changes
      neither. */
  lemma SumSwap(a: seq<real>, x: real, y: real, b: seq<real>)
    ensures Sum(a + [x, y] + b) == Sum(a + [y, x] + b)
  {
    SumAppend(a + [x, y], b);
    SumAppend(a + [y, x], b);
    SumAppend(a, [x, y]);
    SumAppend(a, [y, x]);
    assert [x, y][..1] == [x] && [y, x][..1] == [y];
  }

  lemma ProductSwap(a: seq<real>, x: real, y: real, b: seq<real>)
    ensures Product(a + [x, y] + b) == Product(a + [y, x] + b)
  {
    ProductAppend(a + [x, y], b);
    ProductAppend(a + [y, x], b);
    ProductAppend(a, [x, y]);
    ProductAppend(a, [y, x]);
    assert [x, y][..1] == [x] && [y, x][..1] == [y];
    PairProduct(x, y);
    PairProduct(y, x);
    assert x * y == y * x;
  }

  lemma PairProduct(x: real, y: real)
    ensures Product([x, y]) == x * y
  {
    assert [x, y][..1] == [x] && [x][..0] == [];
    assert Product([x]) == 1.0 * x;
    assert Product([x, y]) == Product([x]) * y;
  }

  /** Python's `int(text)` on a string: surrounding whitespace ignored, an optional sign,
      then one or more ASCII decimal digits (leading zeros allowed). `None` stands for the
      ValueError raised on anything else. */
  function ParseInt(text: string): (r: Option<int>)
    ensures r.Some? ==> Strip(text) != []
    ensures IsDecimal(Strip(text)) ==> r == Some(ValueOf(Strip(text), 10))
    ensures var t := Strip(text);
            t != [] && t[0] == '-' && IsDecimal(t[1..]) ==> r == Some(-ValueOf(t[1..], 10))
  {
    var t := Strip(text);
    if t != [] && (t[0] == '-' || t[0] == '+') then
      if IsDecimal(t[1..]) then Some(if t[0] == '-' then -ValueOf(t[1..], 10) else ValueOf(t[1..], 10))
      else None
    else if IsDecimal(t) then Some(ValueOf(t, 10))
    else None
  }

  predicate IsDecimal(d: string)
  {
    d != [] && forall i :: 0 <= i < |d| ==> IsDigit(d[i], 10)
  }

  /** `str(n)` for an integer. */
  function IntToString(n: int): (s: string)
    ensures n < 0 ==> s != [] && s[0] == '-' && IsDecimal(s[1..])
    ensures n >= 0 ==> IsDecimal(s)
  {
    if n < 0 then
      NumeralIsDecimal(-n);
      "-" + BaseConversion.Numeral(-n, 10)
    else
      NumeralIsDecimal(n);
      BaseConversion.Numeral(n, 10)
  }

  lemma NumeralIsDecimal(m: nat)
    ensures IsDecimal(BaseConversion.Numeral(m, 10))
    ensures ValueOf(BaseConversion.Numeral(m, 10), 10) == m
  {
    BaseConversion.NumeralEncodes(m, 10);
    if m == 0 {
      assert ValueOf("0", 10) == ValueOf("", 10) * 10 + DigitValue('0');
    }
  }

  /** `int(str(n)) == n`: every integer written out reads back as itself. */
  lemma ParseIntOfIntToString(n: int)
    ensures ParseInt(IntToString(n)) == Some(n)
  {
    var m := if n < 0 then -n else n;
    var d := BaseConversion.Numeral(m, 10);
    NumeralIsDecimal(m);
    var s := IntToString(n);
    assert d[0] != '-' && d[0] != '+' by { assert IsDigit(d[0], 10); }
    assert !IsSpace(d[|d| - 1]) by { assert IsDigit(d[|d| - 1], 10); }
    if n < 0 {
      assert s[1..] == d && s[|s| - 1] == d[|d| - 1];
    } else {
      assert !IsSpace(d[0]) by { assert IsDigit(d[0], 10); }
    }
    StripUnpadded(s);
  }

  lemma KnownParseIntAccepted()
    ensures ParseInt("2") == Some(2) && ParseInt("+07") == Some(7)
  {
    assert ValueOf("07", 10) == 7 by {
      ValueOfSnoc("", '0', "0", 10, 0, 0);
      ValueOfSnoc("0", '7', "07", 10, 0, 7);
    }
    assert ValueOf("2", 10) == 2 by { ValueOfSnoc("", '2', "2", 10, 0, 2); }
    StripUnpadded("2");
    StripUnpadded("+07");
    assert "+07"[1..] == "07";
  }

  lemma KnownParseIntPadded()
    ensures ParseInt(" -3 ") == Some(-3)
  {
    assert StripStart(" -3 ") == "-3 " by { assert " -3 "[1..] == "-3 "; }
    assert StripEnd("-3 ") == "-3" by { assert "-3 "[..2] == "-3"; }
    assert "-3"[1..] == "3";
    assert ValueOf("3", 10) == 3 by { ValueOfSnoc("", '3', "3", 10, 0, 3); }
  }

  lemma KnownParseIntRejected()
    ensures ParseInt("") == None && ParseInt("2.5") == None && ParseInt("-") == None
  {
    StripUnpadded("2.5");
    StripUnpadded("-");
    assert !IsDigit('.', 10);
    assert "2.5"[1] == '.';
  }

  /** The value `kwargs.get(key)`. */
  function Get(kwargs: map<string, string>, key: string): Option<string>
  {
    if key in kwargs then Some(kwargs[key]) else None
  }

  /** `universal_calculator(*args, **kwargs)`, with Python's `round(x, digits)` taken as
      the parameter `round`. */
  method UniversalCalculator(args: seq<real>, kwargs: map<string, string>, round: (real, int) -> real)
    returns (result: real)
    ensures var raw := if Get(kwargs, "operation") == Some("multiply") then Product(args) else Sum(args);
            var digits := if "round_to" in kwargs then ParseInt(kwargs["round_to"]) else None;
            result == if digits.Some? then round(raw, digits.value) else raw
  {
    if Get(kwargs, "operation") == Some("multiply") {
      result := 1.0;
      for i := 0 to |args|
        invariant result == Product(args[..i])
      {
        assert args[..i + 1][..i] == args[..i];
        result := result * args[i];
      }
      assert args[..|args|] == args;
    } else {
      result := Sum(args);
    }
    if "round_to" in kwargs {
      var decimalPlaces := ParseInt(kwargs["round_to"]);
      if decimalPlaces.Some? {
        result := round(result, decimalPlaces.value);
      }
    }
  }

  /** The positional arguments read from the first input line: its words parsed as floats
      by `parseFloat`, or none at all when the line is missing or blank or one word does
      not parse. */
  function ParseArgs(lines: seq<string>, parseFloat: string -> Option<real>): (args: seq<real>)
    ensures lines == [] ==> args == []
    ensures lines != [] ==>
              var words := Words(Strip(lines[0]));
              if forall i :: 0 <= i < |words| ==> parseFloat(words[i]).Some? then
                |args| == |words| && forall i :: 0 <= i < |words| ==> args[i] == parseFloat(words[i]).value
              else args == []
  {
    if lines == [] then []
    else
      var first := Strip(lines[0]);
      if first == [] then []
      else match ParseAll(Words(first), parseFloat) {
        case None => []
        case Some(values) => values
      }
  }

  /** The key and value of a keyword line, split at its first `=` once stripped; `None`
      for a line without `=`. */
  function KeyValue(line: string): Option<(string, string)>
  {
    SplitFirst(Strip(line), '=')
  }

  /** What each input line contributes as a keyword argument. */
  function KeyValues(lines: seq<string>): (kvs: seq<Option<(string, string)>>)
    ensures |kvs| == |lines|
  {
    seq(|lines|, i requires 0 <= i < |lines| => KeyValue(lines[i]))
  }

  predicate SetsKey(kv: Option<(string, string)>, key: string)
  {
    kv.Some? && kv.value.0 == key
  }

  /** `kwargs` holds the keys set by `kvs[1..n]`, each with the value of its last setting. */
  ghost predicate ReadUpTo(kvs: seq<Option<(string, string)>>, n: nat, kwargs: map<string, string>)
    requires n <= |kvs|
  {
    && (forall k :: k in kwargs <==> exists p :: 1 <= p < n && SetsKey(kvs[p], k))
    && (forall k :: k in kwargs ==>
          exists p :: 1 <= p < n && kvs[p] == Some((k, kwargs[k]))
                      && forall j :: p < j < n ==> !SetsKey(kvs[j], k))
  }

  /** One more line: a keyword line sets its key, any other line changes nothing. */
  lemma ReadStep(kvs: seq<Option<(string, string)>>, n: nat, kwargs: map<string, string>)
    requires 1 <= n < |kvs| && ReadUpTo(kvs, n, kwargs)
    ensures ReadUpTo(kvs, n + 1, if kvs[n].Some? then kwargs[kvs[n].value.0 := kvs[n].value.1] else kwargs)
  {
    var next := if kvs[n].Some? then kwargs[kvs[n].value.0 := kvs[n].value.1] else kwargs;
    forall k | k in next
      ensures exists p :: 1 <= p < n + 1 && kvs[p] == Some((k, next[k]))
                          && forall j :: p < j < n + 1 ==> !SetsKey(kvs[j], k)
    {
      if SetsKey(kvs[n], k) {
        assert kvs[n] == Some((k, next[k]));
      } else {
        var p :| 1 <= p < n && kvs[p] == Some((k, kwargs[k]))
                 && forall j :: p < j < n ==> !SetsKey(kvs[j], k);
        assert next[k] == kwargs[k];
        assert forall j :: p < j < n + 1 ==> !SetsKey(kvs[j], k);
      }
    }
    forall k ensures k in next <==> exists p :: 1 <= p < n + 1 && SetsKey(kvs[p], k) {
      if SetsKey(kvs[n], k) {
        assert k in next;
      } else {
        assert k in next <==> k in kwargs;
      }
    }
  }

  /** The keyword arguments read from the lines after the first: a key is present exactly
      when some such line holds an `=` with that key before it, and it maps to the value of
      the last such line; lines without `=` are ignored. */
  method ParseKwargs(lines: seq<string>) returns (kwargs: map<string, string>)
    ensures var kvs := KeyValues(lines);
            forall k :: k in kwargs <==> exists i :: 1 <= i < |lines| && SetsKey(kvs[i], k)
    ensures var kvs := KeyValues(lines);
            forall k :: k in kwargs ==>
              exists i :: 1 <= i < |lines| && kvs[i] == Some((k, kwargs[k]))
                          && forall j :: i < j < |lines| ==> !SetsKey(kvs[j], k)
  {
    ghost var kvs := KeyValues(lines);
    kwargs := map[];
    if |lines| > 1 {
      for i := 1 to |lines|
        invariant ReadUpTo(kvs, i, kwargs)
      {
        ReadStep(kvs, i, kwargs);
        var line := Strip(lines[i]);
        assert kvs[i] == SplitFirst(line, '=');
        if '=' in line {
          var parts := SplitFirst(line, '=').value;
          var key, value := parts.0, parts.1;
          kwargs := kwargs[key := value];
        }
      }
    }
  }
}
