/** The string operations the parsers rely on: Python's `str.strip()`, `str.split()` with
    no argument (runs of whitespace separate words), `str.split(sep)` with a one-character
    separator, `str.split(sep, 1)` and `sep.join(parts)`. Whitespace is the ten ASCII
    characters Python treats as whitespace. */
module Text {
  import opened Wrappers

  /** Tab, newline, vertical tab, form feed, carriage return, the four information
      separators 0x1C-0x1F and space. */
  predicate IsSpace(c: char)
  {
    c == ' ' || c == '\t' || c == '\n' || c == '\r' || c == '\U{0B}' || c == '\U{0C}'
    || c == '\U{1C}' || c == '\U{1D}' || c == '\U{1E}' || c == '\U{1F}'
  }

  /** A word as `str.split()` returns it: non-empty, no whitespace inside. */
  predicate IsWord(w: string)
  {
    w != [] && forall i :: 0 <= i < |w| ==> !IsSpace(w[i])
  }

  /** `s` with its leading whitespace removed. */
  function StripStart(s: string): (r: string)
    ensures |r| <= |s|
  {
    if s != [] && IsSpace(s[0]) then StripStart(s[1..]) else s
  }

  /** `s` with its trailing whitespace removed. */
  function StripEnd(s: string): (r: string)
    ensures |r| <= |s|
  {
    if s != [] && IsSpace(s[|s| - 1]) then StripEnd(s[..|s| - 1]) else s
  }

  /** `StripStart(s)` is the suffix of `s` that follows its leading whitespace. */
  lemma {:induction false} StripStartSuffix(s: string)
    ensures var r := StripStart(s);
            && |r| <= |s| && r == s[|s| - |r|..]
            && (r == [] || !IsSpace(r[0]))
            && (forall i :: 0 <= i < |s| - |r| ==> IsSpace(s[i]))
  {
    if s != [] && IsSpace(s[0]) {
      StripStartSuffix(s[1..]);
      var r := StripStart(s);
      assert s[1..][|s| - 1 - |r|..] == s[|s| - |r|..];
      forall i | 0 <= i < |s| - |r| ensures IsSpace(s[i]) {
        if i > 0 {
          assert s[i] == s[1..][i - 1];
        }
      }
    }
  }

  /** `StripEnd(s)` is the prefix of `s` that precedes its trailing whitespace. */
  lemma {:induction false} StripEndPrefix(s: string)
    ensures var r := StripEnd(s);
            && |r| <= |s| && r == s[..|r|]
            && (r == [] || !IsSpace(r[|r| - 1]))
            && (forall i :: |r| <= i < |s| ==> IsSpace(s[i]))
  {
    if s != [] && IsSpace(s[|s| - 1]) {
      var p := s[..|s| - 1];
      StripEndPrefix(p);
      var r := StripEnd(s);
      assert p[..|r|] == s[..|r|];
      forall i | |r| <= i < |s| ensures IsSpace(s[i]) {
        if i < |s| - 1 {
          assert s[i] == p[i];
        }
      }
    }
  }

  /** `str.strip()`: whitespace removed from both ends, so the result neither starts nor
      ends with whitespace. */
  function Strip(s: string): (r: string)
    ensures r == [] || (!IsSpace(r[0]) && !IsSpace(r[|r| - 1]))
  {
    StripStartSuffix(s);
    StripEndPrefix(StripStart(s));
    StripEnd(StripStart(s))
  }

  /** A prefix of a suffix of `s` is a slice of `s`. */
  lemma PrefixOfSuffix(s: string, i: nat, t: string, r: string)
    requires i <= |s| && t == s[i..] && |r| <= |t| && r == t[..|r|]
    ensures i + |r| <= |s| && r == s[i..i + |r|]
    ensures forall k :: i + |r| <= k < |s| ==> s[k] == t[k - i]
  {
  }

  /** `Strip(s)` is the slice of `s` that starts where the leading whitespace ends, with
      only whitespace after it. */
  lemma StripSlice(s: string)
    ensures var i, r := |s| - |StripStart(s)|, Strip(s);
            && i + |r| <= |s| && r == s[i..i + |r|]
            && (forall k :: 0 <= k < i ==> IsSpace(s[k]))
            && (forall k :: i + |r| <= k < |s| ==> IsSpace(s[k]))
  {
    var t := StripStart(s);
    var i := |s| - |t|;
    var r := StripEnd(t);
    StripStartSuffix(s);
    StripEndPrefix(t);
    PrefixOfSuffix(s, i, t, r);
  }

  /** A string with no whitespace at either end is its own strip. */
  lemma StripUnpadded(s: string)
    requires s == [] || (!IsSpace(s[0]) && !IsSpace(s[|s| - 1]))
    ensures Strip(s) == s
  {
  }

  /** The length of the word at the start of `s`: its run of non-space characters. */
  function WordLength(s: string): (k: nat)
    ensures k <= |s|
    ensures forall i :: 0 <= i < k ==> !IsSpace(s[i])
    ensures k == |s| || IsSpace(s[k])
  {
    if s == [] || IsSpace(s[0]) then 0 else 1 + WordLength(s[1..])
  }

  /** `str.split()`: the maximal runs of non-space characters, in order. */
  function Words(s: string): (ws: seq<string>)
    ensures forall i :: 0 <= i < |ws| ==> IsWord(ws[i])
    decreases |s|
  {
    if s == [] then []
    else if IsSpace(s[0]) then Words(s[1..])
    else
      var k := WordLength(s);
      [s[..k]] + Words(s[k..])
  }

  /** `sep.join(parts)`. */
  function Join(parts: seq<string>, sep: string): (r: string)
    ensures |parts| == 1 ==> r == parts[0]
  {
    if parts == [] then ""
    else if |parts| == 1 then parts[0]
    else parts[0] + sep + Join(parts[1..], sep)
  }

  lemma JoinCons(p: string, rest: seq<string>, sep: string)
    requires rest != []
    ensures Join([p] + rest, sep) == p + sep + Join(rest, sep)
  {
    assert ([p] + rest)[1..] == rest;
  }

  /** A word followed by whitespace or nothing is measured exactly. */
  lemma {:induction false} WordLengthOfWord(w: string, t: string)
    requires IsWord(w) && (t == [] || IsSpace(t[0]))
    ensures WordLength(w + t) == |w|
    decreases |w|
  {
    assert (w + t)[1..] == w[1..] + t;
    if |w| > 1 {
      WordLengthOfWord(w[1..], t);
    } else {
      assert w[1..] + t == t;
    }
  }

  /** Splitting words joined by single spaces gives the words back. */
  lemma {:induction false} WordsOfJoin(ws: seq<string>)
    requires forall i :: 0 <= i < |ws| ==> IsWord(ws[i])
    ensures Words(Join(ws, " ")) == ws
    decreases |ws|
  {
    if ws == [] {
    } else if |ws| == 1 {
      var w := ws[0];
      WordLengthOfWord(w, "");
      assert w + "" == w;
      assert w[|w|..] == "";
    } else {
      var w := ws[0];
      var rest := Join(ws[1..], " ");
      var s := w + " " + rest;
      assert Join(ws, " ") == s;
      assert s == w + (" " + rest);
      WordLengthOfWord(w, " " + rest);
      assert s[..|w|] == w;
      assert s[|w|..] == " " + rest;
      assert (" " + rest)[1..] == rest;
      WordsOfJoin(ws[1..]);
      assert ws == [w] + ws[1..];
    }
  }

  /** `str.split(sep)` with a one-character separator: the pieces between separators,
      at least one, possibly empty. */
  function Split(s: string, sep: char): (parts: seq<string>)
    ensures |parts| >= 1
    ensures forall i :: 0 <= i < |parts| ==> sep !in parts[i]
    ensures Join(parts, [sep]) == s
  {
    if s == [] then [""]
    else
      var rest := Split(s[1..], sep);
      if s[0] == sep then
        JoinCons("", rest, [sep]);
        [""] + rest
      else if |rest| == 1 then
        [[s[0]] + rest[0]]
      else
        JoinCons([s[0]] + rest[0], rest[1..], [sep]);
        JoinCons(rest[0], rest[1..], [sep]);
        assert rest == [rest[0]] + rest[1..];
        [[s[0]] + rest[0]] + rest[1..]
  }

  /** Splitting pieces joined by the separator gives the pieces back. */
  lemma {:induction false} SplitOfJoin(parts: seq<string>, sep: char)
    requires |parts| >= 1
    requires forall i :: 0 <= i < |parts| ==> sep !in parts[i]
    ensures Split(Join(parts, [sep]), sep) == parts
  {
    var r := Split(Join(parts, [sep]), sep);
    SplitUnique(Join(parts, [sep]), sep, parts);
  }

  /** The pieces of `s` are the only separator-free list that joins back to `s`. */
  lemma {:induction false} SplitUnique(s: string, sep: char, parts: seq<string>)
    requires |parts| >= 1
    requires forall i :: 0 <= i < |parts| ==> sep !in parts[i]
    requires Join(parts, [sep]) == s
    ensures Split(s, sep) == parts
    decreases |s|, |parts[0]|
  {
    if s == [] {
    } else if parts[0] == [] {
      assert |parts| > 1;
      JoinCons(parts[0], parts[1..], [sep]);
      assert parts == [parts[0]] + parts[1..];
      assert s == [sep] + Join(parts[1..], [sep]);
      assert s[1..] == Join(parts[1..], [sep]);
      SplitUnique(s[1..], sep, parts[1..]);
    } else {
      var p := parts[0];
      var tail := [p[1..]] + parts[1..];
      assert p[0] != sep by { assert p[0] in p; }
      if |parts| == 1 {
        assert s == p;
        assert Join(tail, [sep]) == p[1..];
      } else {
        JoinCons(p, parts[1..], [sep]);
        JoinCons(p[1..], parts[1..], [sep]);
        assert parts == [p] + parts[1..];
        assert tail[1..] == parts[1..];
        assert p == [p[0]] + p[1..];
        assert s == [p[0]] + Join(tail, [sep]);
      }
      assert s[0] == p[0] && s[1..] == Join(tail, [sep]);
      assert forall i :: 0 <= i < |tail| ==> sep !in tail[i] by {
        forall i | 0 <= i < |tail| ensures sep !in tail[i] {
          if i == 0 {
            assert forall c :: c in p[1..] ==> c in p;
          } else {
            assert tail[i] == parts[i];
          }
        }
      }
      SplitUnique(s[1..], sep, tail);
      assert [p[0]] + tail[0] == p;
      assert Split(s, sep) == [p] + tail[1..];
      assert tail[1..] == parts[1..];
      assert parts == [p] + parts[1..];
    }
  }

  /** The position of the first `c` in `s`. */
  function IndexOf(s: string, c: char): (i: nat)
    requires c in s
    ensures i < |s| && s[i] == c && c !in s[..i]
  {
    if s[0] == c then 0 else
      assert c in s[1..] by { var k :| 0 <= k < |s| && s[k] == c; assert s[1..][k - 1] == c; }
      var j := IndexOf(s[1..], c);
      assert s[..j + 1] == [s[0]] + s[1..][..j];
      j + 1
  }

  /** `s.split(c, 1)` on a string that contains `c`: the text before the first `c` and the
      text after it. None when `c` does not occur. */
  function SplitFirst(s: string, c: char): (r: Option<(string, string)>)
    ensures r.None? <==> c !in s
  {
    if c !in s then None
    else
      var i := IndexOf(s, c);
      Some((s[..i], s[i + 1..]))
  }

  /** The two parts of a split, with `c` between them, make up `s`; the first has no `c`. */
  lemma SplitFirstParts(s: string, c: char)
    requires c in s
    ensures var (key, value) := SplitFirst(s, c).value;
            s == key + [c] + value && c !in key
  {
    var i := IndexOf(s, c);
    assert s == s[..i] + [c] + s[i + 1..];
  }

  /** The key and value are determined: a split of `s` at a `c` that has no `c` before it
      is the first-occurrence split. */
  lemma SplitFirstUnique(s: string, c: char, key: string, value: string)
    requires s == key + [c] + value && c !in key
    ensures SplitFirst(s, c) == Some((key, value))
  {
    assert s[|key|] == c;
    SplitFirstParts(s, c);
    var r := SplitFirst(s, c);
    var k := r.value.0;
    assert k == s[..|k|] && key == s[..|key|];
    assert r.value.1 == s[|k| + 1..];
    assert value == s[|key| + 1..];
  }

  /** `list(map(parse, words))` where `parse` may fail: the parsed values when every word
      parses, `None` (the exception) as soon as one does not. */
  function ParseAll<T>(words: seq<string>, parse: string -> Option<T>): (r: Option<seq<T>>)
    ensures r.Some? <==> forall i :: 0 <= i < |words| ==> parse(words[i]).Some?
    ensures r.Some? ==> |r.value| == |words|
                        && forall i :: 0 <= i < |words| ==> r.value[i] == parse(words[i]).value
  {
    if words == [] then Some([])
    else match (parse(words[0]), ParseAll(words[1..], parse)) {
      case (Some(x), Some(xs)) =>
        Some([x] + xs)
      case (None, _) => None
      case (_, None) =>
        assert forall i :: 1 <= i < |words| ==> words[1..][i - 1] == words[i];
        None
    }
  }
}
