/** `CustomizedList`: a list-like object over an in-memory list `data`, with Python's list
    indexing (an index `i` in `-len..len-1` names the element `i`, counting from the end
    when negative; any other index raises IndexError). */
module CustomizedLists {
  import opened Wrappers

  /** Python's resolution of an integer index into a list of `length` elements. */
  function Resolve(index: int, length: int): (r: Option<nat>)
    ensures r.Some? <==> -length <= index < length
    ensures r.Some? ==> r.value < length && (r.value == index || r.value == index + length)
  {
    if 0 <= index < length then Some(index)
    else if -length <= index < 0 then Some(index + length)
    else None
  }

  /** `s` with the element at position `i` replaced by `v`. */
  function Replace<T>(s: seq<T>, i: nat, v: T): seq<T>
    requires i < |s|
  {
    s[i := v]
  }

  /** `s` without the element at position `i`. */
  function Remove<T>(s: seq<T>, i: nat): seq<T>
    requires i < |s|
  {
    s[..i] + s[i + 1..]
  }

  /** Replacing keeps the length and touches only position `i`. */
  lemma ReplaceOnlyAt<T>(s: seq<T>, i: nat, v: T)
    requires i < |s|
    ensures |Replace(s, i, v)| == |s| && Replace(s, i, v)[i] == v
    ensures forall k :: 0 <= k < |s| && k != i ==> Replace(s, i, v)[k] == s[k]
  {
  }

  /** Removing shortens the list by one and shifts the later elements down. */
  lemma RemoveShifts<T>(s: seq<T>, i: nat)
    requires i < |s|
    ensures |Remove(s, i)| == |s| - 1
    ensures forall k :: 0 <= k < i ==> Remove(s, i)[k] == s[k]
    ensures forall k :: i <= k < |s| - 1 ==> Remove(s, i)[k] == s[k + 1]
  {
  }

  /** Removing an element that was just put in place of another one is removing that one. */
  lemma RemoveAfterReplace<T>(s: seq<T>, i: nat, v: T)
    requires i < |s|
    ensures Remove(Replace(s, i, v), i) == Remove(s, i)
  {
    assert Replace(s, i, v)[..i] == s[..i];
    assert Replace(s, i, v)[i + 1..] == s[i + 1..];
  }

  class CustomizedList<T> {
    /** The file the program persists to; loading and saving are not part of this model. */
    var filepath: string
    var data: seq<T>

    /** A new list starts empty, as when its file does not exist. */
    constructor (filepath: string)
      ensures this.filepath == filepath && data == []
    {
      this.filepath := filepath;
      data := [];
    }

    /** `__len__`. */
    function Length(): (n: nat)
      reads this
      ensures n == |data|
    {
      |data|
    }

    /** `__getitem__` with an integer index: the element it names, or `None` for the
        IndexError. */
    function Get(index: int): (r: Option<T>)
      reads this
      ensures r.Some? <==> -|data| <= index < |data|
      ensures r.Some? ==> r.value == data[Resolve(index, |data|).value]
      ensures r.Some? && index < 0 ==> r.value == data[|data| + index]
    {
      match Resolve(index, |data|)
      case Some(i) => Some(data[i])
      case None => None
    }

    /** `__setitem__`: replaces the element the index names; `false` (IndexError) and no
        change for an index out of range. */
    method Set(index: int, value: T) returns (ok: bool)
      modifies this
      ensures ok <==> -|old(data)| <= index < |old(data)|
      ensures ok ==> data == Replace(old(data), Resolve(index, |old(data)|).value, value)
      ensures !ok ==> data == old(data)
      ensures filepath == old(filepath)
    {
      var i := Resolve(index, |data|);
      ok := i.Some?;
      if ok {
        data := data[i.value := value];
      }
    }

    /** `__delitem__`: removes the element the index names; `false` (IndexError) and no
        change for an index out of range. */
    method Delete(index: int) returns (ok: bool)
      modifies this
      ensures ok <==> -|old(data)| <= index < |old(data)|
      ensures ok ==> data == Remove(old(data), Resolve(index, |old(data)|).value)
      ensures !ok ==> data == old(data)
      ensures filepath == old(filepath)
    {
      var i := Resolve(index, |data|);
      ok := i.Some?;
      if ok {
        data := data[..i.value] + data[i.value + 1..];
      }
    }

    /** `append`: the item goes last, everything before it stays. */
    method Append(item: T)
      modifies this
      ensures data == old(data) + [item]
      ensures filepath == old(filepath)
    {
      data := data + [item];
    }
  }

  /** The values the demonstration stores: an integer, a string and a dictionary. */
  datatype Value = Int(i: int) | Str(s: string) | Dict(entries: seq<(string, Value)>)

  const Sample: Value := Dict([("a", Int(1)), ("b", Int(2))])

  /** The demonstration's first run: start from an empty list, append 10, "hello" and a
      dictionary, set position 1 to "world" and delete position 0. */
  method Demonstration() returns (final: seq<Value>, length: nat, first: Option<Value>)
    ensures final == [Str("world"), Sample]
    ensures length == 2 && first == Some(Str("world"))
  {
    var list := new CustomizedList<Value>("my_data.json");
    list.data := [];
    list.Append(Int(10));
    list.Append(Str("hello"));
    list.Append(Sample);
    var setOk := list.Set(1, Str("world"));
    assert setOk;
    var deleteOk := list.Delete(0);
    assert deleteOk;
    final := list.data;
    length := list.Length();
    first := list.Get(0);
  }
}
