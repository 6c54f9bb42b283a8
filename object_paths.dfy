/**
 * From a property path to the object that holds the property (GetParent, GetValue and
 * GetField in SerializedPropertyExtensions.cs): the path is normalised, split into
 * segments, and every segment but the last is followed through the fields of the runtime
 * objects, an indexed segment selecting an element of a collection.
 */
module ObjectPaths {
  import opened Common

  /**
   * A runtime object as reflection sees it: null, an instance whose fields are grouped by
   * the type that declares them (the object's own type first, then each base type in
   * turn), or an enumerable collection of elements.
   */
  datatype Obj =
    | Null
    | Instance(layers: seq<map<string, Obj>>)
    | Collection(items: seq<Obj>)

  /**
   * GetField: the position in the base-type chain of the first type that declares `name`,
   * looking at the type itself before its base types; None when no type declares it.
   */
  function GetField(layers: seq<map<string, Obj>>, name: string): (r: Option<nat>)
    ensures r.Some? ==> r.value < |layers| && name in layers[r.value]
    ensures r.Some? ==> forall i :: 0 <= i < r.value ==> name !in layers[i]
    ensures r.None? <==> forall i :: 0 <= i < |layers| ==> name !in layers[i]
  {
    if |layers| == 0 then None
    else if name in layers[0] then Some(0)
    else match GetField(layers[1..], name)
      case None =>
        assert forall i :: 1 <= i < |layers| ==> layers[i] == layers[1..][i - 1];
        None
      case Some(i) =>
        assert forall k :: 1 <= k < i + 1 ==> layers[k] == layers[1..][k - 1];
        Some(i + 1)
  }

  /**
   * GetValue(source, name): the value of the field `name`, read from the first type that
   * declares it; null when the source is null or nothing declares the field.
   */
  function GetValue(source: Obj, name: string): (r: Obj)
    ensures !source.Instance? ==> r == Null
    ensures source.Instance? && (forall i :: 0 <= i < |source.layers| ==> name !in source.layers[i]) ==> r == Null
    ensures forall i :: (source.Instance? && 0 <= i < |source.layers| && name in source.layers[i] &&
                         forall k :: 0 <= k < i ==> name !in source.layers[k]) ==> r == source.layers[i][name]
  {
    if !source.Instance? then Null
    else match GetField(source.layers, name)
      case None => Null
      case Some(i) =>
        assert forall j :: (0 <= j < |source.layers| && name in source.layers[j] &&
                            forall k :: 0 <= k < j ==> name !in source.layers[k]) ==> j == i;
        source.layers[i][name]
  }

  /**
   * The element at a 0-based index of the collection held by field `name`; None when the
   * field does not hold a collection (the enumerator cannot be obtained) or the index is
   * outside it (the enumerator's Current is not an element).
   */
  function ElementAt(source: Obj, name: string, index: int): Option<Obj>
  {
    match GetValue(source, name)
    case Collection(items) => if 0 <= index < |items| then Some(items[index]) else None
    case _ => None
  }

  function MinInt(a: int, b: int): int
  {
    if a < b then a else b
  }

  /**
   * Indexed GetValue: obtain the collection's enumerator, advance it while the
   * post-decremented index is still non-negative (index + 1 times), then read Current.
   */
  method GetValueAt(source: Obj, name: string, index: int) returns (r: Option<Obj>)
    ensures r == ElementAt(source, name, index)
  {
    var enumerable := GetValue(source, name);
    if !enumerable.Collection? {
      return None;
    }
    var items := enumerable.items;
    var position := -1;
    var i := index;
    while i >= 0
      invariant i <= index && (index >= -1 ==> i >= -1) && (index < -1 ==> i == index)
      invariant position == MinInt(index - i - 1, |items|)
      decreases i
    {
      i := i - 1;
      if position < |items| {
        position := position + 1;
      }
    }
    assert index < -1 ==> position == -1;
    assert index >= -1 ==> position == MinInt(index, |items|);
    if 0 <= position < |items| {
      r := Some(items[position]);
    } else {
      r := None;
    }
  }

  /**
   * String.Replace: every occurrence of `pattern`, found scanning from the left and
   * without overlap, is replaced by `replacement`.
   */
  function Replace(s: string, pattern: string, replacement: string): string
    requires |pattern| > 0
  {
    if |s| < |pattern| then s
    else if s[..|pattern|] == pattern then replacement + Replace(s[|pattern|..], pattern, replacement)
    else [s[0]] + Replace(s[1..], pattern, replacement)
  }

  /** A string without `[` contains no `.Array.data[` and is left as it is. */
  lemma {:induction false} ReplaceWithoutBracket(s: string)
    requires '[' !in s
    ensures Replace(s, ".Array.data[", "[") == s
  {
    if |s| >= |".Array.data["| {
      assert s[..12][11] == s[11];
      assert s[..12] != ".Array.data[";
      assert s == [s[0]] + s[1..];
      ReplaceWithoutBracket(s[1..]);
    }
  }

  /** String.Split on one separator: the pieces between separators, empty pieces included. */
  function Split(s: string, sep: char): (r: seq<string>)
    ensures |r| > 0
    ensures forall i :: 0 <= i < |r| ==> sep !in r[i]
  {
    if |s| == 0 then [""]
    else
      var rest := Split(s[1..], sep);
      if s[0] == sep then [""] + rest
      else [[s[0]] + rest[0]] + rest[1..]
  }

  function Join(pieces: seq<string>, sep: char): string
    requires |pieces| > 0
  {
    if |pieces| == 1 then pieces[0] else pieces[0] + [sep] + Join(pieces[1..], sep)
  }

  /** Joining the pieces of a split gives back the string. */
  lemma {:induction false} JoinSplit(s: string, sep: char)
    ensures Join(Split(s, sep), sep) == s
  {
    if |s| > 0 {
      var rest := Split(s[1..], sep);
      JoinSplit(s[1..], sep);
      if s[0] != sep {
        var r := Split(s, sep);
        assert r[1..] == rest[1..];
        if |rest| > 1 {
          assert Join(r, sep) == [s[0]] + rest[0] + [sep] + Join(rest[1..], sep);
        }
      } else {
        assert Split(s, sep)[1..] == rest;
      }
      assert s == [s[0]] + s[1..];
    }
  }

  /** Splitting a join of pieces that do not contain the separator gives back the pieces. */
  lemma {:induction false} SplitJoin(pieces: seq<string>, sep: char)
    requires |pieces| > 0
    requires forall i :: 0 <= i < |pieces| ==> sep !in pieces[i]
    ensures Split(Join(pieces, sep), sep) == pieces
    decreases |pieces|, |pieces[0]|
  {
    var p := pieces[0];
    if |p| > 0 {
      var tail := [p[1..]] + pieces[1..];
      assert forall i :: 0 <= i < |tail| ==> sep !in tail[i] by {
        assert forall c :: c in p[1..] ==> c in p;
      }
      SplitJoin(tail, sep);
      JoinFirstChar(pieces, sep);
      SplitCons(p[0], Join(tail, sep), sep);
      assert [p[0]] + p[1..] == p;
      assert pieces == [p] + pieces[1..];
    } else if |pieces| > 1 {
      SplitJoin(pieces[1..], sep);
      assert Join(pieces, sep) == [sep] + Join(pieces[1..], sep);
      assert ([sep] + Join(pieces[1..], sep))[1..] == Join(pieces[1..], sep);
    }
  }

  /** A join whose first piece is not empty starts with that piece's first character. */
  lemma JoinFirstChar(pieces: seq<string>, sep: char)
    requires |pieces| > 0 && |pieces[0]| > 0
    ensures Join(pieces, sep) == [pieces[0][0]] + Join([pieces[0][1..]] + pieces[1..], sep)
  {
    var p, tail := pieces[0], [pieces[0][1..]] + pieces[1..];
    assert [p[0]] + p[1..] == p;
    if |pieces| > 1 {
      assert tail[1..] == pieces[1..];
    }
  }

  /** One step of Split on a string starting with a character other than the separator. */
  lemma SplitCons(c: char, s: string, sep: char)
    requires c != sep
    ensures Split([c] + s, sep) == [[c] + Split(s, sep)[0]] + Split(s, sep)[1..]
  {
    assert ([c] + s)[1..] == s;
  }

  /** The string with every occurrence of `c` removed. */
  function RemoveAll(s: string, c: char): (r: string)
    ensures c !in r
  {
    if |s| == 0 then "" else (if s[0] == c then "" else [s[0]]) + RemoveAll(s[1..], c)
  }

  const Int32Min: int := -0x8000_0000
  const Int32Max: int := 0x7FFF_FFFF

  function Int32Value(s: string): (r: Option<int>)
    ensures r.Some? ==> Int32Min <= r.value <= Int32Max
  {
    if |s| > 0 && forall i :: 0 <= i < |s| ==> IsDigit(s[i]) then
      var n := DigitsValue(s);
      if n <= Int32Max then Some(n) else None
    else None
  }

  /**
   * Convert.ToInt32 on a string: an optional sign followed by decimal digits whose value
   * fits in 32 bits; None where the conversion throws (empty, malformed or out of range).
   */
  function ToInt32(s: string): (r: Option<int>)
    ensures r.Some? ==> Int32Min <= r.value <= Int32Max
    ensures forall n: nat :: n <= Int32Max && s == Digits(n) ==> r == Some(n)
  {
    forall n: nat | n <= Int32Max && s == Digits(n) ensures DigitsValue(s) == n {
      DigitsRoundTrip(n);
    }
    if |s| > 0 && s[0] == '-' then
      if |s| > 1 && forall i :: 1 <= i < |s| ==> IsDigit(s[i]) then
        var n: int := DigitsValue(s[1..]);
        if n <= -Int32Min then Some(-n) else None
      else None
    else if |s| > 0 && s[0] == '+' then Int32Value(s[1..])
    else Int32Value(s)
  }

  /** A path segment after normalisation: a field name, or a field name with an element index. */
  datatype Segment = Plain(name: string) | Indexed(name: string, index: int)

  /**
   * A segment containing `[` is the name before the first `[` and the integer spelled by
   * the rest with every `[` and `]` removed; None when that integer does not parse.
   */
  function ParseSegment(e: string): (r: Option<Segment>)
    ensures '[' !in e ==> r == Some(Plain(e))
    ensures r.Some? && r.value.Indexed? ==>
      |r.value.name| < |e| && e[..|r.value.name|] == r.value.name && e[|r.value.name|] == '[' && '[' !in r.value.name
  {
    if '[' !in e then Some(Plain(e))
    else
      var k := FirstIndex(e, '[');
      var name := e[..k];
      assert name + e[k..] == e;
      match ToInt32(RemoveAll(RemoveAll(e[k..], '['), ']'))
      case None => None
      case Some(i) => Some(Indexed(name, i))
  }

  /** The segment `name[i]` written for an element of a collection field parses back to its name and index. */
  lemma ParseIndexedSegment(name: string, i: nat)
    requires '[' !in name && i <= Int32Max
    ensures ParseSegment(name + "[" + Digits(i) + "]") == Some(Indexed(name, i))
  {
    var e := name + "[" + Digits(i) + "]";
    assert e[|name|] == '[';
    assert e[..|name|] == name;
    var k := FirstIndex(e, '[');
    assert k == |name|;
    var d := Digits(i);
    assert e[k..] == "[" + d + "]";
    assert RemoveAll("[" + d + "]", '[') == d + "]" by {
      assert ("[" + d + "]")[1..] == d + "]";
      NoneRemoved(d + "]", '[');
    }
    assert RemoveAll(d + "]", ']') == d by {
      RemoveLast(d, ']');
      NoneRemoved(d, ']');
    }
  }

  lemma {:induction false} NoneRemoved(s: string, c: char)
    requires c !in s
    ensures RemoveAll(s, c) == s
  {
    if |s| > 0 {
      NoneRemoved(s[1..], c);
    }
  }

  lemma {:induction false} RemoveLast(s: string, c: char)
    ensures RemoveAll(s + [c], c) == RemoveAll(s, c)
  {
    if |s| == 0 {
      assert RemoveAll([c], c) == "" + RemoveAll([], c);
    } else {
      assert (s + [c])[1..] == s[1..] + [c];
      RemoveLast(s[1..], c);
    }
  }

  /** Following one segment from `obj`: a field read, or an element of a collection field. */
  function Visit(obj: Obj, segment: string): Option<Obj>
  {
    match ParseSegment(segment)
    case None => None
    case Some(Plain(name)) => Some(GetValue(obj, name))
    case Some(Indexed(name, index)) => ElementAt(obj, name, index)
  }

  /** The object reached from `obj` by following `segments` in order; None where a step throws. */
  function WalkFrom(obj: Obj, segments: seq<string>): Option<Obj>
    decreases segments
  {
    if |segments| == 0 then Some(obj)
    else match Visit(obj, segments[0])
      case None => None
      case Some(next) => WalkFrom(next, segments[1..])
  }

  /** The segments GetParent follows: all segments of the normalised path but the last. */
  function ParentSegments(propertyPath: string): (r: seq<string>)
    ensures forall i :: 0 <= i < |r| ==> '.' !in r[i]
  {
    var elements := Split(Replace(propertyPath, ".Array.data[", "["), '.');
    elements[..|elements| - 1]
  }

  /** GetParent: the object holding the property at `propertyPath` below `target`. */
  method GetParent(target: Obj, propertyPath: string) returns (r: Option<Obj>)
    ensures r == WalkFrom(target, ParentSegments(propertyPath))
  {
    var path := Replace(propertyPath, ".Array.data[", "[");
    var obj := target;
    var elements := Split(path, '.');
    var parents := elements[..|elements| - 1];
    var i := 0;
    while i < |parents|
      invariant 0 <= i <= |parents|
      invariant WalkFrom(obj, parents[i..]) == WalkFrom(target, parents)
    {
      var element := parents[i];
      if '[' in element {
        var k := FirstIndex(element, '[');
        var elementName := element[..k];
        var index := ToInt32(RemoveAll(RemoveAll(element[k..], '['), ']'));
        if index.None? {
          return None;
        }
        var value := GetValueAt(obj, elementName, index.value);
        if value.None? {
          return None;
        }
        obj := value.value;
      } else {
        obj := GetValue(obj, element);
      }
      assert parents[i..][1..] == parents[i + 1..];
      i := i + 1;
    }
    r := Some(obj);
  }

  /**
   * For a path whose segments are plain field names, GetParent follows every name but the
   * last, field by field.
   */
  lemma ParentOfPlainPath(names: seq<string>, last: string)
    requires forall i :: 0 <= i < |names| ==> '.' !in names[i] && '[' !in names[i]
    requires '.' !in last && '[' !in last
    ensures ParentSegments(Join(names + [last], '.')) == names
  {
    var pieces := names + [last];
    assert forall i :: 0 <= i < |pieces| ==> '[' !in pieces[i] && '.' !in pieces[i];
    JoinWithoutBracket(pieces);
    ReplaceWithoutBracket(Join(pieces, '.'));
    SplitJoin(pieces, '.');
    assert pieces[..|pieces| - 1] == names;
  }

  lemma {:induction false} JoinWithoutBracket(pieces: seq<string>)
    requires |pieces| > 0
    requires forall i :: 0 <= i < |pieces| ==> '[' !in pieces[i]
    ensures '[' !in Join(pieces, '.')
  {
    if |pieces| > 1 {
      JoinWithoutBracket(pieces[1..]);
    }
  }
}
