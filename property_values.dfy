/**
 * The field tree of a serialized record and the deep copy between two such trees
 * (CopyPropertyTo / CopyPropertyValueTo in SerializedPropertyExtensions.cs).
 *
 * A serialized property is one of three things: a leaf of some property type, a nested
 * record with named children, or an array with indexed elements. Leaf payloads of every
 * type (numbers, colours, vectors, curves, ...) are opaque and compared only by equality.
 */
module PropertyValues {
  import opened Common

  /** Unity's SerializedPropertyType. */
  datatype Kind =
    | Generic | Integer | Boolean | Float | String | Color | ObjectReference | LayerMask | Enum
    | Vector2 | Vector3 | Vector4 | Rect | ArraySize | Character | AnimationCurve | Bounds | Gradient
    | Quaternion | ExposedReference | FixedBufferSize | Vector2Int | Vector3Int | RectInt | BoundsInt
    | ManagedReference | Hash128

  /** The property types whose value the leaf copy transfers; every other type falls through the switch. */
  predicate Copyable(k: Kind)
  {
    !(k.Generic? || k.ArraySize? || k.Gradient? || k.FixedBufferSize? || k.ManagedReference? || k.Hash128?)
  }

  datatype Value =
    | Leaf(kind: Kind, payload: int)
    | Node(fields: seq<Field>)
    | Arr(elems: seq<Value>)

  datatype Field = Field(name: string, value: Value)

  function Names(fs: seq<Field>): (r: seq<string>)
    ensures |r| == |fs|
    ensures forall i :: 0 <= i < |fs| ==> r[i] == fs[i].name
  {
    seq(|fs|, i requires 0 <= i < |fs| => fs[i].name)
  }

  /** Position of the child that FindPropertyRelative(name) finds, or -1 when there is none. */
  function FieldIndex(fs: seq<Field>, name: string): (j: int)
    ensures -1 <= j < |fs|
    ensures j == -1 <==> forall i :: 0 <= i < |fs| ==> fs[i].name != name
    ensures 0 <= j ==> fs[j].name == name && forall i :: 0 <= i < j ==> fs[i].name != name
  {
    var ns := Names(fs);
    var j := FirstIndex(ns, name);
    assert forall i :: 0 <= i < |fs| ==> ns[i] == fs[i].name;
    assert 0 <= j ==> forall i :: 0 <= i < j ==> ns[..j][i] == fs[i].name;
    j
  }

  predicate UniqueNames(fs: seq<Field>)
  {
    forall i, j :: 0 <= i < j < |fs| ==> fs[i].name != fs[j].name
  }

  /** Every nested record has distinct child names, as every serialized type does. */
  predicate WellFormed(v: Value)
  {
    match v
    case Leaf(_, _) => true
    case Node(fs) => UniqueNames(fs) && forall i :: 0 <= i < |fs| ==> WellFormed(fs[i].value)
    case Arr(es) => forall i :: 0 <= i < |es| ==> WellFormed(es[i])
  }

  function MaxOf(s: seq<nat>): (m: nat)
    ensures forall i :: 0 <= i < |s| ==> s[i] <= m
    ensures m == 0 || exists i :: 0 <= i < |s| && s[i] == m
  {
    if |s| == 0 then 0 else Max(s[0], MaxOf(s[1..]))
  }

  /** Nesting depth of a field tree: 0 for a leaf. */
  function Depth(v: Value): nat
  {
    match v
    case Leaf(_, _) => 0
    case Node(fs) => 1 + MaxOf(seq(|fs|, i requires 0 <= i < |fs| => Depth(fs[i].value)))
    case Arr(es) => 1 + MaxOf(seq(|es|, i requires 0 <= i < |es| => Depth(es[i])))
  }

  lemma ChildrenShallower(v: Value)
    ensures v.Node? ==> forall i :: 0 <= i < |v.fields| ==> Depth(v.fields[i].value) < Depth(v)
    ensures v.Arr? ==> forall i :: 0 <= i < |v.elems| ==> Depth(v.elems[i]) < Depth(v)
  {
    match v
    case Leaf(_, _) =>
    case Node(fs) =>
      var ds := seq(|fs|, i requires 0 <= i < |fs| => Depth(fs[i].value));
      forall i | 0 <= i < |fs| ensures Depth(fs[i].value) < Depth(v) {
        assert ds[i] == Depth(fs[i].value);
      }
    case Arr(es) =>
      var ds := seq(|es|, i requires 0 <= i < |es| => Depth(es[i]));
      forall i | 0 <= i < |es| ensures Depth(es[i]) < Depth(v) {
        assert ds[i] == Depth(es[i]);
      }
  }

  lemma DepthBound(v: Value, k: nat)
    requires v.Node? ==> forall i :: 0 <= i < |v.fields| ==> Depth(v.fields[i].value) <= k
    requires v.Arr? ==> forall i :: 0 <= i < |v.elems| ==> Depth(v.elems[i]) <= k
    ensures Depth(v) <= k + 1
  {
    match v
    case Leaf(_, _) =>
    case Node(fs) =>
      var ds := seq(|fs|, i requires 0 <= i < |fs| => Depth(fs[i].value));
      assert forall i :: 0 <= i < |ds| ==> ds[i] <= k;
    case Arr(es) =>
      var ds := seq(|es|, i requires 0 <= i < |es| => Depth(es[i]));
      assert forall i :: 0 <= i < |ds| ==> ds[i] <= k;
  }

  /**
   * Setting `arraySize` on the target: elements below the new size are kept, and each
   * slot added at the end starts as a copy of the last existing element (of the matching
   * source element when the target was empty).
   */
  function Resize(te: seq<Value>, se: seq<Value>): (r: seq<Value>)
    ensures |r| == |se|
    ensures forall i :: 0 <= i < |se| && i < |te| ==> r[i] == te[i]
    ensures forall i :: |te| <= i < |se| ==> r[i] == if |te| > 0 then te[|te| - 1] else se[i]
  {
    seq(|se|, i requires 0 <= i < |se| => if i < |te| then te[i] else if |te| > 0 then te[|te| - 1] else se[i])
  }

  /**
   * The leaf copy: a source of a handled property type gives its value to a target of
   * the same type; a Generic source (or any type the switch does not handle) leaves the
   * target as it was, and so does a target of another type, whose setter refuses the value.
   */
  function CopyPropertyValueTo(s: Value, t: Value): (r: Value)
    requires s.Leaf?
    ensures Copyable(s.kind) && t.Leaf? && t.kind == s.kind ==> r == s
    ensures !Copyable(s.kind) || !t.Leaf? || t.kind != s.kind ==> r == t
  {
    if Copyable(s.kind) && t.Leaf? && t.kind == s.kind then Leaf(t.kind, s.payload) else t
  }

  /**
   * The deep copy CopyPropertyTo(source, target), as the value the target holds afterwards.
   * An array is resized to the source's length and copied element by element; a nested
   * record has each source child copied into the target child of the same name; a leaf
   * is copied by CopyPropertyValueTo.
   */
  function Copy(s: Value, t: Value): (r: Value)
    ensures s.Arr? && t.Arr? ==> r.Arr? && |r.elems| == |s.elems|
    ensures s.Arr? && t.Arr? ==>
      forall i :: 0 <= i < |s.elems| ==> r.elems[i] == Copy(s.elems[i], Resize(t.elems, s.elems)[i])
    ensures s.Arr? && !t.Arr? ==> r == t
    ensures s.Leaf? ==> r == CopyPropertyValueTo(s, t)
    ensures r.Leaf? == t.Leaf? && r.Node? == t.Node? && r.Arr? == t.Arr?
    ensures t.Node? ==> Names(r.fields) == Names(t.fields)
    decreases s, 2
  {
    match s
    case Arr(se) =>
      if t.Arr? then
        var rt := Resize(t.elems, se);
        Arr(seq(|se|, i requires 0 <= i < |se| => Copy(se[i], rt[i])))
      else t
    case Node(sf) => CopyFields(s, |sf|, t)
    case Leaf(_, _) => CopyPropertyValueTo(s, t)
  }

  /** The target after the first `n` children of the nested source record have been copied. */
  function CopyFields(s: Value, n: nat, t: Value): (r: Value)
    requires s.Node? && n <= |s.fields|
    ensures r.Leaf? == t.Leaf? && r.Node? == t.Node? && r.Arr? == t.Arr?
    ensures !t.Node? ==> r == t
    ensures t.Node? ==> Names(r.fields) == Names(t.fields)
    decreases s, 1, n
  {
    if n == 0 then t else CopyChild(s, n - 1, CopyFields(s, n - 1, t))
  }

  /** Copying the source's child number `k` into the target child of the same name, if any. */
  function CopyChild(s: Value, k: nat, acc: Value): (r: Value)
    requires s.Node? && k < |s.fields|
    ensures r.Leaf? == acc.Leaf? && r.Node? == acc.Node? && r.Arr? == acc.Arr?
    ensures !acc.Node? ==> r == acc
    ensures acc.Node? ==> Names(r.fields) == Names(acc.fields)
    decreases s, 0
  {
    var f := s.fields[k];
    if acc.Node? then
      var j := FieldIndex(acc.fields, f.name);
      if j < 0 then acc
      else
        var r := Node(acc.fields[j := acc.fields[j].(value := Copy(f.value, acc.fields[j].value))]);
        assert Names(r.fields) == Names(acc.fields);
        r
    else acc
  }

  /**
   * What one target child becomes when the children `sf` of a nested source are copied
   * onto it: the source child of the same name, if any, is copied into it.
   */
  function CopiedChild(sf: seq<Field>, tf: Field): (r: Field)
    ensures r.name == tf.name
  {
    var k := FieldIndex(sf, tf.name);
    if k < 0 then tf else tf.(value := Copy(sf[k].value, tf.value))
  }

  lemma FieldIndexSnoc(fs: seq<Field>, n: nat, x: string)
    requires 0 < n <= |fs|
    ensures FieldIndex(fs[..n], x) ==
      if FieldIndex(fs[..n - 1], x) >= 0 then FieldIndex(fs[..n - 1], x)
      else if fs[n - 1].name == x then n - 1 else -1
  {
    var a, b := FieldIndex(fs[..n], x), FieldIndex(fs[..n - 1], x);
    assert forall i :: 0 <= i < n - 1 ==> fs[..n][i] == fs[..n - 1][i];
    if b >= 0 {
      assert fs[..n][b].name == x;
    }
  }

  /** `r` is target `t` with every child replaced by what copying the source children `sf` makes of it. */
  predicate ChildrenCopied(sf: seq<Field>, t: Value, r: Value)
    requires t.Node?
  {
    r.Node? && |r.fields| == |t.fields| &&
    forall j :: 0 <= j < |t.fields| ==> r.fields[j] == CopiedChild(sf, t.fields[j])
  }

  lemma {:induction false} CopyFieldsAt(s: Value, n: nat, t: Value)
    requires s.Node? && n <= |s.fields| && UniqueNames(s.fields)
    requires t.Node? && UniqueNames(t.fields)
    ensures ChildrenCopied(s.fields[..n], t, CopyFields(s, n, t))
  {
    if n == 0 {
      CopyNoFields(s, t);
    } else {
      CopyFieldsAt(s, n - 1, t);
      var acc := CopyFields(s, n - 1, t);
      SameNamesUnique(acc.fields, t.fields);
      CopyStep(s, n - 1, t, acc);
    }
  }

  /** Before any source child is copied, every target child is as it was. */
  lemma CopyNoFields(s: Value, t: Value)
    requires s.Node? && t.Node?
    ensures ChildrenCopied(s.fields[..0], t, CopyFields(s, 0, t))
  {
    forall j | 0 <= j < |t.fields| ensures t.fields[j] == CopiedChild(s.fields[..0], t.fields[j]) {
      assert FieldIndex(s.fields[..0], t.fields[j].name) == -1;
    }
  }

  /** Copying source child `k` extends the copied prefix of the source by one child. */
  lemma CopyStep(s: Value, k: nat, t: Value, acc: Value)
    requires s.Node? && k < |s.fields| && UniqueNames(s.fields) && t.Node?
    requires acc.Node? && UniqueNames(acc.fields) && ChildrenCopied(s.fields[..k], t, acc)
    ensures ChildrenCopied(s.fields[..k + 1], t, CopyChild(s, k, acc))
  {
    forall j | 0 <= j < |t.fields| ensures CopyChild(s, k, acc).fields[j] == CopiedChild(s.fields[..k + 1], t.fields[j]) {
      CopyChildAt(s, k, acc, t.fields[j], j);
    }
  }

  /**
   * One step of the nested copy: target child `j`, which so far holds what copying the
   * first `k` source children made of `tj`, then holds what copying the first `k + 1` makes.
   */
  lemma CopyChildAt(s: Value, k: nat, acc: Value, tj: Field, j: nat)
    requires s.Node? && k < |s.fields| && UniqueNames(s.fields) && acc.Node? && UniqueNames(acc.fields)
    requires j < |acc.fields| && acc.fields[j] == CopiedChild(s.fields[..k], tj)
    ensures CopyChild(s, k, acc).Node? && |CopyChild(s, k, acc).fields| == |acc.fields|
    ensures CopyChild(s, k, acc).fields[j] == CopiedChild(s.fields[..k + 1], tj)
  {
    var f := s.fields[k];
    var j0 := FieldIndex(acc.fields, f.name);
    FieldIndexSnoc(s.fields, k + 1, tj.name);
    assert s.fields[..k + 1][..k] == s.fields[..k];
    assert acc.fields[j].name == tj.name;
    if j == j0 {
      assert forall i :: 0 <= i < k ==> s.fields[..k][i].name == s.fields[i].name != f.name;
      assert FieldIndex(s.fields[..k], tj.name) == -1;
      assert s.fields[..k + 1][k] == f;
    } else if FieldIndex(s.fields[..k], tj.name) >= 0 {
      var i := FieldIndex(s.fields[..k], tj.name);
      assert s.fields[..k + 1][i] == s.fields[..k][i];
    } else {
      assert tj.name != f.name;
    }
  }

  lemma SameNamesUnique(a: seq<Field>, b: seq<Field>)
    requires Names(a) == Names(b) && UniqueNames(b)
    ensures UniqueNames(a)
  {
    forall i, j | 0 <= i < j < |a| ensures a[i].name != a[j].name {
      assert a[i].name == Names(b)[i] && a[j].name == Names(b)[j];
    }
  }

  /**
   * Copying a nested record whose children (on both sides) have distinct names replaces
   * exactly those target children whose name the source has, each by the copy of the
   * source child of that name; every other target child is left as it was.
   */
  lemma CopyNode(s: Value, t: Value)
    requires s.Node? && UniqueNames(s.fields)
    requires t.Node? && UniqueNames(t.fields)
    ensures Copy(s, t).Node? && |Copy(s, t).fields| == |t.fields|
    ensures forall j :: 0 <= j < |t.fields| ==> Copy(s, t).fields[j] == CopiedChild(s.fields, t.fields[j])
  {
    CopyFieldsAt(s, |s.fields|, t);
    assert s.fields[..|s.fields|] == s.fields;
  }

  /** Copying between well-formed trees yields a well-formed tree. */
  lemma {:induction false} CopyWellFormed(s: Value, t: Value)
    requires WellFormed(s) && WellFormed(t)
    ensures WellFormed(Copy(s, t))
    decreases s
  {
    var r := Copy(s, t);
    match s
    case Arr(se) =>
      if t.Arr? {
        var rt := Resize(t.elems, se);
        forall i | 0 <= i < |se| ensures WellFormed(r.elems[i]) {
          CopyWellFormed(se[i], rt[i]);
        }
      }
    case Node(sf) =>
      if t.Node? {
        CopyNode(s, t);
        assert Names(r.fields) == Names(t.fields);
        forall j | 0 <= j < |r.fields| ensures WellFormed(r.fields[j].value) {
          var k := FieldIndex(sf, t.fields[j].name);
          if k >= 0 {
            CopyWellFormed(sf[k].value, t.fields[j].value);
          }
        }
      }
    case Leaf(_, _) =>
  }

  /** Copying the same source a second time changes nothing. */
  lemma {:induction false} CopyIdempotent(s: Value, t: Value)
    requires WellFormed(s) && WellFormed(t)
    ensures Copy(s, Copy(s, t)) == Copy(s, t)
    decreases s
  {
    var r := Copy(s, t);
    CopyWellFormed(s, t);
    match s
    case Arr(se) =>
      if t.Arr? {
        var rt := Resize(t.elems, se);
        var r2 := Copy(s, r);
        assert Resize(r.elems, se) == r.elems;
        forall i | 0 <= i < |se| ensures r2.elems[i] == r.elems[i] {
          CopyIdempotent(se[i], rt[i]);
        }
      }
    case Node(sf) =>
      if t.Node? {
        CopyNode(s, t);
        assert Names(r.fields) == Names(t.fields);
        CopyNode(s, r);
        var r2 := Copy(s, r);
        forall j | 0 <= j < |t.fields| ensures r2.fields[j] == r.fields[j] {
          var k := FieldIndex(sf, t.fields[j].name);
          assert r.fields[j].name == t.fields[j].name;
          if k >= 0 {
            CopyIdempotent(sf[k].value, t.fields[j].value);
          }
        }
      }
    case Leaf(_, _) =>
  }

  /** Copying a well-formed tree onto itself changes nothing. */
  lemma {:induction false} CopySelf(s: Value)
    requires WellFormed(s)
    ensures Copy(s, s) == s
    decreases s
  {
    match s
    case Arr(se) =>
      assert Resize(se, se) == se;
      forall i | 0 <= i < |se| ensures Copy(s, s).elems[i] == se[i] {
        CopySelf(se[i]);
      }
    case Node(sf) =>
      CopyNode(s, s);
      forall j | 0 <= j < |sf| ensures Copy(s, s).fields[j] == sf[j] {
        assert FieldIndex(sf, sf[j].name) == j;
        CopySelf(sf[j].value);
      }
    case Leaf(_, _) =>
  }

  /** A copy is no deeper than the deeper of its source and its target. */
  lemma {:induction false} CopyDepth(s: Value, t: Value)
    requires WellFormed(s) && WellFormed(t)
    ensures Depth(Copy(s, t)) <= Max(Depth(s), Depth(t))
    decreases s
  {
    var r := Copy(s, t);
    ChildrenShallower(s);
    ChildrenShallower(t);
    match s
    case Arr(se) =>
      if t.Arr? {
        var rt := Resize(t.elems, se);
        forall i | 0 <= i < |se| ensures Depth(r.elems[i]) <= Max(Depth(s), Depth(t)) - 1 {
          CopyDepth(se[i], rt[i]);
        }
        DepthBound(r, Max(Depth(s), Depth(t)) - 1);
      }
    case Node(sf) =>
      if t.Node? {
        CopyNode(s, t);
        forall j | 0 <= j < |r.fields| ensures Depth(r.fields[j].value) <= Max(Depth(s), Depth(t)) - 1 {
          var k := FieldIndex(sf, t.fields[j].name);
          if k >= 0 {
            CopyDepth(sf[k].value, t.fields[j].value);
          }
        }
        DepthBound(r, Max(Depth(s), Depth(t)) - 1);
      }
    case Leaf(_, _) =>
  }

  /**
   * CopyPropertyTo, step by step as the source does it: an array target is resized and
   * copied element by element, a nested record child by child, a leaf by value.
   */
  method CopyPropertyTo(s: Value, t: Value) returns (r: Value)
    ensures r == Copy(s, t)
    decreases s, 1
  {
    if s.Arr? {
      r := CopyArrayTo(s, t);
    } else if s.Node? {
      r := CopyChildrenTo(s, t);
    } else {
      r := CopyPropertyValueTo(s, t);
    }
  }

  /** The array branch: `target.arraySize = source.arraySize`, then one copy per element. */
  method CopyArrayTo(s: Value, t: Value) returns (r: Value)
    requires s.Arr?
    ensures r == Copy(s, t)
    decreases s, 0
  {
    if !t.Arr? {
      return t;
    }
    var se := s.elems;
    var rt := Resize(t.elems, se);
    var elems := rt;
    var i := 0;
    while i < |elems|
      invariant |elems| == |se| && 0 <= i <= |se|
      invariant forall k :: 0 <= k < i ==> elems[k] == Copy(se[k], rt[k])
      invariant forall k :: i <= k < |se| ==> elems[k] == rt[k]
    {
      var e := CopyPropertyTo(se[i], elems[i]);
      elems := elems[i := e];
      i := i + 1;
    }
    assert elems == seq(|se|, k requires 0 <= k < |se| => Copy(se[k], rt[k]));
    r := Arr(elems);
  }

  /**
   * The nested-record branch: each source child is copied into the target child found
   * under the child's path relative to the source, i.e. under the same name.
   */
  method CopyChildrenTo(s: Value, t: Value) returns (r: Value)
    requires s.Node?
    ensures r == Copy(s, t)
    decreases s, 0
  {
    var sf := s.fields;
    r := t;
    var k := 0;
    while k < |sf|
      invariant 0 <= k <= |sf|
      invariant r == CopyFields(s, k, t)
    {
      var f := sf[k];
      if r.Node? {
        var j := FieldIndex(r.fields, f.name);
        if j >= 0 {
          var c := CopyPropertyTo(f.value, r.fields[j].value);
          r := Node(r.fields[j := r.fields[j].(value := c)]);
        }
      }
      k := k + 1;
    }
  }
}
