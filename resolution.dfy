/**
 * Resolution of one record against its prototype (UpdateProperty / UpdateLocalProperty in
 * ComponentInfoPrototypeDrawer.cs): a pre-order walk over the record's `defaults` tree in
 * which every field that is not flagged as overridden is overwritten by the field at the
 * same path in the prototype's record, before the walk descends into its children.
 */
module Resolution {
  import opened Common
  import opened PropertyValues
  import opened PropertyPaths
  import opened Overrides

  /**
   * What the walk over one record reads: the record's own property path, its override
   * list, and the `defaults` tree of its prototype (None when the record has no prototype).
   * The prototype's tree is read from its stored state, as a fresh SerializedObject does.
   */
  datatype Context = Context(basePath: string, modified: seq<string>, prototypeDefaults: Option<Value>)

  predicate ContextWellFormed(ctx: Context)
  {
    ctx.prototypeDefaults.Some? ==> WellFormed(ctx.prototypeDefaults.value)
  }

  /** The propertyPath of the field reached by `steps` below the record's `defaults`. */
  function FieldPath(ctx: Context, steps: seq<Step>): string
  {
    PathOf(ctx.basePath, [Name("defaults")] + steps)
  }

  /**
   * PrototypeProperty: the prototype's field at the same steps below its `defaults`, found
   * under the rewritten path (see PrototypePathOfField); None without a prototype or when
   * the prototype has no such field.
   */
  function PrototypeProperty(ctx: Context, steps: seq<Step>): (r: Option<Value>)
    ensures ctx.prototypeDefaults.None? ==> r.None?
    ensures r.Some? && ContextWellFormed(ctx) ==> WellFormed(r.value)
  {
    if ctx.prototypeDefaults.None? then None else Lookup(ctx.prototypeDefaults.value, steps)
  }

  function OptDepth(pv: Option<Value>): nat
  {
    if pv.None? then 0 else Depth(pv.value)
  }

  /** The prototype property of a child is the child of the prototype property. */
  lemma PrototypePropertySnoc(ctx: Context, steps: seq<Step>, st: Step)
    ensures PrototypeProperty(ctx, steps + [st]) == ChildOf(PrototypeProperty(ctx, steps), st)
    ensures PrototypeProperty(ctx, steps + [st]).Some? ==>
      OptDepth(PrototypeProperty(ctx, steps + [st])) < OptDepth(PrototypeProperty(ctx, steps))
  {
    if ctx.prototypeDefaults.Some? {
      LookupSnoc(ctx.prototypeDefaults.value, steps, st);
    }
  }

  /** The termination measure of the walk decreases from a field to each of its children. */
  lemma ChildMeasure(ctx: Context, steps: seq<Step>, st: Step, child: Value, v: Value)
    requires Depth(child) < Depth(v)
    ensures Max(Depth(child), OptDepth(PrototypeProperty(ctx, steps + [st])))
      < Max(Depth(v), OptDepth(PrototypeProperty(ctx, steps)))
  {
    PrototypePropertySnoc(ctx, steps, st);
  }

  lemma ChildPrototypeProperties(ctx: Context, steps: seq<Step>)
    ensures forall st :: PrototypeProperty(ctx, steps + [st]) == ChildOf(PrototypeProperty(ctx, steps), st)
    ensures forall st :: PrototypeProperty(ctx, steps + [st]).Some? ==>
      OptDepth(PrototypeProperty(ctx, steps + [st])) < OptDepth(PrototypeProperty(ctx, steps))
  {
    forall st {
      PrototypePropertySnoc(ctx, steps, st);
    }
  }

  /** A field is inherited when the prototype has it and its path is not in the override list. */
  predicate Inherited(ctx: Context, steps: seq<Step>)
  {
    !IsPropertyModified(ctx.modified, FieldPath(ctx, steps)) && PrototypeProperty(ctx, steps).Some?
  }

  /** The field at `steps`, holding `v`, after UpdateLocalProperty has visited it. */
  function ResolveAt(ctx: Context, steps: seq<Step>, v: Value): (r: Value)
    requires ContextWellFormed(ctx) && WellFormed(v)
    ensures WellFormed(r)
    ensures r.Leaf? == v.Leaf? && r.Node? == v.Node? && r.Arr? == v.Arr?
    ensures v.Node? ==> Names(r.fields) == Names(v.fields)
    decreases Max(Depth(v), OptDepth(PrototypeProperty(ctx, steps))), 1
  {
    if Inherited(ctx, steps) then
      var p := PrototypeProperty(ctx, steps).value;
      CopyWellFormed(p, v);
      CopyDepth(p, v);
      ResolveChildren(ctx, steps, Copy(p, v))
    else
      ResolveChildren(ctx, steps, v)
  }

  /** The field after each of its children has been visited in turn. */
  function ResolveChildren(ctx: Context, steps: seq<Step>, v: Value): (r: Value)
    requires ContextWellFormed(ctx) && WellFormed(v)
    ensures WellFormed(r)
    ensures r.Leaf? == v.Leaf? && r.Node? == v.Node? && r.Arr? == v.Arr?
    ensures v.Node? ==> Names(r.fields) == Names(v.fields)
    ensures v.Arr? ==> |r.elems| == |v.elems|
    decreases Max(Depth(v), OptDepth(PrototypeProperty(ctx, steps))), 0
  {
    ChildrenShallower(v);
    ChildPrototypeProperties(ctx, steps);
    match v
    case Leaf(_, _) => v
    case Node(fs) =>
      var r := Node(seq(|fs|, i requires 0 <= i < |fs| =>
        Field(fs[i].name, ResolveAt(ctx, steps + [Name(fs[i].name)], fs[i].value))));
      assert Names(r.fields) == Names(fs);
      r
    case Arr(es) =>
      Arr(seq(|es|, i requires 0 <= i < |es| => ResolveAt(ctx, steps + [Index(i)], es[i])))
  }

  /** UpdateProperty's walk: the children of `defaults` are visited; `defaults` itself is not. */
  function Resolve(ctx: Context, defaults: Value): (r: Value)
    requires ContextWellFormed(ctx) && WellFormed(defaults)
    ensures WellFormed(r)
    ensures r.Node? == defaults.Node? && (defaults.Node? ==> Names(r.fields) == Names(defaults.fields))
  {
    ResolveChildren(ctx, [], defaults)
  }

  /** Without a prototype property (no prototype, or no such field) nothing is copied. */
  lemma {:induction false} NoPrototypeUnchanged(ctx: Context, steps: seq<Step>, v: Value)
    requires ContextWellFormed(ctx) && WellFormed(v)
    requires PrototypeProperty(ctx, steps).None?
    ensures ResolveAt(ctx, steps, v) == v
    ensures ResolveChildren(ctx, steps, v) == v
    decreases v
  {
    match v
    case Leaf(_, _) =>
    case Node(fs) =>
      var r := ResolveChildren(ctx, steps, v);
      forall i | 0 <= i < |fs| ensures r.fields[i] == fs[i] {
        PrototypePropertySnoc(ctx, steps, Name(fs[i].name));
        NoPrototypeUnchanged(ctx, steps + [Name(fs[i].name)], fs[i].value);
      }
    case Arr(es) =>
      var r := ResolveChildren(ctx, steps, v);
      forall i | 0 <= i < |es| ensures r.elems[i] == es[i] {
        PrototypePropertySnoc(ctx, steps, Index(i));
        NoPrototypeUnchanged(ctx, steps + [Index(i)], es[i]);
      }
  }

  /**
   * A field that already holds the copy of its prototype field is left as it is, whatever
   * the flags of its descendants say: each descendant either has no prototype field or
   * already holds the copy of it.
   */
  lemma {:induction false} CopyIsResolved(ctx: Context, steps: seq<Step>, p: Value, y: Value)
    requires ContextWellFormed(ctx) && WellFormed(y)
    requires PrototypeProperty(ctx, steps) == Some(p)
    ensures WellFormed(Copy(p, y))
    ensures ResolveChildren(ctx, steps, Copy(p, y)) == Copy(p, y)
    ensures ResolveAt(ctx, steps, Copy(p, y)) == Copy(p, y)
    decreases p, 1
  {
    var x := Copy(p, y);
    CopyWellFormed(p, y);
    if x.Node? {
      CopyIsResolvedFields(ctx, steps, p, y);
    } else if x.Arr? {
      CopyIsResolvedElems(ctx, steps, p, y);
    }
    if Inherited(ctx, steps) {
      CopyIdempotent(p, y);
      assert ResolveAt(ctx, steps, x) == ResolveChildren(ctx, steps, Copy(p, x));
    } else {
      assert ResolveAt(ctx, steps, x) == ResolveChildren(ctx, steps, x);
    }
  }

  lemma {:induction false} CopyIsResolvedFields(ctx: Context, steps: seq<Step>, p: Value, y: Value)
    requires ContextWellFormed(ctx) && WellFormed(y)
    requires PrototypeProperty(ctx, steps) == Some(p) && Copy(p, y).Node?
    ensures WellFormed(Copy(p, y)) && ResolveChildren(ctx, steps, Copy(p, y)) == Copy(p, y)
    decreases p, 0
  {
    var x := Copy(p, y);
    CopyWellFormed(p, y);
    var xs := x.fields;
    var rc := ResolveChildren(ctx, steps, x);
    forall j | 0 <= j < |xs| ensures rc.fields[j] == xs[j] {
      var name := xs[j].name;
      PrototypePropertySnoc(ctx, steps, Name(name));
      if p.Node? && y.Node? {
        CopyNode(p, y);
        var k := FieldIndex(p.fields, name);
        assert y.fields[j].name == name;
        if k < 0 {
          NoPrototypeUnchanged(ctx, steps + [Name(name)], xs[j].value);
        } else {
          CopyIsResolved(ctx, steps + [Name(name)], p.fields[k].value, y.fields[j].value);
        }
      } else {
        NoPrototypeUnchanged(ctx, steps + [Name(name)], xs[j].value);
      }
    }
    assert rc.fields == xs;
  }

  lemma {:induction false} CopyIsResolvedElems(ctx: Context, steps: seq<Step>, p: Value, y: Value)
    requires ContextWellFormed(ctx) && WellFormed(y)
    requires PrototypeProperty(ctx, steps) == Some(p) && Copy(p, y).Arr?
    ensures WellFormed(Copy(p, y)) && ResolveChildren(ctx, steps, Copy(p, y)) == Copy(p, y)
    decreases p, 0
  {
    var x := Copy(p, y);
    CopyWellFormed(p, y);
    var xe := x.elems;
    var rc := ResolveChildren(ctx, steps, x);
    forall i | 0 <= i < |xe| ensures rc.elems[i] == xe[i] {
      PrototypePropertySnoc(ctx, steps, Index(i));
      if p.Arr? {
        var rt := Resize(y.elems, p.elems);
        assert WellFormed(rt[i]);
        CopyIsResolved(ctx, steps + [Index(i)], p.elems[i], rt[i]);
      } else {
        NoPrototypeUnchanged(ctx, steps + [Index(i)], xe[i]);
      }
    }
    assert rc.elems == xe;
  }

  /**
   * An inherited field ends up as the copy of its prototype field: overrides flagged on
   * its sub-fields do not protect them once the field itself is inherited.
   */
  lemma InheritedIsCopy(ctx: Context, steps: seq<Step>, v: Value)
    requires ContextWellFormed(ctx) && WellFormed(v)
    requires Inherited(ctx, steps)
    ensures ResolveAt(ctx, steps, v) == Copy(PrototypeProperty(ctx, steps).value, v)
  {
    CopyIsResolved(ctx, steps, PrototypeProperty(ctx, steps).value, v);
  }

  /**
   * An overridden leaf keeps its own value. Leaf payloads are opaque here; kinds whose
   * value Unity exposes through sub-properties (vectors, colours, rectangles, quaternions,
   * bounds) are leaves in the model, so this does not hold for them in the source.
   */
  lemma OverriddenLeafKept(ctx: Context, steps: seq<Step>, v: Value)
    requires ContextWellFormed(ctx) && v.Leaf?
    requires IsPropertyModified(ctx.modified, FieldPath(ctx, steps))
    ensures ResolveAt(ctx, steps, v) == v
  {
  }

  /**
   * A flagged array keeps its own length. Each element the prototype's array also has and
   * that is not flagged itself becomes the copy of the prototype's element; an element past
   * the prototype's length keeps its value.
   */
  lemma FlaggedArrayElements(ctx: Context, steps: seq<Step>, v: Value, p: Value)
    requires ContextWellFormed(ctx) && WellFormed(v) && v.Arr?
    requires IsPropertyModified(ctx.modified, FieldPath(ctx, steps))
    requires PrototypeProperty(ctx, steps) == Some(p) && p.Arr?
    ensures ResolveAt(ctx, steps, v).Arr? && |ResolveAt(ctx, steps, v).elems| == |v.elems|
    ensures forall i :: 0 <= i < |v.elems| && i < |p.elems| && !IsPropertyModified(ctx.modified, FieldPath(ctx, steps + [Index(i)])) ==>
      ResolveAt(ctx, steps, v).elems[i] == Copy(p.elems[i], v.elems[i])
    ensures forall i :: |p.elems| <= i < |v.elems| ==> ResolveAt(ctx, steps, v).elems[i] == v.elems[i]
  {
    var r := ResolveAt(ctx, steps, v);
    assert r == ResolveChildren(ctx, steps, v);
    forall i | 0 <= i < |v.elems|
      ensures i < |p.elems| && !IsPropertyModified(ctx.modified, FieldPath(ctx, steps + [Index(i)])) ==>
        r.elems[i] == Copy(p.elems[i], v.elems[i])
      ensures |p.elems| <= i ==> r.elems[i] == v.elems[i]
    {
      PrototypePropertySnoc(ctx, steps, Index(i));
      assert r.elems[i] == ResolveAt(ctx, steps + [Index(i)], v.elems[i]);
      if i < |p.elems| && !IsPropertyModified(ctx.modified, FieldPath(ctx, steps + [Index(i)])) {
        InheritedIsCopy(ctx, steps + [Index(i)], v.elems[i]);
      } else if |p.elems| <= i {
        NoPrototypeUnchanged(ctx, steps + [Index(i)], v.elems[i]);
      }
    }
  }

  /** Visiting a field a second time against the same prototype changes nothing. */
  lemma {:induction false} ResolveIdempotent(ctx: Context, steps: seq<Step>, v: Value)
    requires ContextWellFormed(ctx) && WellFormed(v)
    ensures ResolveAt(ctx, steps, ResolveAt(ctx, steps, v)) == ResolveAt(ctx, steps, v)
    decreases Max(Depth(v), OptDepth(PrototypeProperty(ctx, steps))), 1
  {
    if Inherited(ctx, steps) {
      var p := PrototypeProperty(ctx, steps).value;
      CopyIsResolved(ctx, steps, p, v);
      assert ResolveAt(ctx, steps, v) == Copy(p, v);
    } else {
      ResolveChildrenIdempotent(ctx, steps, v);
      var r := ResolveChildren(ctx, steps, v);
      assert ResolveAt(ctx, steps, v) == r;
      assert ResolveAt(ctx, steps, r) == ResolveChildren(ctx, steps, r);
    }
  }

  /** Visiting the children of a field a second time changes nothing. */
  lemma {:induction false} ResolveChildrenIdempotent(ctx: Context, steps: seq<Step>, v: Value)
    requires ContextWellFormed(ctx) && WellFormed(v)
    ensures ResolveChildren(ctx, steps, ResolveChildren(ctx, steps, v)) == ResolveChildren(ctx, steps, v)
    decreases Max(Depth(v), OptDepth(PrototypeProperty(ctx, steps))), 0
  {
    ChildrenShallower(v);
    var r := ResolveChildren(ctx, steps, v);
    var r2 := ResolveChildren(ctx, steps, r);
    match v
    case Leaf(_, _) =>
    case Node(fs) =>
      forall i | 0 <= i < |fs| ensures r2.fields[i] == r.fields[i] {
        PrototypePropertySnoc(ctx, steps, Name(fs[i].name));
        assert r.fields[i].name == fs[i].name;
        ResolveIdempotent(ctx, steps + [Name(fs[i].name)], fs[i].value);
      }
      assert r2.fields == r.fields;
    case Arr(es) =>
      forall i | 0 <= i < |es| ensures r2.elems[i] == r.elems[i] {
        PrototypePropertySnoc(ctx, steps, Index(i));
        ResolveIdempotent(ctx, steps + [Index(i)], es[i]);
      }
      assert r2.elems == r.elems;
  }

  /** A record resolved once is settled: resolving it again against the same prototype is a no-op. */
  lemma ResolveSettles(ctx: Context, defaults: Value)
    requires ContextWellFormed(ctx) && WellFormed(defaults)
    ensures Resolve(ctx, Resolve(ctx, defaults)) == Resolve(ctx, defaults)
  {
    ResolveChildrenIdempotent(ctx, [], defaults);
  }

  /** A record without a prototype keeps all of its fields. */
  lemma ResolveWithoutPrototype(ctx: Context, defaults: Value)
    requires WellFormed(defaults) && ctx.prototypeDefaults.None?
    ensures Resolve(ctx, defaults) == defaults
  {
    NoPrototypeUnchanged(ctx, [], defaults);
  }

  /**
   * UpdateLocalProperty: decide whether the field is overridden (flagged, or without a
   * prototype field), write that decision back into the override list when there is a
   * prototype field, copy the prototype field when it is inherited, then visit the
   * children. The override list comes back as it was: the flag written is the one read.
   */
  method UpdateLocalProperty(ctx: Context, steps: seq<Step>, v: Value) returns (r: Value, modified: seq<string>)
    requires ContextWellFormed(ctx) && WellFormed(v)
    ensures r == ResolveAt(ctx, steps, v)
    ensures modified == ctx.modified
    decreases Max(Depth(v), OptDepth(PrototypeProperty(ctx, steps))), 2
  {
    var path := FieldPath(ctx, steps);
    var prototypeProperty := PrototypeProperty(ctx, steps);
    var isModified := IsPropertyModified(ctx.modified, path);
    isModified := isModified || prototypeProperty.None?;
    modified := ctx.modified;
    if prototypeProperty.Some? {
      modified := SetPropertyModified(modified, path, isModified);
    }
    r := v;
    if !isModified {
      CopyWellFormed(prototypeProperty.value, v);
      CopyDepth(prototypeProperty.value, v);
      r := CopyPropertyTo(prototypeProperty.value, r);
    }
    r, modified := UpdateChildren(ctx.(modified := modified), steps, r);
  }

  /**
   * The loop over the children of a visited field; each child's visit may rewrite the
   * override list, and the next child sees the list as that visit left it.
   */
  method UpdateChildren(ctx: Context, steps: seq<Step>, v: Value) returns (r: Value, modified: seq<string>)
    requires ContextWellFormed(ctx) && WellFormed(v)
    ensures r == ResolveChildren(ctx, steps, v)
    ensures modified == ctx.modified
    decreases Max(Depth(v), OptDepth(PrototypeProperty(ctx, steps))), 1
  {
    match v
    case Leaf(_, _) =>
      r, modified := v, ctx.modified;
    case Node(fs) =>
      r, modified := UpdateFields(ctx, steps, v);
    case Arr(es) =>
      r, modified := UpdateElements(ctx, steps, v);
  }

  /** The loop over the named children of a nested record. */
  method UpdateFields(ctx: Context, steps: seq<Step>, v: Value) returns (r: Value, modified: seq<string>)
    requires ContextWellFormed(ctx) && WellFormed(v) && v.Node?
    ensures r == ResolveChildren(ctx, steps, v)
    ensures modified == ctx.modified
    decreases Max(Depth(v), OptDepth(PrototypeProperty(ctx, steps))), 0
  {
    ChildrenShallower(v);
    modified := ctx.modified;
    var fs := v.fields;
    var out := fs;
    var i := 0;
    while i < |fs|
      invariant 0 <= i <= |fs| && |out| == |fs|
      invariant modified == ctx.modified
      invariant forall k :: 0 <= k < i ==>
        out[k] == Field(fs[k].name, ResolveAt(ctx, steps + [Name(fs[k].name)], fs[k].value))
      invariant forall k :: i <= k < |fs| ==> out[k] == fs[k]
    {
      ChildMeasure(ctx, steps, Name(fs[i].name), fs[i].value, v);
      var c;
      c, modified := UpdateLocalProperty(ctx.(modified := modified), steps + [Name(fs[i].name)], fs[i].value);
      out := out[i := Field(fs[i].name, c)];
      i := i + 1;
    }
    r := Node(out);
  }

  /** The loop over the elements of an array. */
  method UpdateElements(ctx: Context, steps: seq<Step>, v: Value) returns (r: Value, modified: seq<string>)
    requires ContextWellFormed(ctx) && WellFormed(v) && v.Arr?
    ensures r == ResolveChildren(ctx, steps, v)
    ensures modified == ctx.modified
    decreases Max(Depth(v), OptDepth(PrototypeProperty(ctx, steps))), 0
  {
    ChildrenShallower(v);
    modified := ctx.modified;
    var es := v.elems;
    var out := es;
    var i := 0;
    while i < |es|
      invariant 0 <= i <= |es| && |out| == |es|
      invariant modified == ctx.modified
      invariant forall k :: 0 <= k < i ==> out[k] == ResolveAt(ctx, steps + [Index(k)], es[k])
      invariant forall k :: i <= k < |es| ==> out[k] == es[k]
    {
      ChildMeasure(ctx, steps, Index(i), es[i], v);
      var c;
      c, modified := UpdateLocalProperty(ctx.(modified := modified), steps + [Index(i)], es[i]);
      out := out[i := c];
      i := i + 1;
    }
    r := Arr(out);
  }
}
