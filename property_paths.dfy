/**
 * Property paths: how a serialized property is addressed inside its record, and the
 * rewrite that turns a property's path into the path of the same field on the prototype
 * (PrototypeProperty in ComponentInfoPrototypeDrawer.cs).
 */
module PropertyPaths {
  import opened Common
  import opened PropertyValues

  /** One step down the field tree: a named child or an array element. */
  datatype Step = Name(name: string) | Index(i: nat)

  /** How Unity spells one step in a propertyPath: `.name` or `.Array.data[i]`. */
  function StepPath(st: Step): string
  {
    match st
    case Name(n) => "." + n
    case Index(i) => ".Array.data[" + Digits(i) + "]"
  }

  function StepsPath(steps: seq<Step>): string
  {
    if |steps| == 0 then "" else StepPath(steps[0]) + StepsPath(steps[1..])
  }

  /** The propertyPath of the property reached from the property at `base` by `steps`. */
  function PathOf(base: string, steps: seq<Step>): (p: string)
    ensures |base| <= |p| && p[..|base|] == base
  {
    base + StepsPath(steps)
  }

  lemma StepsPathAppend(a: seq<Step>, b: seq<Step>)
    ensures StepsPath(a + b) == StepsPath(a) + StepsPath(b)
  {
    if |a| > 0 {
      assert (a + b)[1..] == a[1..] + b;
      StepsPathAppend(a[1..], b);
      assert StepsPath(a + b) == StepPath(a[0]) + StepsPath(a[1..] + b);
    } else {
      assert a + b == b;
    }
  }

  /** The path of a child is the parent's path followed by the child's step. */
  lemma PathOfChild(base: string, steps: seq<Step>, st: Step)
    ensures PathOf(base, steps + [st]) == PathOf(base, steps) + StepPath(st)
  {
    StepsPathAppend(steps, [st]);
    assert StepsPath([st]) == StepPath(st) + StepsPath([]);
  }

  /**
   * PrototypeProperty's path rewrite: with no prototype there is no prototype property;
   * otherwise the property's path loses the base path and the dot after it, and gains the
   * prefix "prototype." that addresses the record embedded in the prototype asset.
   */
  function PrototypePath(prototype: Option<nat>, basePath: string, propertyPath: string): (r: Option<string>)
    requires prototype.Some? ==> |basePath| + 1 <= |propertyPath|
    ensures r.None? <==> prototype.None?
    ensures r.Some? ==> |r.value| == |"prototype."| + |propertyPath| - |basePath| - 1
  {
    if prototype.None? then None
    else Some("prototype." + propertyPath[|basePath| + 1..])
  }

  /**
   * For a property below the base property, the rewritten path addresses the same field
   * below the prototype's record: the steps are kept and only the base is exchanged.
   */
  lemma {:induction false} PrototypePathOfField(p: nat, basePath: string, steps: seq<Step>)
    requires |steps| > 0 && steps[0].Name?
    ensures PrototypePath(Some(p), basePath, PathOf(basePath, steps)) == Some(PathOf("prototype", steps))
  {
    var rest := StepsPath(steps[1..]);
    assert StepsPath(steps) == "." + steps[0].name + rest;
    assert PathOf(basePath, steps)[|basePath| + 1..] == steps[0].name + rest;
    assert "prototype." + (steps[0].name + rest) == "prototype" + ("." + steps[0].name + rest);
  }

  /** The child that a step addresses, if the tree has it (FindPropertyRelative / FindProperty). */
  function ChildAt(v: Value, st: Step): (r: Option<Value>)
    ensures st.Index? ==> (r.Some? <==> v.Arr? && st.i < |v.elems|)
    ensures st.Index? && r.Some? ==> r.value == v.elems[st.i]
    ensures st.Name? ==> (r.Some? <==> v.Node? && st.name in Names(v.fields))
    ensures st.Name? && r.Some? ==> exists j :: 0 <= j < |v.fields| && v.fields[j] == Field(st.name, r.value)
    ensures r.Some? ==> Depth(r.value) < Depth(v)
    ensures r.Some? && WellFormed(v) ==> WellFormed(r.value)
  {
    ChildrenShallower(v);
    match st
    case Name(n) =>
      if v.Node? then
        var j := FieldIndex(v.fields, n);
        if j < 0 then None else Some(v.fields[j].value)
      else None
    case Index(i) =>
      if v.Arr? && i < |v.elems| then Some(v.elems[i]) else None
  }

  /** FindProperty: the property at `steps` below `v`, or None when the path does not exist. */
  function Lookup(v: Value, steps: seq<Step>): (r: Option<Value>)
    ensures r.Some? ==> Depth(r.value) <= Depth(v)
    ensures r.Some? && WellFormed(v) ==> WellFormed(r.value)
  {
    if |steps| == 0 then Some(v)
    else match ChildAt(v, steps[0])
      case None => None
      case Some(c) => Lookup(c, steps[1..])
  }

  function ChildOf(pv: Option<Value>, st: Step): Option<Value>
  {
    if pv.None? then None else ChildAt(pv.value, st)
  }

  /** Looking up a path one step at a time from the root agrees with looking it up at once. */
  lemma {:induction false} LookupSnoc(v: Value, steps: seq<Step>, st: Step)
    ensures Lookup(v, steps + [st]) == ChildOf(Lookup(v, steps), st)
  {
    if |steps| > 0 {
      assert (steps + [st])[1..] == steps[1..] + [st];
      match ChildAt(v, steps[0])
      case None =>
      case Some(c) => LookupSnoc(c, steps[1..], st);
    } else {
      assert Lookup(v, [st]) == ChildAt(v, st);
    }
  }
}
