/**
 * A worked propagation over a three-record chain. R0 has no prototype and has just had
 * its `x` changed to 20. R1 names R0 and overrides `x` with 99. R2 names R1, overrides
 * nothing and holds a stale 10. Propagating from R0 leaves R1's `x` at 99, since it is
 * flagged, and sets R2's `x` to 99, since R2 inherits from R1 and not from R0.
 *
 * A second chain shows that the field values a rebuild leaves depend on the order in which
 * the records are registered.
 */
module Scenario {
  import opened Common
  import opened PropertyValues
  import opened PropertyPaths
  import opened Resolution
  import opened PrototypeDrawer
  import opened Hierarchy
  import opened HierarchyRebuild

  /** A field tree with the single integer field `x`. */
  function Tree(x: int): Value
  {
    Node([Field("x", Leaf(Integer, x))])
  }

  /** An asset's record at property path `info`. */
  function Rec(prototype: Option<nat>, modified: seq<string>, x: int): Record
  {
    Record(true, "info", prototype, modified, Tree(x))
  }

  /** The stored records: R0 after its change, R1 overriding `x`, R2 not yet resolved against R1. */
  const Records: Table := map[0 := Rec(None, [], 20), 1 := Rec(Some(0), ["info.defaults.x"], 99), 2 := Rec(Some(1), [], 10)]

  /** The index of the chain: R0 is the root, R1 its child and R2 the child of R1. */
  const Index: Links := Links({0, 1, 2}, {0}, map[], map[1 := 0, 2 := 1], map[0 := {1}, 1 := {2}, 2 := {}])

  lemma ChainLinked()
    ensures Linked(Index)
  {
  }

  /** R1 and R2 are below R0, and every record below R0 names its parent node as prototype. */
  lemma ChainCoherent()
    ensures Linked(Index) && Coherent(Index, Records, 0)
    ensures 0 !in Below(Index, 0) && 1 in Below(Index, 0) && 2 in Below(Index, 0)
  {
    ChainLinked();
    forall d | Descends(Index, d, 0) ensures d in Records && PrototypeOf(Records, d) == Hierarchy.Step(Index, d) {
      ParentUnder(Index, d, 0);
    }
    if Descends(Index, 0, 0) {
      ParentUnder(Index, 0, 0);
    }
    assert Up(Index, 1, 1) == Some(0);
    assert Up(Index, 2, 1) == Some(1) && Up(Index, 2, 2) == Some(0);
  }

  /** The path of `x` in a record at `info`. */
  lemma PathOfX(ctx: Context)
    requires ctx.basePath == "info"
    ensures FieldPath(ctx, [] + [Name("x")]) == "info.defaults.x"
  {
    var steps := [Name("defaults")] + ([] + [Name("x")]);
    assert steps[1..] == [Name("x")];
    assert StepsPath([Name("x")]) == ".x";
    assert StepsPath(steps) == ".defaults" + ".x";
  }

  /** Resolving `Tree` against a context changes nothing when its `x` field stays 99. */
  lemma TreeResolved(ctx: Context)
    requires ContextWellFormed(ctx)
    requires ResolveAt(ctx, [] + [Name("x")], Leaf(Integer, 99)) == Leaf(Integer, 99)
    ensures Resolve(ctx, Tree(99)) == Tree(99)
  {
    var r := Resolve(ctx, Tree(99));
    assert |r.fields| == 1 && r.fields[0] == Field("x", Leaf(Integer, 99));
    assert r.fields == Tree(99).fields;
  }

  /** R1's flagged `x` keeps its stored 99 whatever R0 now holds. */
  lemma OverrideKept(u: Table)
    requires TableWellFormed(u) && 1 in u && SameRecord(u[1], Records[1])
    ensures Resolve(ContextOf(u, 1), Tree(99)) == Tree(99)
  {
    var ctx := ContextOf(u, 1);
    PathOfX(ctx);
    OverriddenLeafKept(ctx, [] + [Name("x")], Leaf(Integer, 99));
    TreeResolved(ctx);
  }

  /** A record at `info` that overrides nothing takes its prototype's `x`, whatever its own. */
  lemma InheritX(ctx: Context, a: int, b: int)
    requires ctx.basePath == "info" && ctx.modified == [] && ctx.prototypeDefaults == Some(Tree(a))
    ensures ContextWellFormed(ctx) && Resolve(ctx, Tree(b)) == Tree(a)
  {
    var steps := [] + [Name("x")];
    PrototypePropertySnoc(ctx, [], Name("x"));
    assert PrototypeProperty(ctx, steps) == Some(Leaf(Integer, a));
    PathOfX(ctx);
    InheritedIsCopy(ctx, steps, Leaf(Integer, b));
    var r := Resolve(ctx, Tree(b));
    assert |r.fields| == 1 && r.fields[0] == Field("x", Leaf(Integer, a));
  }

  /** R2's unflagged `x` is recomputed from R1's 99, replacing its stale 10. */
  lemma InheritedFromR1(u: Table)
    requires TableWellFormed(u) && 1 in u && 2 in u && SameRecord(u[2], Records[2]) && u[1].defaults == Tree(99)
    ensures Resolve(ContextOf(u, 2), Records[2].defaults) == Tree(99)
  {
    assert PrototypeOf(u, 2) == Some(1);
    InheritX(ContextOf(u, 2), 99, 10);
  }

  /**
   * After any propagation from R0 that keeps UpdateChildrenSerialization's promise, R0 is
   * untouched and both `x` fields below it read 99.
   */
  lemma ChainPropagation(u: Table)
    requires Propagated(Index, Records, u, 0)
    ensures 0 in u && u[0] == Records[0]
    ensures 1 in u && 2 in u && u[1].defaults == Tree(99) && u[2].defaults == Tree(99)
    ensures Records[2].defaults != u[2].defaults
  {
    ChainCoherent();
    PropagatedBelow(Index, Records, u, 0);
    assert 1 in ResolvedIds(Records, u) && 2 in ResolvedIds(Records, u);
    OverrideKept(u);
    InheritedFromR1(u);
  }

  /** A chain whose records were never resolved: R1 names R0 and R2 names R1, nothing flagged. */
  predicate FreshChain(t: Table)
  {
    && 0 in t && 1 in t && 2 in t
    && t[0] == Rec(None, [], 1) && t[1] == Rec(Some(0), [], 2) && t[2] == Rec(Some(1), [], 3)
  }

  /** Such a chain, with nothing else stored. */
  const Fresh: Table := map[0 := Rec(None, [], 1), 1 := Rec(Some(0), [], 2), 2 := Rec(Some(1), [], 3)]

  lemma FreshIsChain()
    ensures FreshChain(Fresh) && TableWellFormed(Fresh)
  {
  }

  /** Registering R0, then R1, then R2 resolves each record after its prototype: R2 ends with R0's 1. */
  lemma ForwardRebuild(t: Table)
    requires FreshChain(t) && TableWellFormed(t)
    ensures RegisterAll(Empty, t, [0, 1, 2]).1[2].defaults == Tree(1)
  {
    RegisterAllRecords(Empty, t, [0, 1, 2]);
    ForwardRecords(t);
    InheritX(ContextOf(t, 1), 1, 2);
    var t1 := Resolved(t, 1);
    assert PrototypeOf(t1, 2) == Some(1);
    InheritX(ContextOf(t1, 2), 1, 3);
  }

  /** Registering R2 first resolves it against R1's stored 2, and nothing resolves it again. */
  lemma BackwardRebuild(t: Table)
    requires FreshChain(t) && TableWellFormed(t)
    ensures RegisterAll(Empty, t, [2, 1, 0]).1[2].defaults == Tree(2)
  {
    RegisterAllRecords(Empty, t, [2, 1, 0]);
    BackwardRecords(t);
    InheritX(ContextOf(t, 2), 2, 3);
  }

  /**
   * The field values a rebuild leaves depend on the order in which the records are
   * registered: over the fresh chain, R2 ends with 1 in one order and 2 in the other.
   */
  lemma RebuildOrderMatters(t: Table)
    requires FreshChain(t) && TableWellFormed(t)
    ensures RegisterAll(Empty, t, [0, 1, 2]).1 != RegisterAll(Empty, t, [2, 1, 0]).1
  {
    ForwardRebuild(t);
    BackwardRebuild(t);
    assert Tree(1) != Tree(2) by {
      assert Tree(1).fields[0].value.payload != Tree(2).fields[0].value.payload;
    }
  }
}
