/**
 * The records and the drawer's operations on them (ComponentInfoPrototypeDrawer.cs):
 * resolving a stored record against its prototype (UpdateProperty) and checking that a
 * newly chosen prototype does not close a cycle (IsValidParent).
 */
module PrototypeDrawer {
  import opened Common
  import opened PropertyValues
  import opened Resolution

  /**
   * A ComponentInfoPrototype record as stored in its owner: whether the owner is an asset
   * (or a component in a scene), the record's own property path in the owner, the
   * reference to the asset named as prototype, the override list and the field tree.
   * Records are identified by their owner; an asset's id is the id of its record.
   */
  datatype Record = Record(ownerIsAsset: bool, basePath: string, prototype: Option<nat>,
                           modified: seq<string>, defaults: Value)

  /** Every stored record, by owner. */
  type Table = map<nat, Record>

  predicate TableWellFormed(t: Table)
  {
    forall id {:trigger WellFormed(t[id].defaults)} :: id in t ==> WellFormed(t[id].defaults)
  }

  /** An object reference as Unity reads it: null when the referenced object does not exist. */
  function Live(t: Table, ref: Option<nat>): (r: Option<nat>)
    ensures r.Some? <==> ref.Some? && ref.value in t
    ensures r.Some? ==> r == ref
  {
    if ref.Some? && ref.value in t then ref else None
  }

  /** `Prototype`: the record embedded in the asset this record names, when that asset exists. */
  function PrototypeOf(t: Table, id: nat): (r: Option<nat>)
    ensures r.Some? <==> id in t && t[id].prototype.Some? && t[id].prototype.value in t
    ensures r.Some? ==> r == t[id].prototype
  {
    if id in t then Live(t, t[id].prototype) else None
  }

  /** What resolving record `id` reads: its own path and flags, and its prototype's stored fields. */
  function ContextOf(t: Table, id: nat): (ctx: Context)
    requires id in t
    ensures TableWellFormed(t) ==> ContextWellFormed(ctx)
    ensures ctx.prototypeDefaults.Some? <==> PrototypeOf(t, id).Some?
    ensures PrototypeOf(t, id).Some? ==> ctx.prototypeDefaults == Some(t[PrototypeOf(t, id).value].defaults)
    ensures ctx.modified == t[id].modified && ctx.basePath == t[id].basePath
  {
    var prototypeDefaults := match PrototypeOf(t, id)
      case None => None
      case Some(p) => Some(t[p].defaults);
    Context(t[id].basePath, t[id].modified, prototypeDefaults)
  }

  /** A record is settled when resolving it against its prototype would change nothing. */
  predicate Settled(t: Table, id: nat)
    requires TableWellFormed(t) && id in t
  {
    Resolve(ContextOf(t, id), t[id].defaults) == t[id].defaults
  }

  /**
   * The table after UpdateProperty on record `id`: the record's field tree is resolved
   * against the stored state of its prototype and written back; a record that does not
   * exist (a null target object) leaves the table as it is.
   */
  function Resolved(t: Table, id: nat): (r: Table)
    requires TableWellFormed(t)
    ensures TableWellFormed(r) && r.Keys == t.Keys
    ensures forall k :: k in t && k != id ==> r[k] == t[k]
    ensures id in t ==> r[id].ownerIsAsset == t[id].ownerIsAsset && r[id].basePath == t[id].basePath
    ensures id in t ==> r[id].prototype == t[id].prototype && r[id].modified == t[id].modified
    ensures id !in t ==> r == t
  {
    if id !in t then t
    else t[id := t[id].(defaults := Resolve(ContextOf(t, id), t[id].defaults))]
  }

  /** A record without a prototype is left as it is by UpdateProperty. */
  lemma ResolvedWithoutPrototype(t: Table, id: nat)
    requires TableWellFormed(t) && PrototypeOf(t, id).None?
    ensures Resolved(t, id) == t
  {
    if id in t {
      ResolveWithoutPrototype(ContextOf(t, id), t[id].defaults);
      assert t[id].(defaults := t[id].defaults) == t[id];
    }
  }

  /** After UpdateProperty a record whose prototype is another record is settled. */
  lemma ResolvedSettles(t: Table, id: nat)
    requires TableWellFormed(t) && id in t && PrototypeOf(t, id) != Some(id)
    ensures Settled(Resolved(t, id), id)
  {
    var r := Resolved(t, id);
    assert ContextOf(r, id) == ContextOf(t, id);
    ResolveSettles(ContextOf(t, id), t[id].defaults);
  }

  /** Whether a record is settled depends only on that record and its prototype's record. */
  lemma SettledFrame(t: Table, u: Table, id: nat)
    requires TableWellFormed(t) && TableWellFormed(u) && id in t && t.Keys == u.Keys
    requires u[id] == t[id]
    requires PrototypeOf(t, id).Some? ==> u[PrototypeOf(t, id).value] == t[PrototypeOf(t, id).value]
    ensures Settled(u, id) == Settled(t, id)
  {
    assert ContextOf(u, id) == ContextOf(t, id);
  }

  class RecordTable {
    var records: Table

    constructor (records: Table)
      ensures this.records == records
    {
      this.records := records;
    }

    /**
     * UpdateProperty: nothing for a record that does not exist; otherwise each child of
     * `defaults` is visited by UpdateLocalProperty on the record's working copy, which is
     * then written back (ApplyModifiedProperties).
     */
    method UpdateProperty(id: nat)
      requires TableWellFormed(records)
      modifies this
      ensures records == Resolved(old(records), id)
    {
      if id !in records {
        return;
      }
      var rec := records[id];
      var ctx := ContextOf(records, id);
      var defaults, modified := UpdateChildren(ctx, [], rec.defaults);
      records := records[id := rec.(defaults := defaults, modified := modified)];
    }
  }

  /**
   * The prototype chain from a reference: the referenced asset, then the asset its record
   * names, and so on; Chain(t, ref, k) is the k-th asset along it (None once it reaches null).
   */
  function Chain(t: Table, ref: Option<nat>, k: nat): (r: Option<nat>)
    ensures r.Some? ==> r.value in t
  {
    if k == 0 then Live(t, ref)
    else match Chain(t, ref, k - 1)
      case None => None
      case Some(a) => Live(t, t[a].prototype)
  }

  /** The chain reaches null. */
  ghost predicate Ends(t: Table, ref: Option<nat>)
  {
    exists n: nat :: Chain(t, ref, n).None?
  }

  /** The chain passes through the asset `self`. */
  ghost predicate Reaches(t: Table, ref: Option<nat>, self: nat)
  {
    exists n: nat :: Chain(t, ref, n) == Some(self)
  }

  /** No prototype chain of the stored records is circular. */
  ghost predicate Acyclic(t: Table)
  {
    forall a :: a in t ==> Ends(t, Some(a))
  }

  lemma {:induction false} NullStays(t: Table, ref: Option<nat>, j: nat, k: nat)
    requires j <= k && Chain(t, ref, j).None?
    ensures Chain(t, ref, k).None?
    decreases k - j
  {
    if j < k {
      NullStays(t, ref, j + 1, k);
    }
  }

  /**
   * IsValidParent: a record owned by a component accepts any prototype; a record owned by
   * an asset rejects the asset itself and any asset whose prototype chain leads back to
   * it, and accepts once the chain reaches null. The walk ends only on a chain that
   * reaches null or the asset itself.
   */
  method IsValidParent(t: Table, self: nat, candidate: Option<nat>) returns (ok: bool)
    requires self in t
    requires t[self].ownerIsAsset ==> Ends(t, candidate) || Reaches(t, candidate, self)
    ensures ok <==> !t[self].ownerIsAsset || !Reaches(t, candidate, self)
  {
    if !t[self].ownerIsAsset {
      return true;
    }
    var currentParent := Live(t, candidate);
    if currentParent == Some(self) {
      assert Chain(t, candidate, 0) == Some(self);
      return false;
    }
    ghost var k: nat := 0;
    ghost var n: nat :| Chain(t, candidate, n).None? || Chain(t, candidate, n) == Some(self);
    while currentParent.Some?
      invariant currentParent == Chain(t, candidate, k)
      invariant forall j: nat :: j <= k ==> Chain(t, candidate, j) != Some(self)
      invariant currentParent.Some? ==> k < n
      decreases n - k
    {
      currentParent := Live(t, t[currentParent.value].prototype);
      k := k + 1;
      if currentParent == Some(self) {
        assert Chain(t, candidate, k) == Some(self);
        return false;
      }
    }
    forall m: nat ensures Chain(t, candidate, m) != Some(self) {
      if m > k {
        NullStays(t, candidate, k, m);
      }
    }
    return true;
  }

  /** The first position at which a chain reaches `self`. */
  lemma {:induction false} FirstReach(t: Table, ref: Option<nat>, self: nat, j: nat) returns (j0: nat)
    requires Chain(t, ref, j) == Some(self)
    ensures j0 <= j && Chain(t, ref, j0) == Some(self)
    ensures forall i: nat :: i < j0 ==> Chain(t, ref, i) != Some(self)
  {
    if i: nat :| i < j && Chain(t, ref, i) == Some(self) {
      j0 := FirstReach(t, ref, self, i);
    } else {
      j0 := j;
    }
  }

  /** Past an asset, a chain continues as the chain from that asset's own prototype reference. */
  lemma {:induction false} ChainShift(t: Table, ref: Option<nat>, i: nat, a: nat, m: nat)
    requires Chain(t, ref, i) == Some(a)
    ensures Chain(t, ref, i + 1 + m) == Chain(t, t[a].prototype, m)
  {
    if m > 0 {
      ChainShift(t, ref, i, a, m - 1);
    }
  }

  /** Changing the prototype of `self` does not change a chain before that chain reaches `self`. */
  lemma {:induction false} ChainAgrees(t: Table, self: nat, candidate: Option<nat>, ref: Option<nat>, m: nat)
    requires self in t
    requires forall j: nat :: j < m ==> Chain(t, ref, j) != Some(self)
    ensures Chain(t[self := t[self].(prototype := candidate)], ref, m) == Chain(t, ref, m)
  {
    if m > 0 {
      ChainAgrees(t, self, candidate, ref, m - 1);
    }
  }

  /**
   * Accepting a prototype that IsValidParent approves for an asset keeps every prototype
   * chain finite: a chain that used to reach null still does, and one that passes through
   * the asset continues along the candidate's chain, which never comes back to it.
   */
  lemma AcceptedPrototypeKeepsAcyclic(t: Table, self: nat, candidate: Option<nat>)
    requires self in t && Acyclic(t)
    requires !Reaches(t, candidate, self)
    ensures Acyclic(t[self := t[self].(prototype := candidate)])
  {
    var u := t[self := t[self].(prototype := candidate)];
    var nc: nat;
    if candidate.Some? && candidate.value in t {
      nc :| Chain(t, Some(candidate.value), nc).None?;
      assert Chain(t, candidate, nc) == Chain(t, Some(candidate.value), nc) by {
        ChainSameStart(t, candidate, Some(candidate.value), nc);
      }
    } else {
      nc := 0;
    }
    ChainAgrees(t, self, candidate, candidate, nc);
    forall a | a in u ensures Ends(u, Some(a)) {
      var na: nat :| Chain(t, Some(a), na).None?;
      if Reaches(t, Some(a), self) {
        var j :| Chain(t, Some(a), j) == Some(self);
        var j0 := FirstReach(t, Some(a), self, j);
        ChainAgrees(t, self, candidate, Some(a), j0);
        ChainShift(u, Some(a), j0, self, nc);
        assert Chain(u, Some(a), j0 + 1 + nc).None?;
      } else {
        ChainAgrees(t, self, candidate, Some(a), na);
        assert Chain(u, Some(a), na).None?;
      }
    }
  }

  /** Two references that Unity reads as the same object start the same chain. */
  lemma {:induction false} ChainSameStart(t: Table, r1: Option<nat>, r2: Option<nat>, m: nat)
    requires Live(t, r1) == Live(t, r2)
    ensures Chain(t, r1, m) == Chain(t, r2, m)
  {
    if m > 0 {
      ChainSameStart(t, r1, r2, m - 1);
    }
  }

  /** Chains depend only on which records exist and the prototypes they name. */
  lemma {:induction false} ChainsFollowPrototypes(t: Table, u: Table, ref: Option<nat>, m: nat)
    requires u.Keys == t.Keys && forall id :: id in t ==> u[id].prototype == t[id].prototype
    ensures Chain(u, ref, m) == Chain(t, ref, m)
  {
    if m > 0 {
      ChainsFollowPrototypes(t, u, ref, m - 1);
    }
  }

  /** UpdateProperty changes no prototype, so it keeps every chain finite. */
  lemma ResolvedKeepsAcyclic(t: Table, id: nat)
    requires TableWellFormed(t) && Acyclic(t)
    ensures Acyclic(Resolved(t, id))
  {
    var u := Resolved(t, id);
    forall a | a in u ensures Ends(u, Some(a)) {
      var n: nat :| Chain(t, Some(a), n).None?;
      ChainsFollowPrototypes(t, u, Some(a), n);
    }
  }

  /**
   * The Parent field holds a ComponentInfoAsset, so every live prototype reference names a
   * record owned by an asset; a record owned by a component is never anyone's prototype.
   */
  predicate RefsNameAssets(t: Table)
  {
    forall id :: id in t && PrototypeOf(t, id).Some? ==> t[PrototypeOf(t, id).value].ownerIsAsset
  }

  /** A reference the Parent field can hold: null, missing, or an asset's record. */
  predicate NamesAsset(t: Table, ref: Option<nat>)
  {
    Live(t, ref).Some? ==> t[ref.value].ownerIsAsset
  }

  /** When references name assets, every asset along a chain from such a reference is owned by an asset. */
  lemma {:induction false} ChainNamesAssets(t: Table, ref: Option<nat>, k: nat)
    requires RefsNameAssets(t) && NamesAsset(t, ref)
    ensures Chain(t, ref, k).Some? ==> t[Chain(t, ref, k).value].ownerIsAsset
  {
    if k > 0 {
      ChainNamesAssets(t, ref, k - 1);
      match Chain(t, ref, k - 1)
      case None =>
      case Some(a) =>
        assert PrototypeOf(t, a) == Live(t, t[a].prototype);
    }
  }

  /**
   * A component's record may take any asset as prototype without closing a cycle: no chain
   * from an asset reference ever comes back to a component, so the check IsValidParent
   * skips is never needed.
   */
  lemma ComponentChoiceKeepsAcyclic(t: Table, self: nat, candidate: Option<nat>)
    requires self in t && !t[self].ownerIsAsset && Acyclic(t)
    requires RefsNameAssets(t) && NamesAsset(t, candidate)
    ensures !Reaches(t, candidate, self)
    ensures Acyclic(t[self := t[self].(prototype := candidate)])
  {
    forall n: nat ensures Chain(t, candidate, n) != Some(self) {
      ChainNamesAssets(t, candidate, n);
    }
    AcceptedPrototypeKeepsAcyclic(t, self, candidate);
  }

  /** Writing a reference the Parent field can hold keeps every reference naming an asset. */
  lemma PrototypeWriteNamesAssets(t: Table, self: nat, candidate: Option<nat>)
    requires self in t && RefsNameAssets(t) && NamesAsset(t, candidate)
    ensures RefsNameAssets(t[self := t[self].(prototype := candidate)])
  {
    var u := t[self := t[self].(prototype := candidate)];
    forall id | id in u && PrototypeOf(u, id).Some? ensures u[PrototypeOf(u, id).value].ownerIsAsset {
      if id != self {
        assert PrototypeOf(u, id) == PrototypeOf(t, id);
      }
    }
  }

  /** UpdateProperty changes neither owners nor prototypes. */
  lemma ResolvedNamesAssets(t: Table, id: nat)
    requires TableWellFormed(t) && RefsNameAssets(t)
    ensures RefsNameAssets(Resolved(t, id))
  {
    var u := Resolved(t, id);
    forall k | k in u && PrototypeOf(u, k).Some? ensures u[PrototypeOf(u, k).value].ownerIsAsset {
      assert PrototypeOf(u, k) == PrototypeOf(t, k);
    }
  }
}
