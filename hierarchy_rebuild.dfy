/**
 * What RebuildNodes leaves behind. Starting from an empty index and registering a list of
 * records in any order, every registered record is linked to its prototype's node when
 * that prototype is registered, waits for it when it is not, and is a root when it has
 * none. Parent links, children sets and roots therefore depend only on which records were
 * registered, never on the order.
 */
module HierarchyRebuild {
  import opened Common
  import opened Resolution
  import opened PrototypeDrawer
  import opened Hierarchy

  /**
   * The index holds exactly the links the prototypes of its registered records call for:
   * a record links to its registered prototype, is a root when it has no prototype, and
   * sits in the waiting list of an unregistered prototype; waiting lists name only records
   * of that prototype and are never empty.
   */
  ghost predicate Built(s: Links, t: Table)
  {
    Valid(s) && ParentsBuilt(s, t) && RootsBuilt(s, t) && Waiters(s, t) && WaitingBuilt(s, t)
  }

  /** A record has a parent exactly when its prototype is registered, and the parent is that prototype. */
  ghost predicate ParentsBuilt(s: Links, t: Table)
  {
    && (forall n :: n in s.parent <==> n in s.nodes && PrototypeOf(t, n).Some? && PrototypeOf(t, n).value in s.nodes)
    && (forall n :: n in s.parent ==> PrototypeOf(t, n) == Some(s.parent[n]))
  }

  /** The roots are the registered records without a prototype. */
  ghost predicate RootsBuilt(s: Links, t: Table)
  {
    forall n :: n in s.roots <==> n in s.nodes && PrototypeOf(t, n).None?
  }

  /** Every waiting list names only records whose prototype is the record waited for. */
  ghost predicate Waiters(s: Links, t: Table)
  {
    forall k, i :: k in s.waiting && 0 <= i < |s.waiting[k]| ==> PrototypeOf(t, s.waiting[k][i]) == Some(k)
  }

  /** Waiting lists are never empty, and every record with an unregistered prototype waits for it. */
  ghost predicate WaitingBuilt(s: Links, t: Table)
  {
    && (forall k :: k in s.waiting ==> |s.waiting[k]| > 0)
    && (forall n :: n in s.nodes && PrototypeOf(t, n).Some? && PrototypeOf(t, n).value !in s.nodes ==>
          PrototypeOf(t, n).value in s.waiting && n in s.waiting[PrototypeOf(t, n).value])
  }

  /** In linked parent and children maps, the children of `q` are the nodes naming `q` as parent, other than `q`. */
  lemma ChildrenFromParent(s: Links)
    requires Linked(s)
    ensures forall q, c :: q in s.children ==> (c in s.children[q] <==> c in s.parent && s.parent[c] == q && c != q)
  {
  }

  /** The links depend on the records only through their prototypes. */
  lemma BuiltSamePrototypes(s: Links, t: Table, u: Table)
    requires Built(s, t) && forall k :: PrototypeOf(t, k) == PrototypeOf(u, k)
    ensures Built(s, u)
  {
  }

  /**
   * Relinking, in order, nodes that all name the registered `r` as prototype: each of them
   * ends with `r` as parent and leaves the roots; nothing else changes.
   */
  lemma {:induction false} DrainEffect(s: Links, t: Table, r: nat, list: seq<nat>)
    requires Linked(s) && s.nodes <= s.children.Keys && r in s.nodes
    requires forall i :: 0 <= i < |list| ==> list[i] in s.children && PrototypeOf(t, list[i]) == Some(r)
    ensures var d := Drain(s, t, list);
      && d.nodes == s.nodes && d.waiting == s.waiting
      && (forall n :: n in d.roots <==> n in s.roots && n !in list)
      && (forall n :: n in d.parent <==> n in s.parent || n in list)
      && (forall n :: n in d.parent ==> d.parent[n] == if n in list then r else s.parent[n])
    decreases |list|
  {
    if |list| > 0 {
      var n := list[0];
      RelinkEffect(s, r, n);
      UpdateParentKeepsLinked(s, Some(r), n);
      var x := UpdateParentSpec(s, Some(r), n);
      assert forall m :: m in x.roots <==> m in s.roots && m != n;
      DrainEffect(x, t, r, list[1..]);
      assert forall m :: m in list <==> m == n || m in list[1..];
    }
  }

  /**
   * A new record's node after its constructor has linked it and it has been entered in the
   * node table: linked to a registered prototype, a root without one, queued for an
   * unregistered one (itself included); every other node is as it was.
   */
  lemma RegisteredEffect(s: Links, t: Table, r: nat)
    requires Valid(s) && r !in s.nodes
    ensures var g := Registered(s, t, r);
      var pr := PrototypeOf(t, r);
      && g.nodes == s.nodes + {r}
      && (forall n :: n in g.roots <==> n in s.roots || (n == r && pr.None?))
      && (forall n :: n in g.parent <==> n in s.parent || (n == r && pr.Some? && pr.value in s.nodes))
      && (forall n :: n in g.parent ==> g.parent[n] == if n == r then pr.value else s.parent[n])
      && (forall k :: k in g.waiting <==> k in s.waiting || (pr == Some(k) && k !in s.nodes))
      && (forall k :: k in g.waiting ==>
            g.waiting[k] == (if k in s.waiting then s.waiting[k] else []) + (if pr == Some(k) && k !in s.nodes then [r] else []))
  {
    var c := Created(s, r);
    match PrototypeOf(t, r)
    case None =>
      DetachEffect(c, r);
    case Some(p) =>
      if p in s.nodes {
        RelinkEffect(c, p, r);
      }
  }

  /** Registering a record that already has a node leaves a built index built. */
  lemma RegisterKnownBuilds(s: Links, t: Table, r: nat)
    requires Built(s, t) && r in s.nodes
    ensures Built(Register(s, t, r), t)
  {
    UpdateParentKeepsLinked(s, PrototypeOf(t, r), r);
    match PrototypeOf(t, r)
    case None =>
      assert s.parent - {r} == s.parent && s.roots + {r} == s.roots;
      assert Register(s, t, r) == s;
    case Some(p) =>
      if p !in s.nodes {
        QueueEffect(s, p, r);
      }
  }

  /** Relinking the nodes waiting for the newly registered `r`, then dropping their waiting entry. */
  lemma DrainedEffect(g: Links, t: Table, r: nat)
    requires Linked(g) && g.children.Keys == g.nodes && r in g.nodes
    requires forall k :: k in g.waiting ==> k !in g.nodes - {r}
    requires r in g.waiting ==> forall i :: 0 <= i < |g.waiting[r]| ==> PrototypeOf(t, g.waiting[r][i]) == Some(r)
    ensures var d := Drained(g, t, r);
      var list := if r in g.waiting then g.waiting[r] else [];
      && d.nodes == g.nodes && d.waiting == g.waiting - {r}
      && (forall n :: n in d.roots <==> n in g.roots && n !in list)
      && (forall n :: n in d.parent <==> n in g.parent || n in list)
      && (forall n :: n in d.parent ==> d.parent[n] == if n in list then r else g.parent[n])
  {
    if r in g.waiting {
      DrainEffect(g, t, r, g.waiting[r]);
    }
  }

  /** The records relinked when `r` is registered: those waiting for it, and `r` itself when it names itself. */
  lemma RegisterNewList(s: Links, t: Table, r: nat)
    requires Valid(s) && Waiters(s, t) && r !in s.nodes
    ensures var g := Registered(s, t, r);
      var list := if r in g.waiting then g.waiting[r] else [];
      && (forall i :: 0 <= i < |list| ==> PrototypeOf(t, list[i]) == Some(r))
      && (forall n :: n in list <==> (r in s.waiting && n in s.waiting[r]) || (n == r && PrototypeOf(t, r) == Some(r)))
  {
    var g := Registered(s, t, r);
    RegisteredEffect(s, t, r);
    var list := if r in g.waiting then g.waiting[r] else [];
    var old_list := if r in s.waiting then s.waiting[r] else [];
    assert list == old_list + (if PrototypeOf(t, r) == Some(r) then [r] else []);
    forall i | 0 <= i < |list| ensures PrototypeOf(t, list[i]) == Some(r) {
      if i < |old_list| {
        assert list[i] == s.waiting[r][i];
      }
    }
  }

  /** Registering a new record keeps waiting lists whose records all wait for their key. */
  lemma RegisterNewWaiting(s: Links, t: Table, r: nat)
    requires Valid(s) && Waiters(s, t) && r !in s.nodes
    ensures var d := Register(s, t, r);
      var pr := PrototypeOf(t, r);
      && Valid(d) && d.nodes == s.nodes + {r}
      && (forall k :: k in d.waiting <==> (k in s.waiting && k != r) || (pr == Some(k) && k !in d.nodes))
      && (forall k :: k in d.waiting ==>
            d.waiting[k] == (if k in s.waiting then s.waiting[k] else []) + (if pr == Some(k) then [r] else []))
  {
    RegisteredEffect(s, t, r);
    RegisterNewList(s, t, r);
    DrainedEffect(Registered(s, t, r), t, r);
  }

  /** The records waiting for `k` are registered and name `k` as prototype. */
  lemma WaitingMembers(s: Links, t: Table, k: nat)
    requires Valid(s) && Waiters(s, t)
    ensures forall n :: k in s.waiting && n in s.waiting[k] ==> n in s.nodes && PrototypeOf(t, n) == Some(k)
  {
    forall n | k in s.waiting && n in s.waiting[k] ensures n in s.nodes && PrototypeOf(t, n) == Some(k) {
      var i :| 0 <= i < |s.waiting[k]| && s.waiting[k][i] == n;
    }
  }

  /**
   * The roots after registering `r`, from the roots after its constructor (`g`) and after
   * relinking the records in `list`, the ones that waited for `r` (`d`).
   */
  lemma ComposeRoots(s: Links, g: Links, d: Links, t: Table, r: nat, list: seq<nat>)
    requires forall n :: n in s.roots ==> PrototypeOf(t, n).None?
    requires forall n :: n in g.roots <==> n in s.roots || (n == r && PrototypeOf(t, r).None?)
    requires forall n :: n in list ==> PrototypeOf(t, n) == Some(r)
    requires forall n :: n in d.roots <==> n in g.roots && n !in list
    ensures forall n :: n in d.roots <==> n in s.roots || (n == r && PrototypeOf(t, r).None?)
  {
  }

  /** The parent links after registering `r`, composed in the same way. */
  lemma ComposeParents(s: Links, g: Links, d: Links, t: Table, r: nat, list: seq<nat>)
    requires r !in s.nodes
    requires forall n :: n in s.parent ==> s.parent[n] in s.nodes && PrototypeOf(t, n) == Some(s.parent[n])
    requires forall n :: n in s.nodes && PrototypeOf(t, n) == Some(r) ==> r in s.waiting && n in s.waiting[r]
    requires forall n :: r in s.waiting && n in s.waiting[r] ==> n in s.nodes && PrototypeOf(t, n) == Some(r)
    requires forall n :: n in g.parent <==> n in s.parent || (n == r && PrototypeOf(t, r).Some? && PrototypeOf(t, r).value in s.nodes)
    requires forall n :: n in g.parent ==> g.parent[n] == if n == r then PrototypeOf(t, r).value else s.parent[n]
    requires forall n :: n in list <==> (r in s.waiting && n in s.waiting[r]) || (n == r && PrototypeOf(t, r) == Some(r))
    requires forall n :: n in d.parent <==> n in g.parent || n in list
    requires forall n :: n in d.parent ==> d.parent[n] == if n in list then r else g.parent[n]
    ensures forall n :: n in d.parent <==> n in s.parent || (n in s.nodes + {r} && PrototypeOf(t, n) == Some(r))
                                           || (n == r && PrototypeOf(t, r).Some? && PrototypeOf(t, r).value in s.nodes)
    ensures forall n :: n in d.parent ==> PrototypeOf(t, n) == Some(d.parent[n])
  {
  }

  /**
   * The two stages of registering a new record `r`: `g` after its constructor has linked
   * it, and `d` after the records in `list`, those that waited for `r`, were relinked.
   */
  lemma RegisterNewStages(s: Links, t: Table, r: nat) returns (g: Links, list: seq<nat>, d: Links)
    requires Valid(s) && Waiters(s, t) && r !in s.nodes
    ensures g == Registered(s, t, r) && d == Register(s, t, r)
    ensures forall n :: n in g.roots <==> n in s.roots || (n == r && PrototypeOf(t, r).None?)
    ensures forall n :: n in g.parent <==> n in s.parent || (n == r && PrototypeOf(t, r).Some? && PrototypeOf(t, r).value in s.nodes)
    ensures forall n :: n in g.parent ==> g.parent[n] == if n == r then PrototypeOf(t, r).value else s.parent[n]
    ensures forall n :: n in list ==> PrototypeOf(t, n) == Some(r)
    ensures forall n :: n in list <==> (r in s.waiting && n in s.waiting[r]) || (n == r && PrototypeOf(t, r) == Some(r))
    ensures forall n :: n in d.roots <==> n in g.roots && n !in list
    ensures forall n :: n in d.parent <==> n in g.parent || n in list
    ensures forall n :: n in d.parent ==> d.parent[n] == if n in list then r else g.parent[n]
  {
    g := Registered(s, t, r);
    list := if r in g.waiting then g.waiting[r] else [];
    RegisteredEffect(s, t, r);
    RegisterNewList(s, t, r);
    DrainedEffect(g, t, r);
    d := Drained(g, t, r);
  }

  /** Registering a new record `r` makes it a root exactly when it has no prototype; no other root changes. */
  lemma RegisterNewRoots(s: Links, t: Table, r: nat)
    requires Valid(s) && Waiters(s, t) && r !in s.nodes
    requires forall n :: n in s.roots ==> PrototypeOf(t, n).None?
    ensures forall n :: n in Register(s, t, r).roots <==> n in s.roots || (n == r && PrototypeOf(t, r).None?)
  {
    var g, list, d := RegisterNewStages(s, t, r);
    ComposeRoots(s, g, d, t, r, list);
  }

  /**
   * Registering a new record `r`: `r` is linked as its prototype says, and every record
   * that was waiting for `r` now names it as parent.
   */
  lemma RegisterNewParents(s: Links, t: Table, r: nat)
    requires Valid(s) && Waiters(s, t) && r !in s.nodes
    requires forall n :: n in s.parent ==> PrototypeOf(t, n) == Some(s.parent[n])
    requires forall n :: n in s.nodes && PrototypeOf(t, n) == Some(r) ==> r in s.waiting && n in s.waiting[r]
    requires forall n :: r in s.waiting && n in s.waiting[r] ==> n in s.nodes && PrototypeOf(t, n) == Some(r)
    ensures var d := Register(s, t, r);
      && (forall n :: n in d.parent <==> n in s.parent || (n in s.nodes + {r} && PrototypeOf(t, n) == Some(r))
                                         || (n == r && PrototypeOf(t, r).Some? && PrototypeOf(t, r).value in s.nodes))
      && (forall n :: n in d.parent ==> PrototypeOf(t, n) == Some(d.parent[n]))
  {
    var g, list, d := RegisterNewStages(s, t, r);
    ComposeParents(s, g, d, t, r, list);
  }

  /**
   * The waiting lists after registering `r`, from those before (`s`) and after (`d`): the
   * entry for `r` is gone and `r` is queued for its unregistered prototype.
   */
  lemma ComposeWaiting(s: Links, d: Links, t: Table, r: nat)
    requires r !in s.nodes && d.nodes == s.nodes + {r}
    requires Waiters(s, t) && WaitingBuilt(s, t)
    requires forall k :: k in d.waiting <==> (k in s.waiting && k != r) || (PrototypeOf(t, r) == Some(k) && k !in d.nodes)
    requires forall k :: k in d.waiting ==>
      d.waiting[k] == (if k in s.waiting then s.waiting[k] else []) + (if PrototypeOf(t, r) == Some(k) then [r] else [])
    ensures Waiters(d, t) && WaitingBuilt(d, t)
  {
    forall k, i | k in d.waiting && 0 <= i < |d.waiting[k]| ensures PrototypeOf(t, d.waiting[k][i]) == Some(k) {
      if k in s.waiting && i < |s.waiting[k]| {
        assert d.waiting[k][i] == s.waiting[k][i];
      }
    }
    forall n | n in d.nodes && PrototypeOf(t, n).Some? && PrototypeOf(t, n).value !in d.nodes
      ensures PrototypeOf(t, n).value in d.waiting && n in d.waiting[PrototypeOf(t, n).value]
    {
      var k := PrototypeOf(t, n).value;
      if n != r {
        var i :| 0 <= i < |s.waiting[k]| && s.waiting[k][i] == n;
        assert d.waiting[k][i] == n;
      } else {
        assert d.waiting[k][|d.waiting[k]| - 1] == r;
      }
    }
  }

  /** After registering a new record, waiting lists still hold exactly the records waiting for their key. */
  lemma RegisterNewWaitingBuilt(s: Links, t: Table, r: nat)
    requires Built(s, t) && r !in s.nodes
    ensures Waiters(Register(s, t, r), t) && WaitingBuilt(Register(s, t, r), t)
  {
    RegisterNewWaiting(s, t, r);
    ComposeWaiting(s, Register(s, t, r), t, r);
  }

  /** After registering a new record, roots and parent links are still those its prototypes call for. */
  lemma RegisterNewLinksBuilt(s: Links, t: Table, r: nat)
    requires Built(s, t) && r !in s.nodes
    ensures RootsBuilt(Register(s, t, r), t) && ParentsBuilt(Register(s, t, r), t)
  {
    RegisterNewRoots(s, t, r);
    WaitingMembers(s, t, r);
    RegisterNewParents(s, t, r);
  }

  /** Registering a new record leaves a built index built. */
  lemma RegisterNewBuilds(s: Links, t: Table, r: nat)
    requires Built(s, t) && r !in s.nodes
    ensures Built(Register(s, t, r), t)
  {
    RegisterNewWaitingBuilt(s, t, r);
    RegisterNewLinksBuilt(s, t, r);
  }

  lemma RegisterBuilds(s: Links, t: Table, r: nat)
    requires Built(s, t)
    ensures Built(Register(s, t, r), t)
  {
    if r in s.nodes {
      RegisterKnownBuilds(s, t, r);
    } else {
      RegisterNewBuilds(s, t, r);
    }
  }

  /** RebuildNodes' registration loop keeps the index built, with the prototypes it started from. */
  lemma {:induction false} RegisterAllBuilds(s: Links, t: Table, ids: seq<nat>)
    requires Built(s, t) && TableWellFormed(t)
    ensures Built(RegisterAll(s, t, ids).0, t)
    decreases |ids|
  {
    if |ids| > 0 {
      var t1 := if ids[0] in s.nodes then t else Resolved(t, ids[0]);
      if ids[0] !in s.nodes {
        ResolvedSamePrototypes(t, ids[0]);
      }
      RegisterBuilds(s, t, ids[0]);
      BuiltSamePrototypes(Register(s, t, ids[0]), t, t1);
      RegisterAllBuilds(Register(s, t, ids[0]), t1, ids[1..]);
      BuiltSamePrototypes(RegisterAll(s, t, ids).0, t1, t);
    }
  }

  /** The empty index is built, with nothing registered. */
  lemma BuiltEmpty(t: Table)
    ensures Built(Empty, t)
  {
  }

  /** A rebuild from the records `ids` registers exactly those records and leaves the index built. */
  lemma RebuildBuilt(t: Table, ids: seq<nat>)
    requires TableWellFormed(t)
    ensures Built(RegisterAll(Empty, t, ids).0, t)
    ensures forall n :: n in RegisterAll(Empty, t, ids).0.nodes <==> n in ids
  {
    BuiltEmpty(t);
    RegisterAllBuilds(Empty, t, ids);
  }

  /** The index RebuildNodes leaves after registering the records `ids` in order. */
  ghost function Rebuilt(t: Table, ids: seq<nat>): (s: Links)
    requires TableWellFormed(t)
    ensures Built(s, t) && forall n :: n in s.nodes <==> n in ids
  {
    RebuildBuilt(t, ids);
    RegisterAll(Empty, t, ids).0
  }

  /**
   * After a rebuild from the records `ids`, each registered record is a root exactly when
   * it has no prototype, is the child of its prototype's node when that prototype is
   * registered (a record naming itself is its own parent but not its own child), and waits
   * for its prototype otherwise.
   */
  lemma RebuildLinks(t: Table, ids: seq<nat>)
    requires TableWellFormed(t)
    ensures var s := Rebuilt(t, ids);
      && Valid(s) && (forall n :: n in s.nodes <==> n in ids)
      && (forall n :: n in s.nodes && PrototypeOf(t, n).None? ==> n in s.roots && n !in s.parent)
      && (forall n, p :: n in s.nodes && PrototypeOf(t, n) == Some(p) && p in s.nodes ==>
            n !in s.roots && n in s.parent && s.parent[n] == p && (n in s.children[p] <==> n != p))
      && (forall n, p :: n in s.nodes && PrototypeOf(t, n) == Some(p) && p !in s.nodes ==>
            n !in s.roots && n !in s.parent && p in s.waiting && n in s.waiting[p])
  {
  }

  /** Two built indexes over the same registered records have the same parent links, children sets and roots. */
  lemma LinksUnique(a: Links, b: Links, t: Table)
    requires Valid(a) && Valid(b) && a.nodes == b.nodes
    requires ParentsBuilt(a, t) && ParentsBuilt(b, t) && RootsBuilt(a, t) && RootsBuilt(b, t)
    ensures a.parent == b.parent && a.children == b.children && a.roots == b.roots
  {
    assert a.parent.Keys == b.parent.Keys;
    assert a.parent == b.parent;
    ChildrenFromParent(a);
    ChildrenFromParent(b);
    forall q | q in a.children ensures a.children[q] == b.children[q] {
      assert q in b.children;
      forall c ensures c in a.children[q] <==> c in b.children[q] {
        assert c in a.children[q] <==> c in a.parent && a.parent[c] == q && c != q;
        assert c in b.children[q] <==> c in b.parent && b.parent[c] == q && c != q;
      }
    }
    assert a.children == b.children;
    assert a.roots == b.roots;
  }

  /** The waiting keys of a built index are the unregistered prototypes of registered records. */
  lemma WaitingKeys(s: Links, t: Table)
    requires Valid(s) && Waiters(s, t) && WaitingBuilt(s, t)
    ensures forall k :: k in s.waiting <==> k !in s.nodes && exists n :: n in s.nodes && PrototypeOf(t, n) == Some(k)
  {
    forall k | k in s.waiting ensures k !in s.nodes && exists n :: n in s.nodes && PrototypeOf(t, n) == Some(k) {
      var n0 := s.waiting[k][0];
      assert n0 in s.nodes && PrototypeOf(t, n0) == Some(k);
    }
  }

  /** Two built indexes over the same registered records wait for the same prototypes, with the same records. */
  lemma WaitingUnique(a: Links, b: Links, t: Table)
    requires Valid(a) && Valid(b) && a.nodes == b.nodes
    requires Waiters(a, t) && Waiters(b, t) && WaitingBuilt(a, t) && WaitingBuilt(b, t)
    ensures a.waiting.Keys == b.waiting.Keys
    ensures forall k, n :: k in a.waiting ==> (n in a.waiting[k] <==> n in b.waiting[k])
  {
    WaitingKeys(a, t);
    WaitingKeys(b, t);
    assert a.waiting.Keys == b.waiting.Keys;
    forall k | k in a.waiting ensures forall n :: n in a.waiting[k] <==> n in b.waiting[k] {
      WaitingMembers(a, t, k);
      WaitingMembers(b, t, k);
    }
  }

  /** Two built indexes over the same registered records agree on everything but the order within waiting lists. */
  lemma BuiltUnique(a: Links, b: Links, t: Table)
    requires Built(a, t) && Built(b, t) && a.nodes == b.nodes
    ensures a.parent == b.parent && a.children == b.children && a.roots == b.roots
    ensures a.waiting.Keys == b.waiting.Keys
    ensures forall k, n :: k in a.waiting ==> (n in a.waiting[k] <==> n in b.waiting[k])
  {
    LinksUnique(a, b, t);
    WaitingUnique(a, b, t);
  }

  /**
   * Rebuilding from the same records in another order, or with repetitions, gives the same
   * parent links, children sets, roots and waiting keys, and the same records waiting for
   * each prototype (only the order and repetitions within a waiting list may differ).
   */
  lemma RebuildOrderIrrelevant(t: Table, ids1: seq<nat>, ids2: seq<nat>)
    requires TableWellFormed(t) && forall n :: n in ids1 <==> n in ids2
    ensures var a, b := Rebuilt(t, ids1), Rebuilt(t, ids2);
      && a.nodes == b.nodes && a.parent == b.parent && a.children == b.children && a.roots == b.roots
      && a.waiting.Keys == b.waiting.Keys
      && forall k, n :: k in a.waiting ==> (n in a.waiting[k] <==> n in b.waiting[k])
  {
    var a, b := Rebuilt(t, ids1), Rebuilt(t, ids2);
    assert a.nodes == b.nodes;
    BuiltUnique(a, b, t);
  }

  /**
   * The records RebuildNodes' loop leaves: each record not registered before is resolved in
   * turn against the records as they are at that moment; nothing is resolved again later.
   */
  function ResolvedInTurn(known: set<nat>, t: Table, ids: seq<nat>): (r: Table)
    requires TableWellFormed(t)
    ensures TableWellFormed(r) && r.Keys == t.Keys
    decreases |ids|
  {
    if |ids| == 0 then t
    else ResolvedInTurn(known + {ids[0]}, if ids[0] in known then t else Resolved(t, ids[0]), ids[1..])
  }

  /** The records after a registration loop depend on the index only through its registered records. */
  lemma {:induction false} RegisterAllRecords(s: Links, t: Table, ids: seq<nat>)
    requires Valid(s) && TableWellFormed(t)
    ensures RegisterAll(s, t, ids).1 == ResolvedInTurn(s.nodes, t, ids)
    decreases |ids|
  {
    if |ids| > 0 {
      var t1 := if ids[0] in s.nodes then t else Resolved(t, ids[0]);
      RegisterAllRecords(Register(s, t, ids[0]), t1, ids[1..]);
    }
  }

  /**
   * Registering records 0, 1 and 2 in this order, 0 having no prototype: record 2 is
   * resolved against record 1 as record 1 was just resolved.
   */
  lemma ForwardRecords(t: Table)
    requires TableWellFormed(t) && 1 in t && 2 in t && PrototypeOf(t, 0).None?
    ensures var t1 := Resolved(t, 1);
      ResolvedInTurn({}, t, [0, 1, 2])[2].defaults == Resolve(ContextOf(t1, 2), t[2].defaults)
  {
    ResolvedWithoutPrototype(t, 0);
    var t1 := Resolved(t, 1);
    assert [0, 1, 2][1..] == [1, 2] && [1, 2][1..] == [2] && [2][1..] == [];
    assert ResolvedInTurn({0, 1}, t1, [2]) == Resolved(t1, 2);
    assert ResolvedInTurn({0}, t, [1, 2]) == ResolvedInTurn({0, 1}, t1, [2]);
  }

  /**
   * Registering records 2, 1 and 0 in this order: record 2 is resolved against the stored
   * record 1, and the later registrations do not resolve it again.
   */
  lemma BackwardRecords(t: Table)
    requires TableWellFormed(t) && 2 in t
    ensures ResolvedInTurn({}, t, [2, 1, 0])[2].defaults == Resolve(ContextOf(t, 2), t[2].defaults)
  {
    var u1 := Resolved(t, 2);
    var u2 := Resolved(u1, 1);
    assert [2, 1, 0][1..] == [1, 0] && [1, 0][1..] == [0] && [0][1..] == [];
    assert ResolvedInTurn({1, 2}, u2, [0]) == Resolved(u2, 0);
    assert ResolvedInTurn({2}, u1, [1, 0]) == ResolvedInTurn({1, 2}, u2, [0]);
  }
}
