/**
 * The ComponentInfoHierarchy class itself: the static collections of
 * ComponentInfoHierarchy.cs as fields, and each operation proved against its
 * specification in module Hierarchy.
 */
module HierarchyIndex {
  import opened Common
  import opened PrototypeDrawer
  import opened Hierarchy
  import opened HierarchyRebuild

  class ComponentInfoHierarchy {
    var nodes: set<nat>
    var roots: set<nat>
    var waiting: map<nat, seq<nat>>
    var parent: map<nat, nat>
    var children: map<nat, set<nat>>

    function State(): Links
      reads this
    {
      Links(nodes, roots, waiting, parent, children)
    }

    /** The static constructor: all three collections start empty. */
    constructor ()
      ensures State() == Empty
    {
      nodes, roots, waiting, parent, children := {}, {}, map[], map[], map[];
    }

    /** AddChild: a node is never added to its own children. */
    method AddChild(p: nat, c: nat)
      requires p in children
      modifies this
      ensures children == old(children)[p := if c == p then old(children[p]) else old(children[p]) + {c}]
      ensures nodes == old(nodes) && roots == old(roots) && waiting == old(waiting) && parent == old(parent)
    {
      if c == p {
        return;
      }
      children := children[p := children[p] + {c}];
    }

    method RemoveChild(p: nat, c: nat)
      requires p in children
      modifies this
      ensures children == old(children)[p := old(children[p]) - {c}]
      ensures nodes == old(nodes) && roots == old(roots) && waiting == old(waiting) && parent == old(parent)
    {
      children := children[p := children[p] - {c}];
    }

    /** UpdateParent of node `n`, reading the prototype of its record from the stored records. */
    method UpdateParent(db: RecordTable, n: nat)
      requires Linked(State()) && n in children && nodes <= children.Keys
      modifies this
      ensures State() == UpdateParentSpec(old(State()), PrototypeOf(db.records, n), n)
      ensures Linked(State())
    {
      ghost var s := State();
      var prototype := PrototypeOf(db.records, n);
      UpdateParentKeepsLinked(s, prototype, n);
      match prototype
      case Some(p) =>
        if p in nodes {
          if n in parent && parent[n] == p {
            return;
          }
          Relink(n, p);
        } else {
          Enqueue(p, n);
        }
      case None =>
        MakeRoot(n);
    }

    /** `_parent?.RemoveChild(this); _parent = newParent; newParent.AddChild(this)`, leaving the roots. */
    method Relink(n: nat, p: nat)
      requires Linked(State()) && n in children && p in children
      modifies this
      ensures var d := Detach(old(State()), n);
        State() == old(State()).(parent := old(parent)[n := p], roots := old(roots) - {n},
                                 children := if p == n then d else d[p := d[p] + {n}])
    {
      if n in parent {
        RemoveChild(parent[n], n);
      }
      parent := parent[n := p];
      AddChild(p, n);
      roots := roots - {n};
    }

    /** Appending `n` to the waiting list of the unregistered prototype `p`. */
    method Enqueue(p: nat, n: nat)
      modifies this
      ensures State() == old(State()).(waiting := old(waiting)[p := (if p in old(waiting) then old(waiting)[p] else []) + [n]])
    {
      if p in waiting {
        waiting := waiting[p := waiting[p] + [n]];
      } else {
        assert [] + [n] == [n];
        waiting := waiting[p := [n]];
      }
    }

    /** `_parent?.RemoveChild(this); _parent = null`, and the node joins the roots. */
    method MakeRoot(n: nat)
      requires Linked(State())
      modifies this
      ensures State() == old(State()).(parent := old(parent) - {n}, children := Detach(old(State()), n),
                                       roots := old(roots) + {n})
    {
      if n in parent {
        RemoveChild(parent[n], n);
      }
      parent := parent - {n};
      roots := roots + {n};
    }

    /**
     * UpdateHierarchy: relink a registered record; or create, link and register a node for
     * a new one, resolve the record, relink every node waiting for it, and drop its entry.
     */
    method UpdateHierarchy(db: RecordTable, r: nat)
      requires Valid(State()) && TableWellFormed(db.records)
      modifies this, db
      ensures State() == Register(old(State()), old(db.records), r)
      ensures db.records == if r in old(nodes) then old(db.records) else Resolved(old(db.records), r)
      ensures Valid(State()) && TableWellFormed(db.records)
    {
      if r in nodes {
        UpdateParent(db, r);
        return;
      }
      CreateNode(db, r);
      ghost var registered := State();
      db.UpdateProperty(r);
      ResolvedSamePrototypes(old(db.records), r);
      if r in registered.waiting {
        DrainSamePrototypes(registered, old(db.records), db.records, registered.waiting[r]);
      }
      RelinkWaiting(db, r);
    }

    /** A new node for `r`: created with no links, linked by its constructor, then entered in the node table. */
    method CreateNode(db: RecordTable, r: nat)
      requires Valid(State()) && r !in nodes
      modifies this
      ensures State() == Registered(old(State()), db.records, r)
    {
      ghost var s0 := State();
      children := children[r := {}];
      assert State() == Created(s0, r);
      UpdateParent(db, r);
      nodes := nodes + {r};
    }

    /** Relinks, in list order, every node that was waiting for `r`, then drops the waiting entry. */
    method RelinkWaiting(db: RecordTable, r: nat)
      requires Linked(State()) && children.Keys == nodes && r in nodes
      requires forall k :: k in waiting ==> k !in nodes - {r}
      modifies this
      ensures State() == Drained(old(State()), db.records, r)
    {
      if r !in waiting {
        assert waiting - {r} == waiting;
        return;
      }
      ghost var g := State();
      var waitingChildren := waiting[r];
      for i := 0 to |waitingChildren|
        invariant Linked(State()) && nodes == g.nodes && children.Keys == g.children.Keys
        invariant Drain(State(), db.records, waitingChildren[i..]) == Drain(g, db.records, waitingChildren)
      {
        assert waitingChildren[i..][1..] == waitingChildren[i + 1..];
        UpdateParent(db, waitingChildren[i]);
      }
      waiting := waiting - {r};
    }

    /**
     * RebuildNodes: empty the root set, the node table and the waiting map (the old node
     * objects become unreachable), then register every record in the given order.
     */
    method RebuildNodes(db: RecordTable, ids: seq<nat>)
      requires TableWellFormed(db.records)
      modifies this, db
      ensures (State(), db.records) == RegisterAll(Empty, old(db.records), ids)
      ensures State() == Rebuilt(old(db.records), ids) && Built(State(), old(db.records))
    {
      roots := {};
      nodes := {};
      waiting := map[];
      parent, children := map[], map[];
      assert State() == Empty;
      RegisterEach(db, ids);
    }

    /** The registration loop of RebuildNodes: every record in turn goes through UpdateHierarchy. */
    method RegisterEach(db: RecordTable, ids: seq<nat>)
      requires Valid(State()) && TableWellFormed(db.records)
      modifies this, db
      ensures (State(), db.records) == RegisterAll(old(State()), old(db.records), ids)
    {
      ghost var s0, t0 := State(), db.records;
      for i := 0 to |ids|
        invariant Valid(State()) && TableWellFormed(db.records)
        invariant RegisterAll(State(), db.records, ids[i..]) == RegisterAll(s0, t0, ids)
      {
        ghost var s, t := State(), db.records;
        assert ids[i..][1..] == ids[i + 1..];
        assert RegisterAll(s, t, ids[i..])
            == RegisterAll(Register(s, t, ids[i]), if ids[i] in s.nodes then t else Resolved(t, ids[i]), ids[i + 1..]);
        UpdateHierarchy(db, ids[i]);
      }
    }

    /**
     * UpdateChildrenSerialization of node `n`: each child's record is resolved against its
     * prototype and then the child's own children are visited, in the order the children
     * set yields them.
     */
    method UpdateChildrenSerialization(db: RecordTable, n: nat, ghost s: Links, ghost rank: map<nat, nat>)
      requires s == State() && Linked(s) && Ranked(s, rank) && n in s.children && TableWellFormed(db.records)
      modifies db
      ensures Propagated(s, old(db.records), db.records, n)
      decreases rank[n], 0
    {
      ghost var t := db.records;
      var todo := children[n];
      ghost var done: set<nat> := {};
      while todo != {}
        invariant todo + done == s.children[n] && todo !! done
        invariant PartlyPropagated(s, t, db.records, n, done)
        decreases |todo|
      {
        var c :| c in todo;
        VisitChild(db, n, c, s, rank, t, done);
        todo := todo - {c};
        done := done + {c};
      }
    }

    /** One turn of the loop: resolve child `c`, then propagate below it. */
    method VisitChild(db: RecordTable, n: nat, c: nat, ghost s: Links, ghost rank: map<nat, nat>,
                      ghost t: Table, ghost done: set<nat>)
      requires s == State() && Linked(s) && Ranked(s, rank) && n in s.children && c in s.children[n]
      requires done <= s.children[n] && c !in done && TableWellFormed(t)
      requires PartlyPropagated(s, t, db.records, n, done)
      modifies db
      ensures PartlyPropagated(s, t, db.records, n, done + {c})
      decreases rank[c], 1
    {
      ghost var u := db.records;
      db.UpdateProperty(c);
      ghost var u1 := db.records;
      UpdateChildrenSerialization(db, c, s, rank);
      PropagateStep(s, rank, n, t, u, u1, db.records, done, c);
    }

    /** UpdateChildrenProperties: propagate from the node of a registered record; nothing otherwise. */
    method UpdateChildrenProperties(db: RecordTable, r: nat)
      requires Valid(State()) && ChildrenAcyclic(State()) && TableWellFormed(db.records)
      modifies db
      ensures r !in nodes ==> db.records == old(db.records)
      ensures r in nodes ==> Propagated(State(), old(db.records), db.records, r)
    {
      if r in nodes {
        ghost var rank :| Ranked(State(), rank);
        UpdateChildrenSerialization(db, r, State(), rank);
      }
    }
  }
}
