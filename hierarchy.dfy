/**
 * The hierarchy index of ComponentInfoHierarchy.cs: one node per registered record, each
 * node linked to the node of its prototype, root nodes for records without a prototype,
 * and a waiting list for nodes whose prototype is not registered yet.
 *
 * Nodes are identified by their record. `children` holds one entry per node object that
 * exists (a node is created, and linked, just before it is registered); `nodes` is the
 * set of registered records (BaseNodes).
 */
module Hierarchy {
  import opened Common
  import opened PrototypeDrawer
  import opened Resolution

  /** The state of the index: BaseNodes, BaseNodeHierarchy, WaitingForParentNodes, and each node's _parent and _children. */
  datatype Links = Links(nodes: set<nat>, roots: set<nat>, waiting: map<nat, seq<nat>>,
                         parent: map<nat, nat>, children: map<nat, set<nat>>)

  const Empty: Links := Links({}, {}, map[], map[], map[])

  /**
   * Parent and children agree: a node is in the children of exactly the node it names as
   * parent (a node that names itself is in no one's children), no node is its own child,
   * roots have no parent, and every link and waiting entry refers to an existing node.
   */
  predicate Linked(s: Links)
  {
    && s.parent.Keys <= s.children.Keys
    && (forall c :: c in s.parent ==> s.parent[c] in s.children)
    && s.roots <= s.children.Keys
    && (forall c :: c in s.roots ==> c !in s.parent)
    && (forall k, i :: k in s.waiting && 0 <= i < |s.waiting[k]| ==> s.waiting[k][i] in s.children)
    && (forall p :: p in s.children ==> p !in s.children[p])
    && (forall p, c :: p in s.children && c in s.children[p] ==> c in s.parent && s.parent[c] == p)
    && (forall c :: c in s.parent && s.parent[c] != c ==> c in s.children[s.parent[c]])
  }

  /** Between operations: every node is registered, and no registered record is still waited for. */
  predicate Valid(s: Links)
  {
    Linked(s) && s.children.Keys == s.nodes && (forall k :: k in s.waiting ==> k !in s.nodes)
  }

  /** `_parent?.RemoveChild(this)`: the children after `n` has left its current parent. */
  function Detach(s: Links, n: nat): map<nat, set<nat>>
    requires Linked(s)
  {
    if n in s.parent then s.children[s.parent[n] := s.children[s.parent[n]] - {n}] else s.children
  }

  /**
   * UpdateParent of node `n`, whose record's prototype is `prototype`: nothing when it is
   * already linked to the registered prototype; relinked when the prototype is registered;
   * appended to the prototype's waiting list (created if absent, duplicates allowed) when
   * it is not; unlinked and made a root when there is no prototype.
   */
  function UpdateParentSpec(s: Links, prototype: Option<nat>, n: nat): (r: Links)
    requires Linked(s) && n in s.children && s.nodes <= s.children.Keys
    ensures r.nodes == s.nodes && r.children.Keys == s.children.Keys
  {
    match prototype
    case Some(p) =>
      if p in s.nodes then
        if n in s.parent && s.parent[n] == p then s
        else
          var detached := Detach(s, n);
          var attached := if p == n then detached else detached[p := detached[p] + {n}];
          s.(parent := s.parent[n := p], children := attached, roots := s.roots - {n})
      else
        s.(waiting := s.waiting[p := (if p in s.waiting then s.waiting[p] else []) + [n]])
    case None =>
      s.(parent := s.parent - {n}, children := Detach(s, n), roots := s.roots + {n})
  }

  /** UpdateParent keeps parent and children in agreement, and never makes a node its own child. */
  lemma UpdateParentKeepsLinked(s: Links, prototype: Option<nat>, n: nat)
    requires Linked(s) && n in s.children && s.nodes <= s.children.Keys
    ensures Linked(UpdateParentSpec(s, prototype, n))
    ensures forall k :: k in UpdateParentSpec(s, prototype, n).waiting && k !in s.waiting ==> k !in s.nodes
  {
    match prototype
    case None => DetachKeepsLinked(s, n);
    case Some(p) =>
      if p in s.nodes && !(n in s.parent && s.parent[n] == p) {
        RelinkKeepsLinked(s, p, n);
      }
  }

  /** Who is in whose children after relinking `n` to `p`: `n` only in `p`'s, everyone else where they were. */
  lemma RelinkChildren(s: Links, p: nat, n: nat)
    requires Linked(s) && n in s.children && p in s.children
    ensures var attached := if p == n then Detach(s, n) else Detach(s, n)[p := Detach(s, n)[p] + {n}];
      && attached.Keys == s.children.Keys
      && forall q, c :: q in attached ==>
           (c in attached[q] <==> (c != n && c in s.children[q]) || (c == n && q == p && p != n))
  {
    var detached := Detach(s, n);
    forall q, c | q in detached ensures c in detached[q] <==> c != n && c in s.children[q] {
      if c == n && n in s.children[q] {
        assert s.parent[n] == q;
      }
    }
  }

  lemma RelinkKeepsLinked(s: Links, p: nat, n: nat)
    requires Linked(s) && n in s.children && p in s.children
    ensures Linked(s.(parent := s.parent[n := p],
                      children := if p == n then Detach(s, n) else Detach(s, n)[p := Detach(s, n)[p] + {n}],
                      roots := s.roots - {n}))
  {
    RelinkChildren(s, p, n);
  }

  lemma DetachKeepsLinked(s: Links, n: nat)
    requires Linked(s) && n in s.children
    ensures Linked(s.(parent := s.parent - {n}, children := Detach(s, n), roots := s.roots + {n}))
  {
    var r := s.(parent := s.parent - {n}, children := Detach(s, n), roots := s.roots + {n});
    forall q, c | q in r.children && c in r.children[q] ensures c in r.parent && r.parent[c] == q {
      assert c in s.children[q] && c != n;
    }
    forall c | c in r.parent && r.parent[c] != c ensures c in r.children[r.parent[c]] {
      assert c in s.children[s.parent[c]];
    }
  }

  /**
   * Relinking to a registered prototype `p`: afterwards `n` names `p` as parent, is in
   * `p`'s children unless it is `p` itself, is in no other node's children and is not a
   * root; every other node keeps its parent and nothing waits anew.
   */
  lemma RelinkEffect(s: Links, p: nat, n: nat)
    requires Linked(s) && n in s.children && s.nodes <= s.children.Keys && p in s.nodes
    ensures var r := UpdateParentSpec(s, Some(p), n);
      && n in r.parent && r.parent[n] == p
      && (n in r.children[p] <==> p != n)
      && (forall q :: q in r.children && q != p ==> n !in r.children[q])
      && n !in r.roots
      && (forall c :: c != n ==> (c in r.parent <==> c in s.parent))
      && (forall c :: c != n && c in s.parent ==> r.parent[c] == s.parent[c])
      && r.waiting == s.waiting
  {
    var r := UpdateParentSpec(s, Some(p), n);
    forall q | q in r.children && q != p ensures n !in r.children[q] {
      if n in s.children[q] {
        assert s.parent[n] == q;
      }
    }
  }

  /**
   * With no prototype, `n` is in no node's children, has no parent and is a root; every
   * other node keeps its parent.
   */
  lemma DetachEffect(s: Links, n: nat)
    requires Linked(s) && n in s.children && s.nodes <= s.children.Keys
    ensures var r := UpdateParentSpec(s, None, n);
      && n !in r.parent && n in r.roots
      && (forall q :: q in r.children ==> n !in r.children[q])
      && (forall c :: c != n ==> (c in r.parent <==> c in s.parent))
      && (forall c :: c != n && c in s.parent ==> r.parent[c] == s.parent[c])
  {
    var r := UpdateParentSpec(s, None, n);
    forall q | q in r.children ensures n !in r.children[q] {
      if n in s.children[q] {
        assert s.parent[n] == q;
      }
    }
  }

  /**
   * With a prototype that is not registered, `n` is queued at the end of that prototype's
   * waiting list and keeps whatever parent link and root membership it had.
   */
  lemma QueueEffect(s: Links, p: nat, n: nat)
    requires Valid(s) && n in s.children && p !in s.nodes
    ensures var r := UpdateParentSpec(s, Some(p), n);
      && Valid(r)
      && r.waiting[p] == (if p in s.waiting then s.waiting[p] else []) + [n]
      && r.parent == s.parent && r.roots == s.roots && r.children == s.children
  {
    UpdateParentKeepsLinked(s, Some(p), n);
  }

  /**
   * Linking to a registered prototype, and unlinking when there is none, are idempotent:
   * a second UpdateParent finds the node already where it belongs and changes nothing.
   */
  lemma UpdateParentIdempotent(s: Links, prototype: Option<nat>, n: nat)
    requires Linked(s) && n in s.children && s.nodes <= s.children.Keys
    requires prototype.None? || prototype.value in s.nodes
    ensures var r := UpdateParentSpec(s, prototype, n);
      Linked(r) && UpdateParentSpec(r, prototype, n) == r
  {
    UpdateParentKeepsLinked(s, prototype, n);
    var r := UpdateParentSpec(s, prototype, n);
    if prototype.None? {
      DetachEffect(s, n);
      assert r.roots + {n} == r.roots;
      assert r.parent - {n} == r.parent;
    } else {
      RelinkEffect(s, prototype.value, n);
    }
  }

  /** Queueing is not idempotent: a node that asks twice is waiting twice. */
  lemma QueueTwice(s: Links, p: nat, n: nat)
    requires Valid(s) && n in s.children && p !in s.nodes
    ensures var r := UpdateParentSpec(s, Some(p), n);
      Linked(r) && UpdateParentSpec(r, Some(p), n).waiting[p] == (if p in s.waiting then s.waiting[p] else []) + [n, n]
  {
    QueueEffect(s, p, n);
  }

  /** Every node waiting for a record is passed to UpdateParent in list order. */
  function Drain(s: Links, t: Table, list: seq<nat>): (r: Links)
    requires Linked(s) && s.nodes <= s.children.Keys
    requires forall i :: 0 <= i < |list| ==> list[i] in s.children
    ensures Linked(r) && r.nodes == s.nodes && r.children.Keys == s.children.Keys
    ensures forall k :: k in r.waiting && k !in s.waiting ==> k !in s.nodes
    decreases |list|
  {
    if |list| == 0 then s
    else
      UpdateParentKeepsLinked(s, PrototypeOf(t, list[0]), list[0]);
      Drain(UpdateParentSpec(s, PrototypeOf(t, list[0]), list[0]), t, list[1..])
  }

  /** A new node for record `r`: no parent, no children, not registered yet. */
  function Created(s: Links, r: nat): (c: Links)
    requires Valid(s) && r !in s.nodes
    ensures Linked(c) && c.nodes == s.nodes && c.children.Keys == s.nodes + {r} && c.waiting == s.waiting
    ensures c.children[r] == {} && r !in c.parent && c.parent == s.parent && c.roots == s.roots
  {
    var c := s.(children := s.children[r := {}]);
    assert forall q :: q in s.children ==> r !in s.children[q];
    c
  }

  /** The new node linked by its constructor, then entered in the node table. */
  function Registered(s: Links, t: Table, r: nat): (g: Links)
    requires Valid(s) && r !in s.nodes
    ensures Linked(g) && g.nodes == s.nodes + {r} && g.children.Keys == g.nodes
    ensures forall k :: k in g.waiting ==> k !in s.nodes
  {
    var created := Created(s, r);
    UpdateParentKeepsLinked(created, PrototypeOf(t, r), r);
    var linked := UpdateParentSpec(created, PrototypeOf(t, r), r);
    linked.(nodes := linked.nodes + {r})
  }

  /** Dropping a waiting entry keeps the links in agreement. */
  lemma WithoutWaitingLinked(s: Links, r: nat)
    requires Linked(s)
    ensures Linked(s.(waiting := s.waiting - {r}))
  {
  }

  /**
   * UpdateHierarchy for record `r`: a registered record only has its parent recomputed; a
   * new record gets a node, which is linked before it is registered, and then every node
   * waiting for the record is relinked and the waiting entry removed. The index stays
   * valid, gains exactly `r`, and nothing waits for `r` afterwards.
   */
  function Register(s: Links, t: Table, r: nat): (res: Links)
    requires Valid(s)
    ensures Valid(res) && res.nodes == s.nodes + {r}
    ensures r !in res.waiting
  {
    if r in s.nodes then
      UpdateParentKeepsLinked(s, PrototypeOf(t, r), r);
      UpdateParentSpec(s, PrototypeOf(t, r), r)
    else
      Drained(Registered(s, t, r), t, r)
  }

  /** Every node waiting for the newly registered `r` is relinked, then the waiting entry goes. */
  function Drained(g: Links, t: Table, r: nat): (res: Links)
    requires Linked(g) && g.children.Keys == g.nodes && r in g.nodes
    requires forall k :: k in g.waiting ==> k !in g.nodes - {r}
    ensures Valid(res) && res.nodes == g.nodes && r !in res.waiting
  {
    var drained := if r in g.waiting then Drain(g, t, g.waiting[r]) else g;
    WithoutWaitingLinked(drained, r);
    drained.(waiting := drained.waiting - {r})
  }

  /** The drained links depend on the records only through their prototypes. */
  lemma {:induction false} DrainSamePrototypes(s: Links, t: Table, u: Table, list: seq<nat>)
    requires Linked(s) && s.nodes <= s.children.Keys
    requires forall i :: 0 <= i < |list| ==> list[i] in s.children
    requires forall id :: PrototypeOf(t, id) == PrototypeOf(u, id)
    ensures Drain(s, t, list) == Drain(s, u, list)
    decreases |list|
  {
    if |list| > 0 {
      UpdateParentKeepsLinked(s, PrototypeOf(t, list[0]), list[0]);
      DrainSamePrototypes(UpdateParentSpec(s, PrototypeOf(t, list[0]), list[0]), t, u, list[1..]);
    }
  }

  /** Resolving a record's fields does not change any record's prototype. */
  lemma ResolvedSamePrototypes(t: Table, id: nat)
    requires TableWellFormed(t)
    ensures forall k :: PrototypeOf(Resolved(t, id), k) == PrototypeOf(t, k)
  {
  }

  /**
   * RebuildNodes' registration loop: each record in turn goes through UpdateHierarchy,
   * a newly registered record being resolved against its prototype as it is registered.
   */
  function RegisterAll(s: Links, t: Table, ids: seq<nat>): (r: (Links, Table))
    requires Valid(s) && TableWellFormed(t)
    ensures Valid(r.0) && TableWellFormed(r.1) && r.1.Keys == t.Keys
    ensures forall id :: id in r.0.nodes <==> id in s.nodes || id in ids
    decreases |ids|
  {
    if |ids| == 0 then (s, t)
    else
      var t1 := if ids[0] in s.nodes then t else Resolved(t, ids[0]);
      assert ids == [ids[0]] + ids[1..];
      RegisterAll(Register(s, t, ids[0]), t1, ids[1..])
  }

  /** The node `d` names as parent, unless it names itself or nothing. */
  function Step(s: Links, d: nat): (r: Option<nat>)
    ensures Linked(s) && r.Some? ==> r.value in s.children && d in s.children[r.value]
  {
    if d in s.parent && s.parent[d] != d then Some(s.parent[d]) else None
  }

  /** The k-th ancestor of `d` along parent links. */
  function Up(s: Links, d: nat, k: nat): Option<nat>
  {
    if k == 0 then Some(d)
    else match Up(s, d, k - 1)
      case None => None
      case Some(a) => Step(s, a)
  }

  /** `d` is in the subtree below `n`. */
  ghost predicate Descends(s: Links, d: nat, n: nat)
  {
    exists k: nat :: 0 < k && Up(s, d, k) == Some(n)
  }

  /** `d` is `c` or below it. */
  ghost predicate Under(s: Links, d: nat, c: nat)
  {
    d == c || Descends(s, d, c)
  }

  /** `rank` strictly decreases from a node to each of its children. */
  ghost predicate Ranked(s: Links, rank: map<nat, nat>)
  {
    && s.children.Keys <= rank.Keys
    && forall p, c :: p in s.children && c in s.children[p] ==> c in rank && rank[c] < rank[p]
  }

  /** The children links form no cycle (children propagation would otherwise never end). */
  ghost predicate ChildrenAcyclic(s: Links)
  {
    exists rank :: Ranked(s, rank)
  }

  lemma {:induction false} UpShift(s: Links, d: nat, a: nat, x: nat, b: nat)
    requires Up(s, d, a) == Some(x)
    ensures Up(s, d, a + b) == Up(s, x, b)
    decreases b
  {
    if b > 0 {
      UpShift(s, d, a, x, b - 1);
    }
  }

  lemma {:induction false} UpNoneStays(s: Links, d: nat, i: nat, j: nat)
    requires i <= j && Up(s, d, i).None?
    ensures Up(s, d, j).None?
    decreases j - i
  {
    if i < j {
      UpNoneStays(s, d, i + 1, j);
    }
  }

  /** Ranks grow strictly along parent links. */
  lemma {:induction false} UpRank(s: Links, rank: map<nat, nat>, d: nat, k: nat)
    requires Linked(s) && Ranked(s, rank) && k > 0 && Up(s, d, k).Some?
    ensures d in rank && Up(s, d, k).value in rank && rank[d] < rank[Up(s, d, k).value]
    decreases k
  {
    if k > 1 {
      UpRank(s, rank, d, k - 1);
    }
  }

  lemma UnderIndex(s: Links, d: nat, c: nat) returns (k: nat)
    requires Under(s, d, c)
    ensures Up(s, d, k) == Some(c)
  {
    if d == c {
      k := 0;
    } else {
      k :| 0 < k && Up(s, d, k) == Some(c);
    }
  }

  /** A node below a child of `n` is below `n`. */
  lemma UnderChildDescends(s: Links, n: nat, c: nat, d: nat)
    requires Linked(s) && n in s.children && c in s.children[n] && Under(s, d, c)
    ensures Descends(s, d, n) && d in s.children
  {
    if d != c {
      ParentUnder(s, d, c);
    }
    var k := UnderIndex(s, d, c);
    UpShift(s, d, k, c, 1);
    assert Up(s, c, 1) == Some(n);
    assert Up(s, d, k + 1) == Some(n);
  }

  /** A node below `n` is under one of `n`'s children. */
  lemma DescendsSplit(s: Links, d: nat, n: nat) returns (c: nat)
    requires Linked(s) && Descends(s, d, n)
    ensures n in s.children && c in s.children[n] && Under(s, d, c)
  {
    var k: nat :| 0 < k && Up(s, d, k) == Some(n);
    c := Up(s, d, k - 1).value;
  }

  /** The parent of a node below `c` is `c` or below it. */
  lemma ParentUnder(s: Links, d: nat, c: nat)
    requires Linked(s) && Descends(s, d, c)
    ensures Step(s, d).Some? && Under(s, Step(s, d).value, c) && d in s.children
  {
    var k: nat :| 0 < k && Up(s, d, k) == Some(c);
    if Step(s, d).None? {
      assert Up(s, d, 1).None?;
      UpNoneStays(s, d, 1, k);
    }
    UpShift(s, d, 1, Step(s, d).value, k - 1);
  }

  /** A node is never below one of its own children. */
  lemma NotUnderChild(s: Links, rank: map<nat, nat>, n: nat, c: nat)
    requires Linked(s) && Ranked(s, rank) && n in s.children && c in s.children[n]
    ensures !Under(s, n, c) && !Descends(s, c, c)
  {
    if Descends(s, n, c) {
      var k: nat :| 0 < k && Up(s, n, k) == Some(c);
      UpRank(s, rank, n, k);
    }
    if Descends(s, c, c) {
      var k: nat :| 0 < k && Up(s, c, k) == Some(c);
      UpRank(s, rank, c, k);
    }
  }

  /** The subtrees of two different children of a node share no node. */
  lemma SiblingsDisjoint(s: Links, rank: map<nat, nat>, n: nat, c1: nat, c2: nat, d: nat)
    requires Linked(s) && Ranked(s, rank) && n in s.children
    requires c1 in s.children[n] && c2 in s.children[n] && c1 != c2 && Under(s, d, c1)
    ensures !Under(s, d, c2)
  {
    if Under(s, d, c2) {
      var k1 := UnderIndex(s, d, c1);
      var k2 := UnderIndex(s, d, c2);
      if k1 < k2 {
        NoLaterSibling(s, rank, n, d, k1, c1, k2, c2);
      } else if k2 < k1 {
        NoLaterSibling(s, rank, n, d, k2, c2, k1, c1);
      }
      assert false;
    }
  }

  /** Further up from a child of `n`, the ancestors of a node never include another child of `n`. */
  lemma NoLaterSibling(s: Links, rank: map<nat, nat>, n: nat, d: nat, k1: nat, c1: nat, k2: nat, c2: nat)
    requires Linked(s) && Ranked(s, rank) && n in s.children
    requires c1 in s.children[n] && c2 in s.children[n]
    requires k1 < k2 && Up(s, d, k1) == Some(c1)
    ensures Up(s, d, k2) != Some(c2)
  {
    if Up(s, d, k2) == Some(c2) {
      var m := k2 - k1;
      UpShift(s, d, k1, c1, m);
      ChildStep(s, n, c1);
      ChildStep(s, n, c2);
      SiblingAbove(s, n, c1, c2, m);
      UpRank(s, rank, n, m);
      assert false;
    }
  }

  /** A child's parent link names the node whose children it is in. */
  lemma ChildStep(s: Links, n: nat, c: nat)
    requires Linked(s) && n in s.children && c in s.children[n]
    ensures Step(s, c) == Some(n)
  {
  }

  /** If a sibling of `c1` were an ancestor of `c1`, their common parent would be its own ancestor. */
  lemma SiblingAbove(s: Links, n: nat, c1: nat, c2: nat, m: nat)
    requires Step(s, c1) == Some(n) && Step(s, c2) == Some(n) && Up(s, c1, m) == Some(c2)
    ensures Up(s, n, m) == Some(n)
  {
    UpShift(s, c1, m, c2, 1);
    assert Up(s, c2, 1) == Some(n);
    UpShift(s, c1, 1, n, m);
    assert Up(s, c1, 1) == Some(n);
  }

  /** Below `n`, every record names its parent node as prototype. */
  ghost predicate Coherent(s: Links, t: Table, n: nat)
  {
    forall d {:trigger Descends(s, d, n)} :: Descends(s, d, n) ==> d in t && PrototypeOf(t, d) == Step(s, d)
  }

  /** Records outside `region` are untouched and inside it only their field trees differ. */
  ghost predicate Framed(t: Table, u: Table, region: set<nat>)
  {
    && u.Keys == t.Keys && TableWellFormed(u)
    && (forall id :: id in t && id !in region ==> u[id] == t[id])
    && (forall id :: id in t ==> SameRecord(u[id], t[id]))
  }

  /** Two versions of a record that differ at most in their field trees. */
  predicate SameRecord(a: Record, b: Record)
  {
    a.ownerIsAsset == b.ownerIsAsset && a.basePath == b.basePath && a.prototype == b.prototype && a.modified == b.modified
  }

  /** The records that resolving would leave unchanged. */
  ghost function SettledIds(t: Table): set<nat>
    requires TableWellFormed(t)
  {
    set id | id in t && Settled(t, id)
  }

  /**
   * The records whose field tree in `u` is their field tree in `t` resolved once, against
   * the record their prototype has in `u`.
   */
  ghost function ResolvedIds(t: Table, u: Table): set<nat>
    requires TableWellFormed(t) && TableWellFormed(u)
  {
    set id | id in t && id in u && u[id].defaults == Resolve(ContextOf(u, id), t[id].defaults)
  }

  /** The nodes below `n`. */
  ghost function Below(s: Links, n: nat): set<nat>
  {
    set d | d in s.children.Keys && Descends(s, d, n)
  }

  /** The nodes under any of `tops`. */
  ghost function Region(s: Links, tops: set<nat>): set<nat>
  {
    set d | d in s.children.Keys && exists c :: c in tops && Under(s, d, c)
  }

  /**
   * UpdateChildrenSerialization's promise: the loop's promise once every child of `n` has
   * been visited (PropagatedBelow restates it over the records below `n`).
   */
  ghost predicate Propagated(s: Links, t: Table, u: Table, n: nat)
    requires n in s.children
  {
    PartlyPropagated(s, t, u, n, s.children[n])
  }

  /**
   * Only records below `n` change, and only in their field trees. When they all follow
   * their parent nodes, each of them ends as its tree before the call resolved once against
   * its prototype's final record: a flagged field without sub-properties keeps its stored
   * value and an inherited one takes the prototype's.
   */
  lemma PropagatedBelow(s: Links, t: Table, u: Table, n: nat)
    requires Linked(s) && n in s.children
    ensures Propagated(s, t, u, n) <==>
      && TableWellFormed(t) && Framed(t, u, Below(s, n))
      && (Coherent(s, t, n) ==> Below(s, n) * u.Keys <= ResolvedIds(t, u))
  {
    RegionOfChildren(s, n);
  }

  /** After propagation every record below `n` is settled: resolving it again changes nothing. */
  lemma PropagatedSettles(s: Links, t: Table, u: Table, n: nat)
    requires Linked(s) && n in s.children && Propagated(s, t, u, n) && Coherent(s, t, n)
    ensures Below(s, n) * u.Keys <= SettledIds(u)
  {
    PropagatedBelow(s, t, u, n);
    forall d | d in Below(s, n) * u.Keys ensures d in SettledIds(u) {
      assert d in ResolvedIds(t, u);
      ResolveSettles(ContextOf(u, d), t[d].defaults);
    }
  }

  /** The loop's promise after visiting the children in `done`. */
  ghost predicate PartlyPropagated(s: Links, t: Table, u: Table, n: nat, done: set<nat>)
  {
    && TableWellFormed(t) && Framed(t, u, Region(s, done))
    && (Coherent(s, t, n) ==> Region(s, done) * u.Keys <= ResolvedIds(t, u))
  }

  lemma PropagateStep(s: Links, rank: map<nat, nat>, n: nat, t: Table, u: Table, u1: Table, u2: Table,
                      done: set<nat>, c: nat)
    requires Linked(s) && Ranked(s, rank) && n in s.children && c in s.children[n]
    requires done <= s.children[n] && c !in done && TableWellFormed(u)
    requires PartlyPropagated(s, t, u, n, done)
    requires u1 == Resolved(u, c) && Propagated(s, u1, u2, c)
    ensures PartlyPropagated(s, t, u2, n, done + {c})
  {
    PropagatedBelow(s, u1, u2, c);
    FramedStep(s, rank, n, t, u, u1, u2, done, c);
    if Coherent(s, t, n) {
      forall d | Descends(s, d, c) ensures d in u1 && PrototypeOf(u1, d) == Step(s, d) {
        UnderChildDescends(s, n, c, d);
      }
      assert Coherent(s, u1, c);
      forall d | d in Region(s, done + {c}) * u2.Keys ensures d in ResolvedIds(t, u2) {
        var c0 :| c0 in done + {c} && Under(s, d, c0);
        if c0 != c {
          ResolvedOutside(s, rank, n, t, u, u2, done, c, c0, d);
        } else if d == c {
          ResolvedChild(s, rank, n, t, u, u1, u2, done, c);
        } else {
          ResolvedBelowChild(s, rank, n, t, u, u1, u2, done, c, d);
        }
      }
    }
  }

  /** The records changed by visiting child `c` lie in `c`'s subtree, which joins the visited region. */
  lemma FramedStep(s: Links, rank: map<nat, nat>, n: nat, t: Table, u: Table, u1: Table, u2: Table,
                   done: set<nat>, c: nat)
    requires Linked(s) && n in s.children && c in s.children[n] && TableWellFormed(u)
    requires Framed(t, u, Region(s, done))
    requires u1 == Resolved(u, c) && Framed(u1, u2, Below(s, c))
    ensures Framed(t, u2, Region(s, done + {c}))
  {
    RegionGrows(s, done, c);
  }

  /** Visiting child `c` adds `c` and its subtree to the visited region. */
  lemma RegionGrows(s: Links, done: set<nat>, c: nat)
    requires c in s.children
    ensures Region(s, done + {c}) == Region(s, done) + {c} + Below(s, c)
  {
    forall id ensures id in Region(s, done + {c}) <==> id in Region(s, done) + {c} + Below(s, c) {
      if id in Region(s, done + {c}) {
        var c0 :| c0 in done + {c} && Under(s, id, c0);
      }
    }
  }

  /** What resolving a record reads is the same in two tables that agree on it and on its prototype's tree. */
  lemma ContextFrame(t: Table, u: Table, id: nat)
    requires id in t && u.Keys == t.Keys && SameRecord(u[id], t[id])
    requires PrototypeOf(t, id).Some? ==> u[PrototypeOf(t, id).value].defaults == t[PrototypeOf(t, id).value].defaults
    ensures ContextOf(u, id) == ContextOf(t, id)
  {
    assert PrototypeOf(u, id) == PrototypeOf(t, id);
  }

  /** A node under child `c` is under no other child of `n`, so the earlier visits left it alone. */
  lemma NotInEarlierRegion(s: Links, rank: map<nat, nat>, n: nat, done: set<nat>, c: nat, d: nat)
    requires Linked(s) && Ranked(s, rank) && n in s.children && c in s.children[n]
    requires done <= s.children[n] && c !in done && Under(s, d, c)
    ensures d !in Region(s, done)
  {
    forall c0 | c0 in done ensures !Under(s, d, c0) {
      SiblingsDisjoint(s, rank, n, c, c0, d);
    }
  }

  /** Child `c` is resolved from its stored tree against `n`, and its subtree's visit touches neither. */
  lemma ResolvedChild(s: Links, rank: map<nat, nat>, n: nat, t: Table, u: Table, u1: Table, u2: Table,
                      done: set<nat>, c: nat)
    requires Linked(s) && Ranked(s, rank) && n in s.children && c in s.children[n]
    requires done <= s.children[n] && c !in done
    requires TableWellFormed(t) && TableWellFormed(u) && Coherent(s, t, n) && Framed(t, u, Region(s, done))
    requires u1 == Resolved(u, c) && Framed(u1, u2, Below(s, c))
    ensures c in ResolvedIds(t, u2)
  {
    UnderChildDescends(s, n, c, c);
    NotUnderChild(s, rank, n, c);
    NotInEarlierRegion(s, rank, n, done, c, c);
    assert u[c] == t[c];
    assert PrototypeOf(u, c) == PrototypeOf(t, c) == Some(n);
    assert n !in Region(s, done) by {
      forall c0 | c0 in done ensures !Under(s, n, c0) {
        NotUnderChild(s, rank, n, c0);
      }
    }
    assert c !in Below(s, c) && n !in Below(s, c);
    ContextFrame(u, u2, c);
  }

  /** A record below child `c` is resolved by the visit of `c`'s subtree from its stored tree. */
  lemma ResolvedBelowChild(s: Links, rank: map<nat, nat>, n: nat, t: Table, u: Table, u1: Table, u2: Table,
                           done: set<nat>, c: nat, d: nat)
    requires Linked(s) && Ranked(s, rank) && n in s.children && c in s.children[n]
    requires done <= s.children[n] && c !in done && Descends(s, d, c) && d in u2
    requires TableWellFormed(t) && TableWellFormed(u) && Framed(t, u, Region(s, done))
    requires u1 == Resolved(u, c) && TableWellFormed(u1) && TableWellFormed(u2)
    requires Below(s, c) * u2.Keys <= ResolvedIds(u1, u2)
    ensures d in ResolvedIds(t, u2)
  {
    NotInEarlierRegion(s, rank, n, done, c, d);
    NotUnderChild(s, rank, n, c);
    assert d != c;
    assert d in Below(s, c) by {
      UnderChildDescends(s, n, c, d);
    }
    assert d in ResolvedIds(u1, u2);
  }

  /** A record in an earlier child's subtree, and its parent, lie outside child `c`'s subtree. */
  lemma EarlierSubtree(s: Links, rank: map<nat, nat>, n: nat, c: nat, c0: nat, d: nat) returns (p: nat)
    requires Linked(s) && Ranked(s, rank) && n in s.children && c in s.children[n]
    requires c0 in s.children[n] && c0 != c && Under(s, d, c0)
    ensures Descends(s, d, n) && Step(s, d) == Some(p) && !Under(s, d, c) && !Under(s, p, c)
  {
    UnderChildDescends(s, n, c0, d);
    SiblingsDisjoint(s, rank, n, c0, c, d);
    if d == c0 {
      p := n;
      NotUnderChild(s, rank, n, c);
    } else {
      ParentUnder(s, d, c0);
      p := Step(s, d).value;
      SiblingsDisjoint(s, rank, n, c0, c, p);
    }
  }

  /** A record resolved in an earlier child's subtree stays so while `c`'s subtree changes. */
  lemma ResolvedOutside(s: Links, rank: map<nat, nat>, n: nat, t: Table, u: Table, u2: Table,
                        done: set<nat>, c: nat, c0: nat, d: nat)
    requires Linked(s) && Ranked(s, rank) && n in s.children && c in s.children[n]
    requires c0 in done && done <= s.children[n] && c0 != c && Under(s, d, c0) && d in u
    requires TableWellFormed(u) && Coherent(s, t, n) && PartlyPropagated(s, t, u, n, done)
    requires u2.Keys == u.Keys && TableWellFormed(u2)
    requires forall id :: id in u && !Under(s, id, c) ==> u2[id] == u[id]
    ensures d in ResolvedIds(t, u2)
  {
    var p := EarlierSubtree(s, rank, n, c, c0, d);
    assert d in Region(s, done) * u.Keys;
    assert d in ResolvedIds(t, u);
    assert PrototypeOf(u, d) == PrototypeOf(t, d) == Some(p);
    ContextFrame(u, u2, d);
  }

  /** The nodes under the children of `n` are exactly the nodes below `n`. */
  lemma RegionOfChildren(s: Links, n: nat)
    requires Linked(s) && n in s.children
    ensures Region(s, s.children[n]) == Below(s, n)
  {
    forall d ensures d in Region(s, s.children[n]) <==> d in Below(s, n) {
      if d in Below(s, n) {
        var c := DescendsSplit(s, d, n);
      }
      if d in Region(s, s.children[n]) {
        var c :| c in s.children[n] && Under(s, d, c);
        UnderChildDescends(s, n, c, d);
      }
    }
  }
}
