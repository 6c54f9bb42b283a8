/**
 * The Parent field of the record drawer (the first part of OnGUI in
 * ComponentInfoPrototypeDrawer.cs): a newly chosen prototype is either accepted, written
 * back and passed to the hierarchy, or reverted.
 */
module PrototypeField {
  import opened Common
  import opened PrototypeDrawer
  import opened Hierarchy
  import opened HierarchyIndex

  /**
   * The user picks `chosen` as the prototype of record `self`. IsValidParent decides on the
   * stored records; an accepted choice is written to the record and the record goes
   * through UpdateHierarchy; a rejected one is reverted and nothing changes. Every chain stays
   * finite: for an asset by the check, for a component because the field only takes assets
   * and no chain through assets comes back to a component.
   */
  method ChangePrototype(db: RecordTable, index: ComponentInfoHierarchy, self: nat, chosen: Option<nat>)
    returns (accepted: bool)
    requires self in db.records && TableWellFormed(db.records) && Valid(index.State())
    requires db.records[self].ownerIsAsset ==> Ends(db.records, chosen) || Reaches(db.records, chosen, self)
    modifies db, index
    ensures accepted <==> !old(db.records)[self].ownerIsAsset || !Reaches(old(db.records), chosen, self)
    ensures !accepted ==> db.records == old(db.records) && index.State() == old(index.State())
    ensures accepted ==>
      var t := old(db.records)[self := old(db.records)[self].(prototype := chosen)];
      && index.State() == Register(old(index.State()), t, self)
      && db.records == (if self in old(index.nodes) then t else Resolved(t, self))
    ensures Valid(index.State()) && TableWellFormed(db.records)
    ensures old(db.records)[self].ownerIsAsset && Acyclic(old(db.records)) ==> Acyclic(db.records)
    ensures RefsNameAssets(old(db.records)) && NamesAsset(old(db.records), chosen) ==> RefsNameAssets(db.records)
    ensures Acyclic(old(db.records)) && RefsNameAssets(old(db.records)) && NamesAsset(old(db.records), chosen) ==>
      Acyclic(db.records)
  {
    ghost var t0 := db.records;
    accepted := IsValidParent(db.records, self, chosen);
    if accepted {
      db.records := db.records[self := db.records[self].(prototype := chosen)];
      ghost var t := db.records;
      index.UpdateHierarchy(db, self);
      if RefsNameAssets(t0) && NamesAsset(t0, chosen) {
        PrototypeWriteNamesAssets(t0, self, chosen);
        ResolvedNamesAssets(t, self);
      }
      if Acyclic(t0) && (t0[self].ownerIsAsset || (RefsNameAssets(t0) && NamesAsset(t0, chosen))) {
        if t0[self].ownerIsAsset {
          AcceptedPrototypeKeepsAcyclic(t0, self, chosen);
        } else {
          ComponentChoiceKeepsAcyclic(t0, self, chosen);
        }
        ResolvedKeepsAcyclic(t, self);
      }
    }
  }
}
