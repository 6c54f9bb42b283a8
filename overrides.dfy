/**
 * The override flags of a record: the flat list `modifiedProperties` of the property paths
 * authored locally (PropertyModifiedIndex, IsPropertyModified and SetPropertyModified in
 * ComponentInfoPrototypeDrawer.cs). A path absent from the list is inherited.
 */
module Overrides {
  import opened Common

  predicate NoDuplicates(list: seq<string>)
  {
    forall i, j :: 0 <= i < j < |list| ==> list[i] != list[j]
  }

  /** Linear search of the list: the first index holding `path`, or -1. */
  method PropertyModifiedIndex(modified: seq<string>, path: string) returns (i: int)
    ensures -1 <= i < |modified|
    ensures i == -1 <==> path !in modified
    ensures 0 <= i ==> modified[i] == path && path !in modified[..i]
  {
    var k := 0;
    while k < |modified|
      invariant 0 <= k <= |modified|
      invariant path !in modified[..k]
    {
      if modified[k] == path {
        return k;
      }
      assert modified[..k + 1] == modified[..k] + [modified[k]];
      k := k + 1;
    }
    assert modified[..k] == modified;
    return -1;
  }

  /** A property is overridden exactly when its path occurs in the list. */
  function IsPropertyModified(modified: seq<string>, path: string): (b: bool)
    ensures b <==> path in modified
  {
    FirstIndex(modified, path) >= 0
  }

  lemma RemoveAtMembership(list: seq<string>, i: nat, q: string)
    requires i < |list|
    ensures q in list[..i] + list[i + 1..] <==> exists j :: 0 <= j < |list| && j != i && list[j] == q
  {
    var r := list[..i] + list[i + 1..];
    if q in r {
      var k :| 0 <= k < |r| && r[k] == q;
      if k < i {
        assert list[k] == q;
      } else {
        assert list[k + 1] == q;
      }
    }
    if exists j :: 0 <= j < |list| && j != i && list[j] == q {
      var j :| 0 <= j < |list| && j != i && list[j] == q;
      if j < i {
        assert r[j] == q;
      } else {
        assert r[j - 1] == q;
      }
    }
  }

  /**
   * The list after marking `path` as overridden (`flag`) or inherited (`!flag`): an absent
   * path is inserted at index 0, shifting the rest; clearing deletes the element at the
   * first index holding the path; setting a flag to the value it already has is a no-op.
   */
  function SetModified(modified: seq<string>, path: string, flag: bool): (r: seq<string>)
    ensures flag ==> path in r
    ensures flag && path !in modified ==> r[0] == path && r[1..] == modified
    ensures !flag && path in modified ==>
      |r| == |modified| - 1 && r == modified[..FirstIndex(modified, path)] + modified[FirstIndex(modified, path) + 1..]
    ensures flag == (path in modified) ==> r == modified
    ensures forall q :: q != path ==> (q in r <==> q in modified)
    ensures NoDuplicates(modified) ==> NoDuplicates(r) && (path in r <==> flag)
  {
    var i := FirstIndex(modified, path);
    if flag then
      if i == -1 then [path] + modified else modified
    else if i >= 0 then
      var r := modified[..i] + modified[i + 1..];
      assert forall q :: q in r <==> exists j :: 0 <= j < |modified| && j != i && modified[j] == q by {
        forall q ensures q in r <==> exists j :: 0 <= j < |modified| && j != i && modified[j] == q {
          RemoveAtMembership(modified, i, q);
        }
      }
      assert forall a, b :: 0 <= a < b < |r| ==> r[a] == modified[a + (if a < i then 0 else 1)]
                                                 && r[b] == modified[b + (if b < i then 0 else 1)];
      r
    else modified
  }

  /**
   * SetPropertyModified on the record's working copy of the list: look the path up, then
   * insert it at index 0 when it is being set and absent, or delete the found element
   * when it is being cleared.
   */
  method SetPropertyModified(modified: seq<string>, path: string, flag: bool) returns (r: seq<string>)
    ensures r == SetModified(modified, path, flag)
  {
    var i := PropertyModifiedIndex(modified, path);
    r := modified;
    if flag {
      if i == -1 {
        r := [path] + r;
      }
    } else if i >= 0 {
      r := r[..i] + r[i + 1..];
    }
  }

  /** Marking a path and then clearing it restores a duplicate-free list's membership. */
  lemma SetThenClear(modified: seq<string>, path: string)
    requires NoDuplicates(modified) && path !in modified
    ensures SetModified(SetModified(modified, path, true), path, false) == modified
  {
    var m1 := SetModified(modified, path, true);
    assert m1 == [path] + modified;
    assert FirstIndex(m1, path) == 0;
  }
}
