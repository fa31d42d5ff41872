/**
 * The list manager: a mapping from list name to the root item of that
 * list, with create, rename, delete and select.  Its invariant is that
 * every root item is named after its key.
 */
module Lists {
  import opened Wrappers
  import opened Items

  /** Every list is filed under its root's own name. */
  predicate KeysNamed(m: map<string, Node>)
  {
    forall k :: k in m ==> m[k].name == k
  }

  /**
   * The lists after renaming `oldName` to `newName`: nothing happens when
   * `newName` is taken (this includes renaming a list to itself) or when
   * there is no list `oldName`; otherwise the root moves to key `newName`
   * and takes that name.
   */
  function Renamed(m: map<string, Node>, oldName: string, newName: string): (r: map<string, Node>)
    ensures |r| == |m|
    ensures KeysNamed(m) ==> KeysNamed(r)
  {
    if newName in m || oldName !in m then m
    else
      var rest := m - {oldName};
      assert |rest| == |m| - 1 by {
        assert m.Keys == rest.Keys + {oldName};
      }
      rest[newName := Node(newName, m[oldName].children)]
  }

  /** A rename that goes through moves exactly one entry and leaves the others alone. */
  lemma RenamedEntries(m: map<string, Node>, oldName: string, newName: string)
    requires oldName in m && newName !in m
    ensures Renamed(m, oldName, newName).Keys == m.Keys - {oldName} + {newName}
    ensures Renamed(m, oldName, newName)[newName] == Node(newName, m[oldName].children)
    ensures forall k :: k in m && k != oldName ==> Renamed(m, oldName, newName)[k] == m[k]
  {
  }

  /** Renaming a list and renaming it back restores the lists exactly. */
  lemma RenameBack(m: map<string, Node>, oldName: string, newName: string)
    requires KeysNamed(m) && oldName in m && newName !in m
    ensures Renamed(Renamed(m, oldName, newName), newName, oldName) == m
  {
    var r := Renamed(m, oldName, newName);
    RenamedEntries(m, oldName, newName);
    RenamedEntries(r, newName, oldName);
    var back := Renamed(r, newName, oldName);
    assert back.Keys == m.Keys;
    assert back[oldName] == m[oldName];
  }

  class ListManager {
    var lists: map<string, Item>

    /** The class invariant: the key of every list is its root's name. */
    ghost predicate Valid()
      reads this, lists.Values
    {
      forall k :: k in lists ==> lists[k].name == k
    }

    /** The value of every list: its root item's tree. */
    ghost function Contents(): (c: map<string, Node>)
      reads this, lists.Values
      ensures c.Keys == lists.Keys
      ensures Valid() ==> KeysNamed(c)
    {
      map k | k in lists :: lists[k].Value()
    }

    /** A new manager has no lists. */
    constructor ()
      ensures Valid() && lists == map[] && Contents() == map[]
    {
      lists := map[];
    }

    /**
     * Adds an empty list called `listName`, unless that name is taken;
     * `duplicate` reports the rejection, in which case nothing changes.
     */
    method CreateList(listName: string) returns (duplicate: bool)
      requires Valid()
      modifies this
      ensures Valid()
      ensures duplicate <==> listName in old(lists)
      ensures duplicate ==> lists == old(lists)
      ensures !duplicate ==> listName in lists && fresh(lists[listName])
      ensures !duplicate ==> lists == old(lists)[listName := lists[listName]]
      ensures Contents() == if duplicate then old(Contents())
                            else old(Contents())[listName := Node(listName, [])]
    {
      duplicate := listName in lists;
      if !duplicate {
        var list := new Item(listName);
        lists := lists[listName := list];
      }
    }

    /**
     * Moves list `oldName` to key `newName` and renames its root, unless
     * `newName` is taken (reported by `duplicate`); a missing `oldName` is
     * silently ignored.  The root item object itself is kept.
     */
    method RenameList(oldName: string, newName: string) returns (duplicate: bool)
      requires Valid()
      modifies this, lists.Values
      ensures Valid()
      ensures duplicate <==> newName in old(lists)
      ensures Contents() == Renamed(old(Contents()), oldName, newName)
      ensures duplicate || oldName !in old(lists) ==> lists == old(lists) && unchanged(lists.Values)
      ensures !duplicate && oldName in old(lists) ==>
                lists == (old(lists) - {oldName})[newName := old(lists)[oldName]]
      ensures forall k :: k in old(lists) && k != oldName ==> unchanged(old(lists)[k])
    {
      duplicate := newName in lists;
      if !duplicate && oldName in lists {
        var list := lists[oldName];
        lists := lists - {oldName};
        list.RenameItem(newName);
        lists := lists[newName := list];
        assert forall k :: k in old(lists) && k != oldName ==> old(lists)[k] != list;
      }
    }

    /** Removes list `listName` if there is one; no other list changes. */
    method DeleteList(listName: string)
      requires Valid()
      modifies this
      ensures Valid()
      ensures lists == old(lists) - {listName}
      ensures Contents() == old(Contents()) - {listName}
    {
      lists := lists - {listName};
    }

    /** The root item of list `listName` (the object itself), or None when there is no such list. */
    function SelectList(listName: string): (r: Option<Item>)
      reads this, lists.Values
      ensures r.Some? <==> listName in lists
      ensures r.Some? ==> r.value in lists.Values && r.value.Value() == Contents()[listName]
      ensures Valid() && r.Some? ==> r.value.name == listName
    {
      if listName in lists then Some(lists[listName]) else None
    }
  }
}
