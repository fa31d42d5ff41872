/**
 * Items of an equipment list: a named node owning an ordered sequence of
 * children, which are items themselves.  The tree is a strict ownership
 * tree, so a subtree is represented by its value, a `Node`; the item
 * objects that the shell mutates in place are instances of class `Item`.
 */
module Items {

  /** The value of an item subtree: its name and its children in insertion order. */
  datatype Node = Node(name: string, children: seq<Node>)

  /*
   * Queries on a sequence of siblings
   */

  /** True when some sibling is called `n` (a left-to-right search, as anyMatch does). */
  function HasName(cs: seq<Node>, n: string): (r: bool)
    ensures r <==> exists i :: 0 <= i < |cs| && cs[i].name == n
  {
    if cs == [] then false
    else if cs[0].name == n then true
    else
      assert forall i :: 1 <= i < |cs| ==> cs[i] == cs[1..][i - 1];
      HasName(cs[1..], n)
  }

  /** No two siblings share a name (exact, case-sensitive comparison). */
  predicate Unique(cs: seq<Node>)
  {
    forall i, j :: 0 <= i < j < |cs| ==> cs[i].name != cs[j].name
  }

  /** Sibling names are unique at every level of the tree. */
  predicate WellNamed(n: Node)
    decreases n
  {
    Unique(n.children) && forall c :: c in n.children ==> WellNamed(c)
  }

  /** The number of nodes in the tree rooted at `n`. */
  function Size(n: Node): (r: nat)
    ensures r >= 1
    decreases n
  {
    1 + SizeAll(n.children)
  }

  function SizeAll(cs: seq<Node>): nat
    decreases cs
  {
    if cs == [] then 0 else Size(cs[0]) + SizeAll(cs[1..])
  }

  /*
   * removeItem: drop every child with the given name
   */

  /** The siblings whose name is not `n`, in their original order. */
  function Without(cs: seq<Node>, n: string): (r: seq<Node>)
    ensures |r| <= |cs|
    ensures forall c :: c in r ==> c in cs && c.name != n
    ensures !HasName(r, n)
  {
    if cs == [] then []
    else if cs[0].name == n then Without(cs[1..], n)
    else [cs[0]] + Without(cs[1..], n)
  }

  /** Every sibling not called `n` survives the removal, and nothing else does. */
  lemma {:induction false} WithoutMembers(cs: seq<Node>, n: string)
    ensures forall c :: c in Without(cs, n) <==> c in cs && c.name != n
  {
    if cs != [] {
      WithoutMembers(cs[1..], n);
      assert forall c :: c in cs <==> c == cs[0] || c in cs[1..];
    }
  }

  /** Removal keeps each surviving sibling exactly as often as it occurred. */
  lemma {:induction false} WithoutCounts(cs: seq<Node>, n: string)
    ensures forall c :: multiset(Without(cs, n))[c] == if c.name == n then 0 else multiset(cs)[c]
  {
    if cs != [] {
      WithoutCounts(cs[1..], n);
      assert cs == [cs[0]] + cs[1..];
      assert multiset(cs) == multiset{cs[0]} + multiset(cs[1..]);
    }
  }

  /** Removal distributes over concatenation: relative order is preserved. */
  lemma {:induction false} WithoutAppend(a: seq<Node>, b: seq<Node>, n: string)
    ensures Without(a + b, n) == Without(a, n) + Without(b, n)
  {
    if a == [] {
      assert a + b == b;
    } else {
      assert (a + b)[0] == a[0];
      assert (a + b)[1..] == a[1..] + b;
      WithoutAppend(a[1..], b, n);
    }
  }

  /** Removing a name that no sibling carries changes nothing. */
  lemma {:induction false} WithoutAbsent(cs: seq<Node>, n: string)
    requires !HasName(cs, n)
    ensures Without(cs, n) == cs
  {
    if cs != [] {
      assert cs[0].name != n;
      WithoutAbsent(cs[1..], n);
      assert [cs[0]] + cs[1..] == cs;
    }
  }

  /** A second removal of the same name is a no-op. */
  lemma WithoutIdempotent(cs: seq<Node>, n: string)
    ensures Without(Without(cs, n), n) == Without(cs, n)
  {
    WithoutAbsent(Without(cs, n), n);
  }

  /** Removal keeps sibling names unique. */
  lemma {:induction false} WithoutKeepsUnique(cs: seq<Node>, n: string)
    requires Unique(cs)
    ensures Unique(Without(cs, n))
  {
    if cs != [] {
      var rest := Without(cs[1..], n);
      assert Unique(cs[1..]) by {
        assert forall i :: 0 <= i < |cs| - 1 ==> cs[1..][i] == cs[i + 1];
      }
      WithoutKeepsUnique(cs[1..], n);
      if cs[0].name != n {
        assert !HasName(rest, cs[0].name);
        var r := [cs[0]] + rest;
        forall i, j | 0 <= i < j < |r| ensures r[i].name != r[j].name {
          if i == 0 {
            assert r[j] == rest[j - 1];
          } else {
            assert r[i] == rest[i - 1] && r[j] == rest[j - 1];
          }
        }
      }
    }
  }

  /** With unique sibling names, removing a present name drops exactly one child. */
  lemma {:induction false} WithoutUniqueDropsOne(cs: seq<Node>, n: string)
    requires Unique(cs)
    ensures |Without(cs, n)| == if HasName(cs, n) then |cs| - 1 else |cs|
  {
    if cs != [] {
      assert Unique(cs[1..]) by {
        assert forall i :: 0 <= i < |cs| - 1 ==> cs[1..][i] == cs[i + 1];
      }
      WithoutUniqueDropsOne(cs[1..], n);
      if cs[0].name == n {
        assert !HasName(cs[1..], n);
      } else {
        assert HasName(cs, n) == HasName(cs[1..], n) by {
          assert forall i :: 1 <= i < |cs| ==> cs[i] == cs[1..][i - 1];
        }
      }
    } else {
      WithoutAbsent(cs, n);
    }
  }

  /*
   * addItem: append a child whose name is not yet taken
   */

  /** Appending a child under a fresh name keeps sibling names unique. */
  lemma AppendKeepsUnique(cs: seq<Node>, item: Node)
    requires Unique(cs) && !HasName(cs, item.name)
    ensures Unique(cs + [item])
  {
  }

  /** Adding a child and then removing its name restores the siblings. */
  lemma AddThenRemove(cs: seq<Node>, item: Node)
    requires !HasName(cs, item.name)
    ensures Without(cs + [item], item.name) == cs
  {
    WithoutAppend(cs, [item], item.name);
    WithoutAbsent(cs, item.name);
    assert Without([item], item.name) == [];
  }

  /*
   * The shell's "rename item": rename the first child carrying a name
   */

  /** The siblings with the first child called `oldName` renamed to `newName`. */
  function RenameFirst(cs: seq<Node>, oldName: string, newName: string): (r: seq<Node>)
    ensures |r| == |cs|
    ensures forall i :: 0 <= i < |cs| ==> r[i].children == cs[i].children
  {
    if cs == [] then []
    else if cs[0].name == oldName then [Node(newName, cs[0].children)] + cs[1..]
    else [cs[0]] + RenameFirst(cs[1..], oldName, newName)
  }

  /** When no child is called `oldName`, the rename does nothing. */
  lemma {:induction false} RenameFirstAbsent(cs: seq<Node>, oldName: string, newName: string)
    requires !HasName(cs, oldName)
    ensures RenameFirst(cs, oldName, newName) == cs
  {
    if cs != [] {
      assert cs[0].name != oldName;
      RenameFirstAbsent(cs[1..], oldName, newName);
      assert [cs[0]] + cs[1..] == cs;
    }
  }

  /** Only the first child called `oldName` is renamed; every other child is unchanged. */
  lemma {:induction false} RenameFirstAt(cs: seq<Node>, oldName: string, newName: string, i: nat)
    requires i < |cs| && cs[i].name == oldName
    requires forall j :: 0 <= j < i ==> cs[j].name != oldName
    ensures RenameFirst(cs, oldName, newName) == cs[i := Node(newName, cs[i].children)]
  {
    if i > 0 {
      RenameFirstAt(cs[1..], oldName, newName, i - 1);
      assert cs[i := Node(newName, cs[i].children)]
          == [cs[0]] + cs[1..][i - 1 := Node(newName, cs[i].children)];
    }
  }

  /** The rename keeps names unique when the new name is not already a sibling's. */
  lemma RenameFirstFreshKeepsUnique(cs: seq<Node>, oldName: string, newName: string)
    requires Unique(cs) && !HasName(cs, newName)
    ensures Unique(RenameFirst(cs, oldName, newName))
  {
    if HasName(cs, oldName) {
      var k :| 0 <= k < |cs| && cs[k].name == oldName;
      var i := FirstWith(cs, oldName, k);
      RenameFirstAt(cs, oldName, newName, i);
    } else {
      RenameFirstAbsent(cs, oldName, newName);
    }
  }

  /** The rename has no collision check: it can make two siblings share a name. */
  lemma RenameFirstCanDuplicate()
    ensures var cs := [Node("tent", []), Node("stove", [])];
            Unique(cs) && !Unique(RenameFirst(cs, "tent", "stove"))
  {
    var r := RenameFirst([Node("tent", []), Node("stove", [])], "tent", "stove");
    assert r[0].name == r[1].name;
  }

  /** The index of the first sibling called `n`, given that the one at `k` is. */
  function FirstWith(cs: seq<Node>, n: string, k: nat): (i: nat)
    requires k < |cs| && cs[k].name == n
    ensures i <= k && cs[i].name == n
    ensures forall j :: 0 <= j < i ==> cs[j].name != n
  {
    if cs[0].name == n then 0 else 1 + FirstWith(cs[1..], n, k - 1)
  }

  /*
   * display: depth-first, pre-order, two more columns per level
   */

  /** The (indent, name) lines display prints for the tree rooted at `n`. */
  function Outline(n: Node, indent: nat): (r: seq<(nat, string)>)
    ensures |r| == Size(n)
    ensures r[0] == (indent, n.name)
    ensures forall k :: 0 <= k < |r| ==> r[k].0 >= indent
    decreases n
  {
    [(indent, n.name)] + OutlineAll(n.children, indent + 2)
  }

  /** The lines of each child's subtree, one child after another. */
  function OutlineAll(cs: seq<Node>, indent: nat): (r: seq<(nat, string)>)
    ensures |r| == SizeAll(cs)
    ensures forall k :: 0 <= k < |r| ==> r[k].0 >= indent
    decreases cs
  {
    if cs == [] then [] else Outline(cs[0], indent) + OutlineAll(cs[1..], indent)
  }

  /** The children's subtrees are printed in child order. */
  lemma {:induction false} OutlineAllAppend(a: seq<Node>, b: seq<Node>, indent: nat)
    ensures OutlineAll(a + b, indent) == OutlineAll(a, indent) + OutlineAll(b, indent)
  {
    if a == [] {
      assert a + b == b;
    } else {
      assert (a + b)[0] == a[0];
      assert (a + b)[1..] == a[1..] + b;
      OutlineAllAppend(a[1..], b, indent);
    }
  }

  /** Indentation is relative: starting `d` columns further right shifts every line by `d`. */
  lemma {:induction false} OutlineShift(n: Node, indent: nat, d: nat)
    ensures forall k :: 0 <= k < |Outline(n, indent)| ==>
      Outline(n, indent + d)[k] == (Outline(n, indent)[k].0 + d, Outline(n, indent)[k].1)
    decreases n, 1
  {
    OutlineAllShift(n.children, indent + 2, d);
  }

  lemma {:induction false} OutlineAllShift(cs: seq<Node>, indent: nat, d: nat)
    ensures forall k :: 0 <= k < |OutlineAll(cs, indent)| ==>
      OutlineAll(cs, indent + d)[k] == (OutlineAll(cs, indent)[k].0 + d, OutlineAll(cs, indent)[k].1)
    decreases cs, 0
  {
    if cs != [] {
      OutlineShift(cs[0], indent, d);
      OutlineAllShift(cs[1..], indent, d);
    }
  }

  /*
   * The item objects the shell mutates
   */

  class Item {
    var name: string
    var children: seq<Node>

    /** A new item has the given name and no children. */
    constructor (name: string)
      ensures this.name == name && children == []
    {
      this.name := name;
      children := [];
    }

    /** The current value of the subtree rooted at this item. */
    function Value(): Node
      reads this
    {
      Node(name, children)
    }

    /**
     * Appends `item` unless a child already carries its name; `duplicate`
     * reports the rejection, in which case nothing changes.
     */
    method AddItem(item: Node) returns (duplicate: bool)
      modifies this
      ensures duplicate <==> HasName(old(children), item.name)
      ensures name == old(name)
      ensures children == if duplicate then old(children) else old(children) + [item]
      ensures Unique(old(children)) ==> Unique(children)
      ensures WellNamed(old(Value())) && WellNamed(item) ==> WellNamed(Value())
    {
      duplicate := HasName(children, item.name);
      if !duplicate {
        if Unique(children) {
          AppendKeepsUnique(children, item);
        }
        children := children + [item];
      }
    }

    /** Drops every child called `itemName`, keeping the others in order. */
    method RemoveItem(itemName: string)
      modifies this
      ensures name == old(name)
      ensures children == Without(old(children), itemName)
      ensures WellNamed(old(Value())) ==> WellNamed(Value())
    {
      ghost var was := children;
      children := Without(children, itemName);
      if WellNamed(Node(name, was)) {
        WithoutKeepsUnique(was, itemName);
      }
    }

    /** Overwrites the name, without any check against the item's siblings. */
    method RenameItem(newName: string)
      modifies this
      ensures name == newName && children == old(children)
    {
      name := newName;
    }

    /** Renames the first child called `oldName`, if there is one, to `newName`. */
    method RenameChild(oldName: string, newName: string)
      modifies this
      ensures name == old(name)
      ensures children == RenameFirst(old(children), oldName, newName)
      ensures Unique(old(children)) && !HasName(old(children), newName) ==> Unique(children)
      ensures WellNamed(old(Value())) && !HasName(old(children), newName) ==> WellNamed(Value())
    {
      ghost var was := children;
      children := RenameFirst(children, oldName, newName);
      if Unique(was) && !HasName(was, newName) {
        RenameFirstFreshKeepsUnique(was, oldName, newName);
        if WellNamed(Node(name, was)) {
          forall c | c in children ensures WellNamed(c) {
            var i :| 0 <= i < |children| && children[i] == c;
            assert was[i] in was;
            assert WellNamed(was[i]) && c.children == was[i].children;
          }
        }
      }
    }
  }
}
