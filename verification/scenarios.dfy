/**
 * Sequences of commands as the shell issues them, with what a caller can
 * conclude from the contracts alone.
 */
module Scenarios {
  import opened Items
  import opened Lists

  /** Creating the same list twice keeps one empty list and rejects the second call. */
  method CreateTwice()
  {
    var m := new ListManager();
    var first := m.CreateList("Camping");
    var second := m.CreateList("Camping");
    assert !first && second;
    assert m.Contents() == map["Camping" := Node("Camping", [])];
  }

  /** Renaming onto a taken name is rejected, and both lists stay as they were. */
  method RenameOntoTakenName()
  {
    var m := new ListManager();
    var _ := m.CreateList("A");
    var _ := m.CreateList("B");
    var duplicate := m.RenameList("A", "B");
    assert duplicate;
    assert m.Contents() == map["A" := Node("A", []), "B" := Node("B", [])];
  }

  /**
   * An item added through the selected list shows up in the manager, because
   * selection hands out the list's own root item, and is displayed one level in.
   */
  method AddThroughSelection()
  {
    var m := new ListManager();
    var _ := m.CreateList("Camping");
    var selected := m.SelectList("Camping");
    var list := selected.value;
    var duplicate := list.AddItem(Node("Tent", []));
    assert !duplicate;
    assert m.Contents()["Camping"] == Node("Camping", [Node("Tent", [])]);
    assert Outline(m.Contents()["Camping"], 0) == [(0, "Camping"), (2, "Tent")];
  }

  /** Renaming a child onto a sibling's name goes through and leaves two children with one name. */
  method RenameChildOntoSibling()
  {
    var list := new Item("Camping");
    var _ := list.AddItem(Node("Tent", []));
    var rejected := list.AddItem(Node("Tent", []));
    assert rejected;
    var _ := list.AddItem(Node("Stove", []));
    list.RenameChild("Tent", "Stove");
    assert list.children == [Node("Stove", []), Node("Stove", [])];
    list.RemoveItem("Stove");
    assert list.children == [];
  }
}
