# Personal equipment tracker: the inventory data model

A model, with proofs, of the in-memory core of a small personal inventory
organizer. The user keeps named lists. Each list is a tree of named items,
and the user adds, removes and renames items in it.

- `Items` (`items.dfy`) models the item tree.
  - `Node` is the value of a subtree: a name and an ordered sequence of children.
  - `Item` is the mutable item object. Its methods change `name` and `children` in place:
    add a child unless its name is taken, remove every child with a name, overwrite the name,
    and the shell's "rename item" step, which renames the first child with a given name.
  - `Outline` is the depth-first, pre-order display. It returns `(indent, name)` lines instead of printing them.
  - Specification functions on sibling sequences (`HasName`, `Without`, `RenameFirst`) carry the lemmas.
- `Lists` (`lists.dfy`) models the list manager.
  - `ListManager` is a class whose `lists` field maps a list name to the root `Item` object of that list.
  - Its methods create, rename and delete lists in place. `SelectList` looks a list up.
  - The class invariant `Valid` says that every root is named after its key.
  - `Contents` is the value of all lists. Every method is specified by what it does to `Contents`.
  - `Renamed` is the value-level rename that the method is proved against.
- `Wrappers` (`wrappers.dfy`) holds `Option`, which replaces a lookup that returns null.
- `Scenarios` (`scenarios.dfy`) holds client methods.
  - Each states a command sequence and proves what follows from the contracts alone: create a list twice,
    rename onto a taken name, add an item through a selected list, and rename a child onto a sibling's name.
  - The third one shows aliasing. `SelectList` hands out the manager's own root object,
    so an item added to it shows up in the manager's lists.

Every "already exists" console message becomes a returned `duplicate` flag.
The contracts can then say "rejected, and nothing changed".

Where the design description and the code differ, the model follows the code:

- Names may be any string, including the empty one. The code does not check that names are non-empty.
- Sibling-name uniqueness is not an invariant the code keeps. Adding and removing preserve it.
  The shell's child rename has no collision check and can break it. `RenameFirstCanDuplicate`
  exhibits such a case. The operation is modelled as written.
- Display is an eager recursive walk, not a lazy sequence. It is modelled as the finite line sequence it prints.

## Model

| member | source | states |
|---|---|---|
| `Items.HasName` | PersonalEquipmentTracker.java:16 | the name test of addItem holds exactly when some child at some index carries the name |
| `Items.Without` | PersonalEquipmentTracker.java:24-26 | removeItem's result is no longer than before, holds only former children not named `n`, and no child named `n` remains |
| `Items.WithoutMembers` | PersonalEquipmentTracker.java:24-26 | a child survives removal if and only if it was a child and its name is not `n` |
| `Items.WithoutCounts` | PersonalEquipmentTracker.java:24-26 | every surviving child keeps its multiplicity; children named `n` occur zero times |
| `Items.WithoutAppend` | PersonalEquipmentTracker.java:25 | removal distributes over concatenation, so the relative order of the kept children is preserved |
| `Items.WithoutAbsent` | PersonalEquipmentTracker.java:25 | removing a name no child carries leaves the children unchanged |
| `Items.WithoutIdempotent` | PersonalEquipmentTracker.java:24-26 | a second removal of the same name changes nothing |
| `Items.WithoutKeepsUnique` | PersonalEquipmentTracker.java:24-26 | removal keeps sibling names unique |
| `Items.WithoutUniqueDropsOne` | PersonalEquipmentTracker.java:24-26 | with unique sibling names, removal drops exactly one child when the name is present and none otherwise |
| `Items.AppendKeepsUnique` | PersonalEquipmentTracker.java:15-21 | appending a child under a name no sibling has keeps sibling names unique |
| `Items.AddThenRemove` | PersonalEquipmentTracker.java:15-26 | adding a child under a fresh name and then removing that name restores the former children |
| `Items.RenameFirst` | PersonalEquipmentTracker.java:207-210 | the child rename keeps the number of children and every child's own children |
| `Items.RenameFirstAbsent` | PersonalEquipmentTracker.java:207-210 | when no child has the old name, the child rename is a no-op |
| `Items.RenameFirstAt` | PersonalEquipmentTracker.java:207-210 | only the first child with the old name gets the new name; every other child is unchanged |
| `Items.RenameFirstFreshKeepsUnique` | PersonalEquipmentTracker.java:207-210 | the child rename keeps sibling names unique when the new name is not already taken |
| `Items.RenameFirstCanDuplicate` | PersonalEquipmentTracker.java:28-30 | counterexample: renaming "tent" to "stove" among unique siblings "tent" and "stove" leaves two siblings with one name |
| `Items.FirstWith` | PersonalEquipmentTracker.java:208-209 | the first-match search finds a child with the name, and no earlier child has it |
| `Items.Outline` | PersonalEquipmentTracker.java:33-38 | display prints one line per node of the tree, the root first at `indent`, and no line left of `indent` |
| `Items.OutlineAll` | PersonalEquipmentTracker.java:35-37 | the children's subtrees print one line per node, none left of the children's indent |
| `Items.OutlineAllAppend` | PersonalEquipmentTracker.java:35-37 | children's subtrees are printed one after another in child order |
| `Items.OutlineShift` | PersonalEquipmentTracker.java:33-38 | displaying at `indent + d` prints the same names with every line shifted right by `d` |
| `Items.OutlineAllShift` | PersonalEquipmentTracker.java:35-37 | the same shift law for a sequence of child subtrees |
| `Items.Item.constructor` | PersonalEquipmentTracker.java:10-13 | a new item has the given name and no children |
| `Items.Item.AddItem` | PersonalEquipmentTracker.java:15-21 | a taken name is reported and leaves the children unchanged; otherwise the item is appended at the end; sibling uniqueness is preserved, and so is tree-wide uniqueness when the added item is itself well named |
| `Items.Item.RemoveItem` | PersonalEquipmentTracker.java:24-26 | the children become `Without` of the old children; the name is kept; tree-wide uniqueness is preserved |
| `Items.Item.RenameItem` | PersonalEquipmentTracker.java:28-30 | the name is overwritten unconditionally; the children are kept |
| `Items.Item.RenameChild` | PersonalEquipmentTracker.java:207-210 | the children become `RenameFirst` of the old children and the name is kept; sibling uniqueness, and tree-wide uniqueness, are kept when the new name is fresh; `RenameFirstCanDuplicate` shows uniqueness can break otherwise |
| `Lists.Renamed` | PersonalEquipmentTracker.java:57-68 | a list rename keeps the number of lists and preserves the rule that each list is keyed by its root's name |
| `Lists.RenamedEntries` | PersonalEquipmentTracker.java:61-66 | a rename that goes through removes the old key, adds the new key holding the old children under the new name, and keeps every other entry |
| `Lists.RenameBack` | PersonalEquipmentTracker.java:57-68 | renaming a list and renaming it back restores all lists exactly |
| `Lists.ListManager.Contents` | PersonalEquipmentTracker.java:42 | the lists' values have the manager's keys, and each value is named after its key while the class invariant holds |
| `Lists.ListManager.constructor` | PersonalEquipmentTracker.java:44-46 | a new manager has no lists |
| `Lists.ListManager.CreateList` | PersonalEquipmentTracker.java:48-54 | a taken name is reported and nothing changes; otherwise a fresh empty root named after the key is added and no other entry changes; the invariant is kept |
| `Lists.ListManager.RenameList` | PersonalEquipmentTracker.java:57-68 | a taken new name is reported; a taken new name or a missing old name leaves every list and item untouched; otherwise the same root object moves to the new key and takes its name, and no other item changes |
| `Lists.ListManager.DeleteList` | PersonalEquipmentTracker.java:71-73 | the key is removed if present and every other list is unchanged |
| `Lists.ListManager.SelectList` | PersonalEquipmentTracker.java:75-77 | a list is found exactly when its key is present; the result is the manager's own root object, whose value is that list and whose name is the key |

## Left out

- Persistence (`PersistenceManager`, PersonalEquipmentTracker.java:91-115): Java object serialization to a fixed file, with its error handling. The format belongs to a library outside this model, so the save/load round trip is not stated.
- The menu loops `main` and `manageItems`, console input and option dispatch (PersonalEquipmentTracker.java:117-219): command-line plumbing. The exception is the shell's child rename at lines 207-210, which is modelled as `Item.RenameChild`.
- `displayLists` (PersonalEquipmentTracker.java:79-88) and all console text: only output, and `HashMap` key order is unspecified. Rejections are returned as `duplicate` flags instead of printed messages.
- `Outline` returns the indent as a number of columns, not the string of spaces `" ".repeat(indent)` that display prints. The indent is a `nat` because `repeat` rejects negative counts.
- Nested items are values (`Node`), not objects. Only the list roots are `Item` objects. The shell's in-place rename of a child object is modelled as replacing that child in its parent's children sequence, which gives the same tree. Calling item methods on a deeper, shared child object is not modelled; the code never shares one.
- Null names and null map values are not modelled. Names are plain strings compared exactly, as `String.equals` does.
