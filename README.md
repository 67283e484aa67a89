# Outline tree engine, modelled in Dafny

This project models the tree engine of an outline editor. An outline is a map from item ids to items. Each item has an optional parent, an ordered list of child ids, an `expand` flag, a `loaded` flag and opaque content. The model covers three parts.

- **The tree reducer** (`src/reducers/tree.ts`). This is a pure function from a tree and an action to the next tree plus an effect. The effect says whether to save, whether to record an undo step, and which mode to switch to. It covers create, update, edit, remove, toggle, expand, fold, reorder, indent, unindent, drop and goto-next/previous. A thrown error is an `Err` result, and `Date.now()` is a parameter.
- **The tree module** (`src/tree.ts`):
  - the `Tree`, `Mode` and `DropPosition` types;
  - `initTree`;
  - the persisted record shape (`toJSON`/`fromJSON`) and `saveTreeState`, with storage as a map;
  - the depth-bounded lazy loader (`loadChildren`, `loadItemState`, `loadTreeState`);
  - the ancestry test `isChildrenOf`, which is a loop and is modelled as a method.
- **The outline node component** (`src/List/ListNode.tsx`):
  - the drop-position rule;
  - the per-node drag-and-drop state machine, as a class whose dispatched actions go to a log;
  - the guards that decide which intents a node may emit.

The reducer imports helpers that are not in `src/tree.ts`: `getItem`, `getItemAndParent`, `getItemPosition`, `moveInto`, `getNextItemId` and `getPrevItem`. Their source is not part of this model, so the module `Oracle` defines them with contracts:
- the lookups fail when an id is absent;
- `moveInto` removes the id from the old parent's list, inserts it into the new parent's list at the index clamped to that list, and sets the parent link;
- navigation follows the visible depth-first order.

Most of the proof work is about the structure of the outline:
- `Linked`: every entry is keyed by its own id, parent links name existing items, listed children point back, and no list repeats an id.
- `Consistent`: `Linked`, plus every parent lists its children.
- `Acyclic`: every upward walk ends.

Every admissible action the reducer accepts keeps the map linked and acyclic. Every such action except removal also keeps it consistent. Removal leaves the removed item as an unlisted entry, which is how the source leaves it. Beside that there are placement lemmas for every structural action:
- where a created, indented, unindented, reordered or dropped item lands;
- that unindent undoes indent;
- that toggling twice restores the tree;
- that navigation moves between adjacent siblings.

Worked examples on small outlines are scenario lemmas in `Scenarios`. Each holds for any tree that has the named entries.

Three behaviours of the code are easy to misread; the model follows the code:
- In `[A, N, B, C]`, dropping `N` above `B` leaves the list as it is. `N` is taken out first and the target index is corrected by one, so `N` lands straight back above `B`. It does not give `[A, B, N, C]`; dropping `N` below `B` gives that list.
- `computeDropPosition` compares distances with a strict `>`. So a cursor exactly halfway between the top and bottom edges gives `above`.
- The reducer's remove handler does not refuse an item with children. Only the node's keyboard guard does (`useEditOperate`).

## Model

| member | source | states |
|---|---|---|
| TreeState.InitTree | src/tree.ts:69-74 | the initial tree has no root, an empty map, `loading` set and normal mode |
| TreeState.ToJson | src/tree.ts:81-87 | the record keeps the item's id, parent, children, expand flag and content |
| TreeState.FromJson | src/tree.ts:96-104 | the rebuilt item keeps the record's fields, is not deleted, and is loaded exactly when its children list is empty |
| TreeState.RecordRoundTrip | src/tree.ts:81-104 | exporting then importing an item preserves every persisted field, and exporting the result gives back the same record |
| TreeState.SaveTreeState | src/tree.ts:76-90 | with no root nothing is written; otherwise the root key is set, each item's record is (over)written, and other stored records are untouched |
| Items.CreateItem | src/List/ListNode.tsx:140 | a created item has the given id, parent and content, no children, is expanded, loaded and not deleted, and carries the clock reading |
| Ancestry.Up | src/tree.ts:170-173 | a walk of `n` parent links that lands somewhere lands on a stored item, and each step needs a stored item with a parent |
| Ancestry.IsChildrenOf | src/tree.ts:168-175 | the loop answers true exactly when `parent` is reached by following parent links strictly upward from `child`; so it answers false for `(x, x)` and for an absent child |
| Loader.GetItemByIdFromStorage | src/tree.ts:92-112 | an item is returned exactly when storage holds the id; it is marked loaded and carries the record's fields |
| Loader.LoadChildren | src/tree.ts:114-132 | a missing item gives an empty map; otherwise the item is present and all keys are well keyed; at a level ≤ 0 only the item is returned, and it stays loaded only if it has no children |
| Loader.LoadForest | src/tree.ts:115-125 | the merged children's subtrees are well keyed |
| Loader.LoadChildrenKeys | src/tree.ts:114-132 | the load holds exactly the item's id and the ids of stored items at most `maxLevel` child links below it |
| Loader.LoadForestKeys | src/tree.ts:115-125 | the merged subtrees hold exactly the ids within reach of some listed child |
| Loader.LoadChildrenFlags | src/tree.ts:106-127 | every entry of a load is marked not loaded only when it has children left to fetch, provided the requested item itself is loaded or has children |
| Loader.LoadForestFlags | src/tree.ts:115-125 | the same for the merged children's subtrees |
| Loader.LoadChildrenComplete | src/tree.ts:114-132 | every entry marked loaded has each of its stored children present in the map |
| Loader.LoadForestComplete | src/tree.ts:115-125 | the same for merged subtrees, and each listed child that storage holds is present |
| Loader.UnionKeepsLoadedComplete | src/tree.ts:125 | merging two maps that are each complete gives a complete map |
| Loader.LoadChildrenSourced | src/tree.ts:114-132 | every entry of a load is the requested item or agrees with a stored record |
| Loader.LoadForestSourced | src/tree.ts:115-125 | every entry of merged subtrees agrees with a stored record |
| Loader.LoadItemState | src/tree.ts:152-156 | the requested id maps to the item with `loaded` set, whatever the load produced for it; the keys are those of the load; no root or loading flag is reported |
| Loader.LoadItemStateComplete | src/tree.ts:152-156 | with at least one level, every loaded entry of the result has all of its stored children present |
| Loader.LoadItemStateFlags | src/tree.ts:152-156 | for any requested item, loaded or not, every entry of the result marked not loaded has children left to fetch |
| Loader.CreateEmptyState | src/tree.ts:142-150 | an empty notebook is one parentless, childless root under the fresh id, reported as root with loading cleared |
| Loader.LoadTreeState | src/tree.ts:158-166 | without a stored root the empty notebook is created; otherwise the stored root is reported and the map is empty exactly when the root's record is missing |
| Loader.SaveThenLoadItem | src/tree.ts:76-156 | after saving a well-keyed tree into empty storage, loading any of its items yields exactly the items within `maxLevel` child links of it in the tree, each agreeing with the saved tree on every persisted field |
| Loader.SaveOverThenLoadItem | src/tree.ts:76-156 | after saving a well-keyed tree over storage whose records sit under their own ids, loading any of its items gives, for each id of the tree, an entry agreeing with the tree on every persisted field, and for any other id the record storage held before the save |
| Loader.SavedWithinIsReach | src/tree.ts:76-132 | in the storage a saved tree leaves, the ids a load reaches through records are the ids reached through the tree's own child lists |
| Oracle.GetItem | src/reducers/tree.ts:51 | the lookup succeeds exactly when the id is stored, and yields its entry |
| Oracle.GetItemAndParent | src/reducers/tree.ts:69 | succeeds exactly when the item is stored and has a stored parent, and yields both entries |
| Oracle.GetItemPosition | src/reducers/tree.ts:118 | succeeds exactly when the id is listed, and yields its first index |
| Oracle.MoveInto | src/reducers/tree.ts:86 | succeeds exactly when the item and both parents are stored; keeps the key set and sets the item's parent |
| Oracle.MoveIntoShape | src/reducers/tree.ts:86 | a move changes only the item's parent link and the two children lists; the old list loses the item |
| Oracle.MoveIntoPlaces | src/reducers/tree.ts:86 | the new list is the old one, without the item when it is the same parent, with the item inserted at the clamped index |
| Oracle.RelinkEntry | src/reducers/tree.ts:86 | after relinking, an entry differs at most in its parent link (only the moved item's) and its children list (only the two parents') |
| Oracle.MoveIntoEntry | src/reducers/tree.ts:86 | the same for a move, with the new and old lists spelled out |
| Oracle.GetPrevItem | src/reducers/tree.ts:70 | the previous item is the item itself (root) or a stored item |
| Oracle.GetNextItemId | src/reducers/tree.ts:171 | the next id is a stored id or the item's own |
| Lists.IndexOf | src/reducers/tree.ts:55 | -1 exactly when absent; otherwise the first index holding the value |
| Lists.Without | src/reducers/tree.ts:72 | the filtered list is never longer than the original; what it keeps is stated by `WithoutMembers` and `WithoutConcat` |
| Lists.InsertAt | src/reducers/tree.ts:56 | the value lands at the index, with the prefix before it and the rest after it |
| Lists.WithoutMembers | src/reducers/tree.ts:72 | filtering out a value keeps exactly the other members |
| Lists.WithoutConcat | src/reducers/tree.ts:72 | filtering a concatenation filters each part and keeps the parts in order |
| Lists.InsertAtMembers | src/reducers/tree.ts:56 | inserting a value adds exactly that value to the members |
| Lists.InsertKeepsNoDup | src/reducers/tree.ts:56 | inserting a value that is not listed keeps the list free of duplicates |
| Lists.IndexOfAt | src/reducers/tree.ts:118 | in a list without duplicates the index lookup finds the position an element sits at |
| Reducer.DoNothing | src/reducers/tree.ts:38 | the tree is unchanged, with no save, no record and no mode change |
| Reducer.SaveAndRecord | src/reducers/tree.ts:40 | the tree is unchanged, with save and record set |
| Reducer.CreateSlot | src/reducers/tree.ts:54-59 | a created item's slot is just after `above` when `above` is listed, otherwise the front |
| Reducer.HandleCreate | src/reducers/tree.ts:44-64 | fails without a parent or with an absent parent; otherwise adds the item's key, saves, records and switches to editing the new item |
| Reducer.HandleRemove | src/reducers/tree.ts:66-75 | succeeds exactly when the item and its parent are stored; keeps the keys, saves, records and edits the previous item |
| Reducer.HandleIndent | src/reducers/tree.ts:77-88 | an absent parent fails; a first child (index < 1) gives the tree back with no save or record; otherwise saves and records |
| Reducer.HandleUnIndent | src/reducers/tree.ts:90-97 | fails without item and parent; a parent at the top (no grandparent) gives the tree back with no save or record; otherwise saves and records |
| Reducer.HandleUpdate | src/reducers/tree.ts:99-102 | stores the item under its id, leaves every other entry, the root and the mode alone, never saves, and records on request |
| Reducer.HandleEdit | src/reducers/tree.ts:104-113 | unchanged content gives the same tree with save only; new content replaces only that item's content and modification time, with save and record |
| Reducer.HandleReorder | src/reducers/tree.ts:115-125 | delta 0 does nothing; an unparented item fails; otherwise saves and records and keeps the keys |
| Reducer.DropIndex | src/reducers/tree.ts:139-145 | the target's index, one less when both share a parent and the item comes first, then one more for `below` |
| Reducer.ApplyDrop | src/reducers/tree.ts:127-149 | needs item and target with parents; keeps the keys and the rest of the tree; saves and records |
| Reducer.HandleToggle | src/reducers/tree.ts:151-167 | succeeds exactly when the item is stored; only its `expand` changes (flipped, set or cleared); no save or record |
| Reducer.HandleGotoNext | src/reducers/tree.ts:169-177 | never changes the tree; edits the next item unless that is the root |
| Reducer.HandleGotoPrev | src/reducers/tree.ts:179-184 | never changes the tree; edits the previous item |
| Reducer.TreeReducer | src/reducers/tree.ts:186-217 | an unknown action fails; every accepted action keeps root and mode; every one but create and update keeps the key set |
| Invariants.InitTreeValid | src/tree.ts:69-74 | the initial tree is consistent and acyclic |
| Invariants.MoveIntoKeeps | src/reducers/tree.ts:86 | moving an item from its parent to a stored item whose upward walk avoids it keeps the map linked and acyclic, and keeps parents listing their children |
| Invariants.MoveIntoKeepsConsistent | src/reducers/tree.ts:86 | moving an item from its parent to any stored item keeps the map consistent |
| Invariants.MoveIntoKeepsAcyclic | src/reducers/tree.ts:86 | moving under an item whose upward walk avoids the moved item keeps the map acyclic |
| ReducerLaws.CreateCreated | src/reducers/tree.ts:44-64 | an accepted create adds the item and inserts its id into the parent's list at the create slot; the list stays free of duplicates when the id is new |
| ReducerLaws.SameLinksKeep | src/reducers/tree.ts:99-113 | a change that keeps every key, parent link and children list keeps the map linked, parents listing children and acyclic |
| ReducerLaws.CreateKeeps | src/reducers/tree.ts:44-64 | creating a childless item under a fresh id keeps the invariants |
| ReducerLaws.UnlistedKeeps | src/reducers/tree.ts:72-73 | taking an item out of its parent's list, and changing nothing else, keeps the map linked and acyclic |
| ReducerLaws.RemoveKeeps | src/reducers/tree.ts:66-75 | removal keeps the map linked and acyclic |
| ReducerLaws.IndentKeeps | src/reducers/tree.ts:77-88 | indenting keeps the invariants |
| ReducerLaws.UnIndentKeeps | src/reducers/tree.ts:90-97 | unindenting keeps the invariants |
| ReducerLaws.ReorderKeeps | src/reducers/tree.ts:115-125 | reordering keeps the invariants |
| ReducerLaws.DropKeeps | src/reducers/tree.ts:127-149 | dropping keeps the invariants when the target is not the item or below it |
| ReducerLaws.UpdateKeeps | src/reducers/tree.ts:99-102 | an update that keeps the item's links keeps the invariants |
| ReducerLaws.EditKeeps | src/reducers/tree.ts:104-113 | editing keeps the invariants |
| ReducerLaws.ToggleKeeps | src/reducers/tree.ts:151-167 | toggling keeps the invariants |
| ReducerLaws.ReducerKeeps | src/reducers/tree.ts:186-217 | every accepted admissible action keeps the map linked and acyclic, and every one but removal keeps parents listing their children |
| ReducerLaws.ReducerKeepsConsistent | src/reducers/tree.ts:186-217 | every accepted admissible action except removal keeps the map consistent and acyclic |
| ReducerMoves.CreatePlaces | src/reducers/tree.ts:44-64 | the new item is stored and listed just after `above`, or first; the other children keep their order |
| ReducerMoves.UnlistedEverywhere | src/reducers/tree.ts:72-73 | taking an item out of its parent's list leaves it in no list at all |
| ReducerMoves.RemoveDetaches | src/reducers/tree.ts:66-75 | afterwards no list holds the removed item, its own entry is unchanged, and every other entry but the parent is unchanged |
| ReducerMoves.IndentMoves | src/reducers/tree.ts:77-88 | the item becomes the last child of its previous sibling and leaves its parent's list |
| ReducerMoves.UnIndentMoves | src/reducers/tree.ts:90-97 | the item leaves its parent and is listed in the grandparent just after its old parent |
| ReducerMoves.IndentIsMove | src/reducers/tree.ts:84-87 | an indent is the move of the item to the end of its previous sibling's children |
| ReducerMoves.UnIndentIsMove | src/reducers/tree.ts:91-96 | an unindent is the move of the item into the grandparent just after its parent |
| ReducerMoves.MovedThereAndBack | src/reducers/tree.ts:77-97 | moving an item to the end of a sibling's list and back to its old index restores the map |
| ReducerMoves.MoveToEnd | src/reducers/tree.ts:86 | moving an item to the end of another item's list appends it there, removes it from the old list and sets its parent |
| ReducerMoves.IndentedAndBack | src/reducers/tree.ts:77-97 | after the indent's move the previous sibling is the item's parent and sits just before the item's old index, and the unindent's move restores the map |
| ReducerMoves.IndentThenUnIndent | src/reducers/tree.ts:77-97 | on a consistent acyclic tree, unindenting right after an indent restores the tree exactly |
| ReducerMoves.ReorderAccepted | src/reducers/tree.ts:115-125 | the reducer accepts a reorder by any offset of a well-keyed item listed under its stored parent |
| ReducerMoves.IndentAccepted | src/reducers/tree.ts:77-88 | when every listed child is stored, the reducer accepts an indent under any stored parent, whether or not the item has a previous sibling |
| ReducerMoves.UnIndentAccepted | src/reducers/tree.ts:90-97 | when every parent link names a stored item, the reducer accepts an unindent of any item with a parent, whatever parent the action names |
| ReducerMoves.ReorderIsMove | src/reducers/tree.ts:115-125 | a listed item whose index plus delta lies within its list is reordered by moving it within its parent to index plus delta, with save and record |
| ReducerMoves.MoveWithinList | src/reducers/tree.ts:119-124 | moving an item within its own list to `order` puts it at `order` (last when `order` is the size of the list) and the other children keep their order |
| ReducerMoves.ReorderOutOfRange | src/reducers/tree.ts:119-122 | a target index below 0 or above the size leaves the tree unchanged but still saves and records |
| ReducerMoves.DropInnerPlaces | src/reducers/tree.ts:134-137 | an inner drop makes the item the target's first child, ahead of the target's other children in their old order |
| ReducerMoves.DropBesidePlaces | src/reducers/tree.ts:139-147 | a drop above (below) lands the item right before (after) the target in the target's parent's list; the rest of that list keeps its order |
| ReducerMoves.LandBeside | src/reducers/tree.ts:139-146 | inserting next to position `j` of the list without the item puts the item just before or after that entry, without duplicates, and removing it gives that list back |
| ReducerMoves.TargetSlot | src/reducers/tree.ts:139-145 | the corrected index points at the target in the list the item is inserted into |
| ReducerMoves.ToggleTwice | src/reducers/tree.ts:151-167 | a toggle flips `expand` without save, record or mode, and a second toggle restores the tree |
| ReducerMoves.NextPrevSiblings | src/reducers/tree.ts:169-184 | from a folded or childless item, next is its next sibling, and previous from that sibling comes back |
| Scenarios.CreateAfterSibling | src/reducers/tree.ts:44-64 | creating `N` below `A` in `[A, B]` gives `[A, N, B]` and edits `N` |
| Scenarios.DropAboveInPlace | src/reducers/tree.ts:127-149 | in `[A, N, B, C]` dropping `N` above `B` leaves `[A, N, B, C]` |
| Scenarios.DropBelowSwaps | src/reducers/tree.ts:127-149 | in `[A, N, B, C]` dropping `N` below `B` gives `[A, B, N, C]` |
| Scenarios.DropInto | src/reducers/tree.ts:134-137 | dropping `C` into childless `A` gives `A: [C]` and leaves `[A, B]` |
| Scenarios.ReorderUp | src/reducers/tree.ts:115-125 | moving `B` up in `[A, B]` gives `[B, A]` |
| Scenarios.ReorderPastEnd | src/reducers/tree.ts:119-124 | one down from the end keeps the list; two down keeps the whole tree; both save and record |
| Scenarios.RemoveOnlyChild | src/reducers/tree.ts:66-75 | removing the only child empties the parent's list, keeps the child's entry, and edits the parent |
| Scenarios.IndentThenBack | src/reducers/tree.ts:77-97 | indenting `B` in `[A, B]` gives `A: [B]`; unindenting it gives `[A, B]` back |
| ListNode.ComputeDropPosition | src/List/ListNode.tsx:46-53 | below exactly when the cursor is farther from the top edge than from the bottom edge, otherwise above; never inner |
| ListNode.DropSplitsAtMiddle | src/List/ListNode.tsx:50-52 | on a box of positive height, below exactly past the midpoint; the midpoint itself is above |
| ListNode.DragAndDrop.constructor | src/List/ListNode.tsx:57-59 | a node starts not dragging, with no drop marker and nothing dispatched |
| ListNode.DragAndDrop.CanDrop | src/List/ListNode.tsx:70-72 | a drop is possible exactly when the payload carries a node id and the node does not report itself dragging (its own flag or its parent's) |
| ListNode.DragAndDrop.Dragging | src/List/ListNode.tsx:99 | the reported flag is the node's own or its parent's |
| ListNode.DragAndDrop.OnDragStart | src/List/ListNode.tsx:60-65 | puts the node's id in the payload under the node type, marks it dragged, dispatches the switch to drag mode |
| ListNode.DragAndDrop.OnDragEnd | src/List/ListNode.tsx:66-69 | clears dragging and dispatches the switch to normal mode |
| ListNode.DragAndDrop.OnDrop | src/List/ListNode.tsx:70-83 | clears dragging; only when `canDrop` held before the event and the content exists does it clear the marker and dispatch the drop beside this node; the switch to normal mode is always dispatched, last |
| ListNode.DragAndDrop.OnDragOver | src/List/ListNode.tsx:84-93 | the marker becomes the computed position when a drop is possible here, and is otherwise kept |
| ListNode.DragAndDrop.OnDragLeave | src/List/ListNode.tsx:94-98 | the marker is cleared |
| ListNode.RenderChild | src/List/ListNode.tsx:199 | a child's `parentDragging` is its parent's reported `dragging` |
| ListNode.DragOnto | src/List/ListNode.tsx:60-83 | dragging one node onto another outside its subtree dispatches the drop of the first beside the second, and both end in normal mode; the dragged node keeps its marker and the target's is cleared |
| ListNode.DragOntoSelf | src/List/ListNode.tsx:70-83 | a node never accepts a drop of itself: only the two mode switches are dispatched |
| ListNode.DragOntoDescendant | src/List/ListNode.tsx:70-99 | while a node is dragged, its freshly rendered child and grandchild refuse the drop, dispatch only the switch to normal mode and show no marker |
| ListNode.Operate | src/List/ListNode.tsx:115-164 | moves need a parent, removal needs no children, toggling needs some, edit mode needs the node not to be edited; create and navigation always dispatch. Which intent: swap up/down reorders the node by -1/+1, indent and unindent name the node's parent, create sends a new empty childless item with the fresh id under the node's parent placed just below the node, and remove, toggle and navigation name the node |
| ListNode.OperateAccepted | src/List/ListNode.tsx:115-164 | on a consistent tree every intent a node emits is accepted by the reducer, except create and remove on the parentless root |
| ListNode.OperateKeeps | src/List/ListNode.tsx:115-164 | every accepted intent a node emits keeps a consistent tree consistent and acyclic (removal: linked and acyclic), given an unused id for created items |

## Left out

- Storage I/O is left out: localforage, the dynamic `import()` calls and `console` logging. Storage is a map from id to record plus the root key.
- The concurrency of `Promise.all` in `loadChildren` is left out. The fan-out is a sequential merge in list order, so later children's entries win, as `Map.merge` does.
- Content conversion (`editorToRow`, `editorFromRaw`, `createEditorWithText`) is left out, because it is draft-js code. Content is one opaque value, compared only for equality. The reducer's `source` and the tree module's `editor` are the same field here.
- `Date.now()` and `Item.create`'s id generator are parameters (`now`, `newId`, `freshId`).
- The helpers the reducer imports (`getItem`, `getItemAndParent`, `getItemPosition`, `moveInto`, `getNextItemId`, `getPrevItem`) are defined by this model, because their source is not part of it. Navigation walks at most as many links as there are items.
- Ids are modelled as integers, since they are compared only for equality. JavaScript treats an empty-string id as false, and that case is not modelled. So `if (!parentId)` and `if (create.above)` in the reducer are read as presence tests, and so is the node guards' truthiness test on the parent.
- Reducer.HandleUnIndent: `parent.parent === null` is read as "no parent". A parent field left `undefined` by a record without one is not told apart from `null`.
- Ancestry.IsChildrenOf: requires an acyclic map. On a map whose parent links form a cycle that avoids `parent`, the source loop never stops.
- ReducerLaws.ReducerKeeps: the preservation laws need admissible actions:
  - a create uses an unused id and no children;
  - an update keeps the item's links;
  - a drop target is neither the item nor below it.

  The reducer itself checks none of these.
- ListNode.DragAndDrop: `parentDragging` is fixed per node. A re-render with a new value is a new node (`RenderChild`), so a marker a child showed before its parent started dragging is not carried over. `DragOntoDescendant`'s "no marker" rests on this.
- React rendering, hook memoisation, the load-on-mount effect (`useLoadChildren`), CSS class assembly, event bubbling, `preventDefault`/`stopPropagation` and `effectAllowed` are left out. The payload is its list of types plus the dragged id. Cursor coordinates are integers, not floating point.
- `src/List/ItemEditor.tsx` is not part of this model. Its key bindings, and the backspace-removes rule, depend on draft-js editor state.
