/**
 * The tree aggregate, the interaction modes, the drop positions, and the
 * record shape in which items are persisted (src/tree.ts).
 */
module TreeState {
  import opened Wrappers
  import opened Items

  datatype DropPosition = Above | Below | Inner

  datatype DropAt = DropAt(target: Id, position: DropPosition)

  /** The exclusive interaction state of the editor. */
  datatype Mode =
    | NormalMode
    | EditMode(id: Id)
    | SelectMode(selected: seq<Id>, cut: bool)
    | DetailMode(id: Id)
    | DragMode(dropAt: Option<DropAt>)

  /** The in-memory tree: `items` is the source's `map` (a keyword in Dafny). */
  datatype Tree = Tree(root: Option<Id>, items: map<Id, Item>, loading: bool, mode: Mode)

  /** The tree before anything has been loaded. */
  function InitTree(): (t: Tree)
    ensures t.root == None && t.items == map[] && t.loading && t.mode == NormalMode
  {
    Tree(None, map[], true, NormalMode)
  }

  /** The persisted record of one item. */
  datatype ExportedItem = ExportedItem(
    id: Id,
    parent: Option<Id>,
    children: seq<Id>,
    expand: bool,
    rawContent: Content
  )

  /** The key-value store: the reserved root key and one record per item id. */
  datatype Storage = Storage(root: Option<Id>, records: map<Id, ExportedItem>)

  function ToJson(it: Item): (e: ExportedItem)
    ensures e.id == it.id && e.parent == it.parent && e.children == it.children
    ensures e.expand == it.expand && e.rawContent == it.content
  {
    ExportedItem(it.id, it.parent, it.children, it.expand, it.content)
  }

  /** The item rebuilt from its record; `loaded` is true exactly when there are no children. */
  function FromJson(e: ExportedItem): (it: Item)
    ensures it.id == e.id && it.parent == e.parent && it.children == e.children
    ensures it.expand == e.expand && it.content == e.rawContent
    ensures !it.deleted && it.modified == None
    ensures it.loaded <==> |e.children| == 0
  {
    Item(e.id, e.parent, e.children, e.rawContent, e.expand, |e.children| == 0, false, None)
  }

  /** Two items carry the same persisted fields. */
  ghost predicate SameRecord(a: Item, b: Item) {
    a.id == b.id && a.parent == b.parent && a.children == b.children
    && a.expand == b.expand && a.content == b.content
  }

  /** Exporting and re-importing an item keeps every persisted field. */
  lemma RecordRoundTrip(it: Item)
    ensures SameRecord(FromJson(ToJson(it)), it)
    ensures ToJson(FromJson(ToJson(it))) == ToJson(it)
  {
  }

  /**
   * Persist the tree: nothing is written while there is no root; otherwise
   * the root key and one record per map entry are (over)written.
   */
  function SaveTreeState(t: Tree, st: Storage): (r: Storage)
    ensures t.root.None? ==> r == st
    ensures t.root.Some? ==> r.root == t.root
    ensures t.root.Some? ==> r.records.Keys == st.records.Keys + t.items.Keys
    ensures t.root.Some? ==> forall k | k in t.items :: r.records[k] == ToJson(t.items[k])
    ensures t.root.Some? ==> forall k | k in st.records && k !in t.items :: r.records[k] == st.records[k]
  {
    if t.root.None? then st
    else Storage(t.root, st.records + map k | k in t.items :: ToJson(t.items[k]))
  }
}
