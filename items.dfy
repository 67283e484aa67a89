/**
 * The outline item: one node of the tree, an immutable value record that the
 * reducer replaces by a modified copy.
 */
module Items {
  import opened Wrappers

  /**
   * Item identity: an opaque, globally unique key. The engine only compares
   * ids and uses them as map keys, so integers stand for its id strings.
   */
  type Id = int

  /** The serialized rich-text payload of an item; the tree engine only compares it. */
  datatype Content = Content(raw: string)

  const EMPTY_CONTENT := Content("")

  datatype Item = Item(
    id: Id,
    parent: Option<Id>,     // absent for the root only
    children: seq<Id>,      // display order
    content: Content,
    expand: bool,           // children are shown
    loaded: bool,           // the children list has been materialised from storage
    deleted: bool,
    modified: Option<int>   // time of the last content edit
  )

  /** Every entry is stored under its own id. */
  ghost predicate WellKeyed(m: map<Id, Item>) {
    forall k | k in m :: m[k].id == k
  }

  /** Why a transition was refused. */
  datatype Error =
    | NotFound(id: Id)            // a referenced id is absent from the map
    | NoParent(id: Id)            // a parent was asked of the root
    | CreateWithoutParent         // a new item must name its parent
    | Unimplemented(kind: string) // an action kind the tree reducer does not handle

  /**
   * A fresh item (`Item.create`): the identity and the clock reading are
   * supplied by the caller.
   */
  function CreateItem(id: Id, content: Content, parent: Option<Id>, now: int): (it: Item)
    ensures it.id == id && it.parent == parent && it.content == content
    ensures it.children == [] && it.expand && it.loaded && !it.deleted
    ensures it.modified == Some(now)
  {
    Item(id, parent, [], content, true, true, false, Some(now))
  }
}
