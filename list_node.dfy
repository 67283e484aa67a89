/**
 * The outline node component (src/List/ListNode.tsx): where a drop lands
 * relative to a node, the drag-and-drop state machine each node runs, and the
 * guards that decide which intents a node may emit. Dispatching is modelled
 * as appending to a log; cursor coordinates are integers.
 */
module ListNode {
  import opened Wrappers
  import opened Items
  import opened TreeState
  import opened Ancestry
  import opened Invariants
  import opened Reducer
  import opened ReducerLaws
  import opened ReducerMoves

  /** The drag payload type that marks a dragged outline node. */
  const DROP_DATA_TYPE := "text/list-node-id"

  /** Vertical extent of a node's content element. */
  datatype Rect = Rect(top: int, bottom: int)

  /** What a node dispatches: a tree intent, or a switch of the interaction mode. */
  datatype Dispatched = Intent(action: TreeAction) | SwitchMode(mode: Mode)

  function Abs(x: int): (r: nat)
    ensures r == x || r == -x
  {
    if x < 0 then -x else x
  }

  /**
   * `computeDropPosition`: below when the cursor is farther from the top
   * edge than from the bottom edge, otherwise above; never inner.
   */
  function ComputeDropPosition(y: int, rect: Rect): (p: DropPosition)
    ensures p == Below <==> Abs(y - rect.top) > Abs(y - rect.bottom)
    ensures p == Above <==> Abs(y - rect.top) <= Abs(y - rect.bottom)
  {
    if Abs(y - rect.top) > Abs(y - rect.bottom) then Below else Above
  }

  /**
   * On a box of positive height the rule splits it at the middle: below
   * exactly when the cursor is strictly past the midpoint, so the exact
   * middle counts as above.
   */
  lemma DropSplitsAtMiddle(y: int, rect: Rect)
    requires rect.top < rect.bottom
    ensures ComputeDropPosition(y, rect) == Below <==> 2 * y > rect.top + rect.bottom
    ensures 2 * y == rect.top + rect.bottom ==> ComputeDropPosition(y, rect) == Above
  {
  }

  /**
   * One node's drag-and-drop state (`useDragAndDrop`): whether it is being
   * dragged, which drop marker it shows, and everything it has dispatched.
   * `parentDragging` is the `dragging` its parent node reports.
   */
  class DragAndDrop {
    const id: Id
    const parentDragging: bool
    var dragging: bool
    var isOver: Option<DropPosition>
    var log: seq<Dispatched>

    constructor (id: Id, parentDragging: bool)
      ensures this.id == id && this.parentDragging == parentDragging
      ensures !dragging && isOver == None && log == []
    {
      this.id := id;
      this.parentDragging := parentDragging;
      dragging := false;
      isOver := None;
      log := [];
    }

    /** `canDrop`: a node payload, and neither this node nor an ancestor is being dragged. */
    predicate CanDrop(types: seq<string>): (b: bool)
      reads this
      ensures b <==> DROP_DATA_TYPE in types && !Dragging()
    {
      DROP_DATA_TYPE in types && !dragging && !parentDragging
    }

    /** The `dragging` the node reports, and hands to its children as their `parentDragging`. */
    function Dragging(): (b: bool)
      reads this
      ensures parentDragging ==> b
      ensures dragging ==> b
      ensures b ==> dragging || parentDragging
    {
      dragging || parentDragging
    }

    /** `onDragStart`: put this node's id in the payload, mark it dragged, switch to drag mode. */
    method OnDragStart() returns (payloadType: string, payload: Id)
      modifies this
      ensures payloadType == DROP_DATA_TYPE && payload == id
      ensures dragging && isOver == old(isOver)
      ensures log == old(log) + [SwitchMode(DragMode(None))]
    {
      payloadType, payload := DROP_DATA_TYPE, id;
      dragging := true;
      log := log + [SwitchMode(DragMode(None))];
    }

    /** `onDragEnd`: no longer dragged; back to normal mode. */
    method OnDragEnd()
      modifies this
      ensures !dragging && isOver == old(isOver)
      ensures log == old(log) + [SwitchMode(NormalMode)]
    {
      dragging := false;
      log := log + [SwitchMode(NormalMode)];
    }

    /**
     * `onDrop`: the drop is taken only when `canDrop` held before the event
     * and the content element exists; it then clears the marker and asks to
     * drop the dragged node beside this one. The switch back to normal mode
     * is always dispatched, last.
     */
    method OnDrop(types: seq<string>, draggedId: Id, content: Option<Rect>, y: int)
      modifies this
      ensures !dragging
      ensures old(CanDrop(types)) && content.Some? ==>
        && isOver == None
        && log == old(log) + [Intent(Drop(draggedId, id, ComputeDropPosition(y, content.value))), SwitchMode(NormalMode)]
      ensures !(old(CanDrop(types)) && content.Some?) ==>
        isOver == old(isOver) && log == old(log) + [SwitchMode(NormalMode)]
    {
      // `canDrop` reads the state the handler started from
      var accepted := CanDrop(types) && content.Some?;
      dragging := false;
      if accepted {
        isOver := None;
        log := log + [Intent(Drop(draggedId, id, ComputeDropPosition(y, content.value)))];
      }
      log := log + [SwitchMode(NormalMode)];
    }

    /** `onDragOver`: show where a drop would land, when a drop is possible here. */
    method OnDragOver(types: seq<string>, content: Option<Rect>, y: int)
      modifies this
      ensures dragging == old(dragging) && log == old(log)
      ensures isOver == if old(CanDrop(types)) && content.Some? then Some(ComputeDropPosition(y, content.value)) else old(isOver)
    {
      if CanDrop(types) && content.Some? {
        var position := ComputeDropPosition(y, content.value);
        if Some(position) != isOver {
          isOver := Some(position);
        }
      }
    }

    /** `onDragLeave`: hide the drop marker. */
    method OnDragLeave()
      modifies this
      ensures isOver == None && dragging == old(dragging) && log == old(log)
    {
      if isOver.Some? {
        isOver := None;
      }
    }
  }

  /** A child node as its parent renders it: its `parentDragging` is the parent's reported `dragging`. */
  method RenderChild(parent: DragAndDrop, childId: Id) returns (child: DragAndDrop)
    ensures fresh(child) && child.id == childId && child.parentDragging == parent.Dragging()
    ensures !child.dragging && child.isOver == None && child.log == []
  {
    child := new DragAndDrop(childId, parent.Dragging());
  }

  /**
   * Dragging a node and dropping it on another node that is outside the
   * dragged subtree asks the tree to drop the first beside the second; the
   * dragged node, whatever it was doing, ends up in normal mode.
   */
  method DragOnto(source: DragAndDrop, target: DragAndDrop, content: Rect, y: int)
    requires source != target && !target.dragging && !target.parentDragging
    modifies source, target
    ensures target.log == old(target.log) + [Intent(Drop(source.id, target.id, ComputeDropPosition(y, content))), SwitchMode(NormalMode)]
    ensures source.log == old(source.log) + [SwitchMode(DragMode(None)), SwitchMode(NormalMode)]
    ensures !source.dragging && !target.dragging && target.isOver == None
    ensures source.isOver == old(source.isOver)
  {
    var payloadType, payload := source.OnDragStart();
    target.OnDrop([payloadType], payload, Some(content), y);
    source.OnDragEnd();
  }

  /** A node never accepts its own drop: dropping a node on itself dispatches only mode switches. */
  method DragOntoSelf(node: DragAndDrop, content: Option<Rect>, y: int)
    modifies node
    ensures node.log == old(node.log) + [SwitchMode(DragMode(None)), SwitchMode(NormalMode)]
    ensures !node.dragging && node.isOver == old(node.isOver)
  {
    var payloadType, payload := node.OnDragStart();
    node.OnDrop([payloadType], payload, content, y);
  }

  /**
   * Nor does anything below it: while a node is dragged, a child it renders
   * refuses the drop, and so does that child's child. Both show no marker
   * because a node's `parentDragging` is fixed when it is built, so a child
   * that sees its parent dragged is a freshly rendered node with no marker
   * yet; a marker set earlier on a re-rendered child is not modelled.
   */
  method DragOntoDescendant(node: DragAndDrop, childId: Id, grandchildId: Id, content: Option<Rect>, y: int)
    returns (child: DragAndDrop, grandchild: DragAndDrop)
    modifies node
    ensures node.dragging && fresh(child) && fresh(grandchild)
    ensures child.log == [SwitchMode(NormalMode)] && child.isOver == None
    ensures grandchild.log == [SwitchMode(NormalMode)] && grandchild.isOver == None
  {
    var payloadType, payload := node.OnDragStart();
    child := RenderChild(node, childId);
    grandchild := RenderChild(child, grandchildId);
    child.OnDragOver([payloadType], content, y);
    child.OnDrop([payloadType], payload, content, y);
    grandchild.OnDragOver([payloadType], content, y);
    grandchild.OnDrop([payloadType], payload, content, y);
  }

  /** The keyboard operations of a node (`useEditOperate`). */
  datatype Operation =
    | SwapUp | SwapDown | UnIndentOp | IndentOp | CreateOp
    | RemoveOp | ToggleOp | EditOp | GotoNextOp | GotoPrevOp

  /**
   * What a node dispatches for an operation, if anything. Moves need a
   * parent, removal needs no children, toggling needs some, switching to
   * edit mode needs the node not to be edited already; creating (a new empty
   * sibling just below, with the caller's fresh id and clock reading) and
   * navigating are never refused here.
   */
  function Operate(op: Operation, item: Item, editing: Option<Id>, newId: Id, now: int): (r: Option<Dispatched>)
    ensures op in {SwapUp, SwapDown, UnIndentOp, IndentOp} ==> (r.Some? <==> item.parent.Some?)
    ensures op == RemoveOp ==> (r.Some? <==> |item.children| == 0)
    ensures op == ToggleOp ==> (r.Some? <==> |item.children| > 0)
    ensures op == EditOp ==> (r.Some? <==> editing.None?) && (r.Some? ==> r.value == SwitchMode(EditMode(item.id)))
    ensures op in {CreateOp, GotoNextOp, GotoPrevOp} ==> r.Some?
    ensures r.Some? && op != EditOp ==> r.value.Intent?
    // which intent: one step up or down, indent or unindent under the node's own parent
    ensures op == SwapUp && r.Some? ==> r.value == Intent(Reorder(item.id, -1))
    ensures op == SwapDown && r.Some? ==> r.value == Intent(Reorder(item.id, 1))
    ensures op == IndentOp && r.Some? ==> r.value == Intent(Indent(item.id, item.parent.value))
    ensures op == UnIndentOp && r.Some? ==> r.value == Intent(UnIndent(item.id, item.parent.value))
    // a new, empty, childless sibling under the node's parent, placed just below the node
    ensures op == CreateOp ==>
      (&& r.value.Intent? && r.value.action.Create?
       && r.value.action.above == Some(item.id)
       && r.value.action.item.id == newId && r.value.action.item.parent == item.parent
       && r.value.action.item.content == EMPTY_CONTENT && r.value.action.item.children == [])
    ensures op == RemoveOp && r.Some? ==> r.value == Intent(Remove(item.id))
    ensures op == ToggleOp && r.Some? ==> r.value == Intent(Toggle(item.id))
    ensures op == GotoNextOp ==> r == Some(Intent(GotoNext(item.id)))
    ensures op == GotoPrevOp ==> r == Some(Intent(GotoPrev(item.id)))
  {
    match op
    case SwapUp => if item.parent.Some? then Some(Intent(Reorder(item.id, -1))) else None
    case SwapDown => if item.parent.Some? then Some(Intent(Reorder(item.id, 1))) else None
    case UnIndentOp => if item.parent.Some? then Some(Intent(UnIndent(item.id, item.parent.value))) else None
    case IndentOp => if item.parent.Some? then Some(Intent(Indent(item.id, item.parent.value))) else None
    case CreateOp => Some(Intent(Create(CreateItem(newId, EMPTY_CONTENT, item.parent, now), Some(item.id))))
    case RemoveOp => if |item.children| == 0 then Some(Intent(Remove(item.id))) else None
    case ToggleOp => if |item.children| > 0 then Some(Intent(Toggle(item.id))) else None
    case EditOp => if editing.None? then Some(SwitchMode(EditMode(item.id))) else None
    case GotoNextOp => Some(Intent(GotoNext(item.id)))
    case GotoPrevOp => Some(Intent(GotoPrev(item.id)))
  }

  /**
   * On a consistent tree, every intent a displayed node emits is accepted by
   * the reducer — except that creating a sibling of, or removing, the parentless
   * root is refused.
   */
  lemma OperateAccepted(t: Tree, item: Item, op: Operation, editing: Option<Id>, newId: Id, now: int)
    requires Consistent(t.items) && item.id in t.items && t.items[item.id] == item
    requires var r := Operate(op, item, editing, newId, now); r.Some? && r.value.Intent?
    ensures var a := Operate(op, item, editing, newId, now).value.action;
      TreeReducer(t, a, now).Ok? <==> (op in {CreateOp, RemoveOp} ==> item.parent.Some?)
  {
    var m := t.items;
    var id := item.id;
    if op in {SwapUp, SwapDown, UnIndentOp, IndentOp} {
      var p := item.parent.value;
      assert p in m && id in m[p].children && m[p].id == p;
      match op
      case SwapUp => ReorderAccepted(t, id, p, -1, now);
      case SwapDown => ReorderAccepted(t, id, p, 1, now);
      case IndentOp => IndentAccepted(t, id, p, now);
      case UnIndentOp =>
        assert ParentsExist(m);
        UnIndentAccepted(t, id, p, now);
    }
  }

  /**
   * Every intent a node emits keeps a consistent, acyclic tree so when the
   * reducer accepts it (removal keeps it linked, leaving the removed item as
   * an unlisted entry); a created item needs an unused id.
   */
  lemma OperateKeeps(t: Tree, item: Item, op: Operation, editing: Option<Id>, newId: Id, now: int)
    requires Consistent(t.items) && Acyclic(t.items) && newId !in t.items
    requires var r := Operate(op, item, editing, newId, now); r.Some? && r.value.Intent?
    requires TreeReducer(t, Operate(op, item, editing, newId, now).value.action, now).Ok?
    ensures var a := Operate(op, item, editing, newId, now).value.action;
      var after := TreeReducer(t, a, now).value.tree.items;
      && Acyclic(after) && Linked(after)
      && (op != RemoveOp ==> Consistent(after))
  {
    var a := Operate(op, item, editing, newId, now).value.action;
    assert Admissible(t.items, a);
    ConsistentIsLinked(t.items);
    ReducerKeeps(t, a, now);
  }
}
