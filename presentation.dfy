/** The slide document and the edits that commit into the history store.
 *
 *  A slide's present value is a list of nodes.  Each edit computes the next
 *  list for one slide from the present one and hands it to the store's `Set`;
 *  undo and redo act on the slide shown in the deck.
 */
module Presentation {
  import opened History

  /** The `type` tag of a node: which renderer draws it. */
  datatype NodeType = Text | MutationTable

  /** A node's payload: a string for text, `null` for an embedded table. */
  datatype NodeValue = NullValue | StrValue(s: string)

  /** Canvas coordinates; JavaScript numbers, fractional during drags. */
  datatype Position = Position(left: real, top: real)

  datatype Node = Node(id: string, position: Position, kind: NodeType, value: NodeValue, draggable: bool)

  type NodeList = seq<Node>

  // ---------------------------------------------------------------------
  // Node ids: the decimal text of a counter
  // ---------------------------------------------------------------------

  function Digit(d: nat): char
    requires d < 10
  {
    "0123456789"[d]
  }

  /** `${n}` for a non-negative integer: its decimal digits, no leading zeros. */
  function DecimalString(n: nat): (s: string)
    ensures |s| >= 1
    ensures n >= 10 ==> |s| >= 2
  {
    if n < 10 then [Digit(n)] else DecimalString(n / 10) + [Digit(n % 10)]
  }

  lemma DigitInjective(a: nat, b: nat)
    requires a < 10 && b < 10 && Digit(a) == Digit(b)
    ensures a == b
  {
  }

  /** Different counters give different id strings. */
  lemma {:induction false} DecimalStringInjective(a: nat, b: nat)
    requires DecimalString(a) == DecimalString(b)
    ensures a == b
  {
    if a < 10 && b < 10 {
      DigitInjective(a, b);
    } else if a >= 10 && b >= 10 {
      var sa, sb := DecimalString(a), DecimalString(b);
      assert sa[|sa| - 1] == Digit(a % 10) && sb[|sb| - 1] == Digit(b % 10);
      DigitInjective(a % 10, b % 10);
      assert sa[..|sa| - 1] == DecimalString(a / 10);
      assert sb[..|sb| - 1] == DecimalString(b / 10);
      DecimalStringInjective(a / 10, b / 10);
    }
  }

  /** `id` was issued by the counter before it reached `bound`. */
  ghost predicate Issued(id: string, bound: nat)
  {
    exists k: nat :: k < bound && id == DecimalString(k)
  }

  ghost predicate UniqueIds(ns: NodeList)
  {
    forall i, j :: 0 <= i < j < |ns| ==> ns[i].id != ns[j].id
  }

  ghost predicate AllIssued(ns: NodeList, bound: nat)
  {
    forall i :: 0 <= i < |ns| ==> Issued(ns[i].id, bound)
  }

  /** A stored value is well formed when, if it is a node list, its ids are
   *  distinct and were all issued before `bound`. */
  ghost predicate WellFormedSlot(s: Slot<NodeList>, bound: nat)
  {
    s.Val? ==> UniqueIds(s.value) && AllIssued(s.value, bound)
  }

  /** `WellFormedSlot` for a fixed bound, as a predicate on stored values. */
  ghost function WellFormedAt(bound: nat): Slot<NodeList> -> bool
  {
    (s: Slot<NodeList>) => WellFormedSlot(s, bound)
  }

  /** Every node list anywhere in the store, in any slide's past, present or
   *  future, has distinct ids, all issued before `bound`. */
  ghost predicate WellFormedStore(state: State<NodeList>, bound: nat)
  {
    EverySlot(state, WellFormedAt(bound))
  }

  lemma WellFormedSlotGrows(s: Slot<NodeList>, bound: nat, bound': nat)
    requires WellFormedSlot(s, bound) && bound <= bound'
    ensures WellFormedSlot(s, bound')
  {
    if s.Val? {
      forall i | 0 <= i < |s.value| ensures Issued(s.value[i].id, bound') {
        assert Issued(s.value[i].id, bound);
        var k: nat :| k < bound && s.value[i].id == DecimalString(k);
      }
    }
  }

  /** Appending a node whose id is the counter's current value keeps ids distinct. */
  lemma AppendFreshNode(ns: NodeList, n: Node, bound: nat)
    requires UniqueIds(ns) && AllIssued(ns, bound)
    requires n.id == DecimalString(bound)
    ensures UniqueIds(ns + [n]) && AllIssued(ns + [n], bound + 1)
  {
    var ms := ns + [n];
    forall i | 0 <= i < |ns| ensures ms[i].id != n.id && Issued(ms[i].id, bound + 1) {
      assert Issued(ns[i].id, bound);
      var k: nat :| k < bound && ns[i].id == DecimalString(k);
      if ms[i].id == n.id {
        DecimalStringInjective(k, bound);
      }
    }
    assert Issued(ms[|ns|].id, bound + 1);
  }

  /** A list with the same ids, position by position, is as well formed. */
  lemma SameIdsWellFormed(ns: NodeList, ms: NodeList, bound: nat)
    requires UniqueIds(ns) && AllIssued(ns, bound)
    requires |ms| == |ns| && forall j :: 0 <= j < |ns| ==> ms[j].id == ns[j].id
    ensures UniqueIds(ms) && AllIssued(ms, bound)
  {
    forall i | 0 <= i < |ms| ensures Issued(ms[i].id, bound) {
      assert ms[i].id == ns[i].id;
    }
  }

  // ---------------------------------------------------------------------
  // New nodes
  // ---------------------------------------------------------------------

  /** The node `createText` adds. */
  function TextNode(id: string): Node
  {
    Node(id, Position(0.0, 0.0), Text, StrValue("Hello World"), true)
  }

  /** The node `addMutationTable` adds. */
  function MutationTableNode(id: string): Node
  {
    Node(id, Position(0.0, 0.0), MutationTable, NullValue, true)
  }

  /** `state.get(slideId)?.present ?? []`: a slide without a node list reads as empty. */
  function PresentOrEmpty(state: State<NodeList>, slideId: string): (ns: NodeList)
    ensures PresentOf(state, slideId).Val? ==> ns == PresentOf(state, slideId).value
    ensures !PresentOf(state, slideId).Val? ==> ns == []
  {
    match PresentOf(state, slideId)
    case Val(ns) => ns
    case _ => []
  }

  /** The list an append edit commits: the present nodes, in order, then the new one. */
  function Appended(state: State<NodeList>, slideId: string, n: Node): NodeList
  {
    PresentOrEmpty(state, slideId) + [n]
  }

  lemma AppendedKeepsOrder(state: State<NodeList>, slideId: string, n: Node)
    ensures var ns := Appended(state, slideId, n);
      var before := PresentOrEmpty(state, slideId);
      |ns| == |before| + 1 && ns[..|before|] == before && ns[|before|] == n
    ensures slideId !in state ==> Appended(state, slideId, n) == [n]
  {
  }

  // ---------------------------------------------------------------------
  // Drag end
  // ---------------------------------------------------------------------

  /** The data a draggable node attaches to its drag: the slide it is on. */
  datatype DragData = DragData(slideId: string)

  /** What the drag layer reports at the end of a drag. */
  datatype DragEndEvent = DragEndEvent(activeId: string, data: Option<DragData>, deltaX: real, deltaY: real)

  function Abs(x: real): real
  {
    if x < 0.0 then -x else x
  }

  /** A drag without data, or one that moved less than one unit on both axes. */
  predicate IgnoredDrag(e: DragEndEvent)
  {
    e.data.None? || (Abs(e.deltaX) < 1.0 && Abs(e.deltaY) < 1.0)
  }

  function DragNode(n: Node, activeId: string, dx: real, dy: real): Node
  {
    if n.id == activeId then n.(position := Position(n.position.left + dx, n.position.top + dy)) else n
  }

  /** The node list after a drag: each node with the active id moved by the delta. */
  function Dragged(ns: NodeList, activeId: string, dx: real, dy: real): NodeList
  {
    seq(|ns|, j requires 0 <= j < |ns| => DragNode(ns[j], activeId, dx, dy))
  }

  lemma DraggedMovesOnlyActiveNode(ns: NodeList, activeId: string, dx: real, dy: real)
    ensures var r := Dragged(ns, activeId, dx, dy);
      |r| == |ns| &&
      forall j :: 0 <= j < |ns| ==>
        r[j].id == ns[j].id && r[j].kind == ns[j].kind && r[j].value == ns[j].value &&
        r[j].draggable == ns[j].draggable &&
        (ns[j].id == activeId ==>
          r[j].position == Position(ns[j].position.left + dx, ns[j].position.top + dy)) &&
        (ns[j].id != activeId ==> r[j] == ns[j])
  {
  }

  /** The loop inside `onDragEnd`: copy the list, moving the active node. */
  method ShiftActiveNode(present: NodeList, activeId: string, dx: real, dy: real) returns (next: NodeList)
    ensures next == Dragged(present, activeId, dx, dy)
  {
    next := [];
    var i := 0;
    while i < |present|
      invariant 0 <= i <= |present|
      invariant |next| == i
      invariant forall j :: 0 <= j < i ==> next[j] == DragNode(present[j], activeId, dx, dy)
    {
      var node := present[i];
      if node.id == activeId {
        node := node.(position := Position(node.position.left + dx, node.position.top + dy));
      }
      next := next + [node];
      i := i + 1;
    }
  }

  /** The commit `onDragEnd` makes, if any: the slide and its next node list.
   *  A commit goes to the slide the drag data names, which must have a node
   *  list, and keeps that list's length and ids in order. */
  function DragEndCommit(state: State<NodeList>, e: DragEndEvent): (r: Option<(string, NodeList)>)
    ensures r.Some? ==> !IgnoredDrag(e) && r.value.0 == e.data.value.slideId
    ensures r.Some? ==>
      PresentOf(state, r.value.0).Val? &&
      |r.value.1| == |PresentOf(state, r.value.0).value| &&
      forall j :: 0 <= j < |r.value.1| ==> r.value.1[j].id == PresentOf(state, r.value.0).value[j].id
  {
    if IgnoredDrag(e) then None
    else
      var slideId := e.data.value.slideId;
      match PresentOf(state, slideId)
      case Val(present) => Some((slideId, Dragged(present, e.activeId, e.deltaX, e.deltaY)))
      case _ => None
  }

  lemma DragEndCommitCases(state: State<NodeList>, e: DragEndEvent)
    ensures DragEndCommit(state, e).None? <==>
      IgnoredDrag(e) || !PresentOf(state, e.data.value.slideId).Val?
    ensures DragEndCommit(state, e).Some? ==>
      var slideId := e.data.value.slideId;
      DragEndCommit(state, e) ==
        Some((slideId, Dragged(state[slideId].present.value, e.activeId, e.deltaX, e.deltaY)))
  {
  }

  /** A drag of half a unit across and five down is still ignored. */
  lemma SubUnitDragIgnoredOnBothAxesOnly(state: State<NodeList>, activeId: string, slideId: string)
    ensures DragEndCommit(state, DragEndEvent(activeId, Some(DragData(slideId)), 0.5, 0.5)).None?
    ensures PresentOf(state, slideId).Val? ==>
      DragEndCommit(state, DragEndEvent(activeId, Some(DragData(slideId)), 0.5, 5.0)).Some?
  {
  }

  // ---------------------------------------------------------------------
  // Node state change
  // ---------------------------------------------------------------------

  /** The node has the given id and differs in value or draggability. */
  predicate Differs(n: Node, id: string, value: NodeValue, draggable: bool)
  {
    n.id == id && (n.value != value || n.draggable != draggable)
  }

  function Restate(n: Node, id: string, value: NodeValue, draggable: bool): Node
  {
    if Differs(n, id, value, draggable) then n.(value := value, draggable := draggable) else n
  }

  /** The node list after a state change of the node with id `id`. */
  function StateChanged(ns: NodeList, id: string, value: NodeValue, draggable: bool): NodeList
  {
    seq(|ns|, j requires 0 <= j < |ns| => Restate(ns[j], id, value, draggable))
  }

  /** Whether a state change modifies anything. */
  predicate AnyDiffers(ns: NodeList, id: string, value: NodeValue, draggable: bool)
  {
    exists j :: 0 <= j < |ns| && Differs(ns[j], id, value, draggable)
  }

  lemma StateChangedTouchesOnlyMatchingNodes(ns: NodeList, id: string, value: NodeValue, draggable: bool)
    ensures var r := StateChanged(ns, id, value, draggable);
      |r| == |ns| &&
      forall j :: 0 <= j < |ns| ==>
        r[j].id == ns[j].id && r[j].position == ns[j].position && r[j].kind == ns[j].kind &&
        (ns[j].id == id ==> r[j].value == value && r[j].draggable == draggable) &&
        (ns[j].id != id ==> r[j] == ns[j])
  {
  }

  /** A change is committed exactly when it changes the list. */
  lemma ModifiedIffListChanges(ns: NodeList, id: string, value: NodeValue, draggable: bool)
    ensures AnyDiffers(ns, id, value, draggable) <==> StateChanged(ns, id, value, draggable) != ns
  {
    var r := StateChanged(ns, id, value, draggable);
    if AnyDiffers(ns, id, value, draggable) {
      var j :| 0 <= j < |ns| && Differs(ns[j], id, value, draggable);
      assert r[j] != ns[j];
    } else {
      assert forall j :: 0 <= j < |ns| ==> r[j] == ns[j];
    }
  }

  /** The loop inside `onStateChanged`: copy the list, updating the node with
   *  the given id, and record whether anything was modified. */
  method ApplyStateChange(present: NodeList, id: string, value: NodeValue, draggable: bool)
    returns (next: NodeList, modified: bool)
    ensures next == StateChanged(present, id, value, draggable)
    ensures modified <==> AnyDiffers(present, id, value, draggable)
  {
    next := [];
    modified := false;
    var i := 0;
    while i < |present|
      invariant 0 <= i <= |present|
      invariant |next| == i
      invariant forall j :: 0 <= j < i ==> next[j] == Restate(present[j], id, value, draggable)
      invariant modified <==> exists j :: 0 <= j < i && Differs(present[j], id, value, draggable)
    {
      var node := present[i];
      if node.id == id && (node.value != value || node.draggable != draggable) {
        node := node.(value := value, draggable := draggable);
        modified := true;
      }
      next := next + [node];
      i := i + 1;
    }
  }

  /** The commit `onStateChanged` makes, if any: only a list that differs from
   *  the slide's present one, with the same length and ids in order. */
  function StateChangeCommit(state: State<NodeList>, slideId: string, id: string, value: NodeValue, draggable: bool): (r: Option<NodeList>)
    ensures r.Some? ==> PresentOf(state, slideId).Val? && r.value != PresentOf(state, slideId).value
    ensures r.Some? ==>
      |r.value| == |PresentOf(state, slideId).value| &&
      forall j :: 0 <= j < |r.value| ==> r.value[j].id == PresentOf(state, slideId).value[j].id
  {
    match PresentOf(state, slideId)
    case Val(present) =>
      ModifiedIffListChanges(present, id, value, draggable);
      if AnyDiffers(present, id, value, draggable) then Some(StateChanged(present, id, value, draggable)) else None
    case _ => None
  }

  lemma StateChangeCommitCases(state: State<NodeList>, slideId: string, id: string, value: NodeValue, draggable: bool)
    ensures StateChangeCommit(state, slideId, id, value, draggable).None? <==>
      !PresentOf(state, slideId).Val? || !AnyDiffers(state[slideId].present.value, id, value, draggable)
    ensures (slideId in state && state[slideId].present.Val? &&
             forall j :: 0 <= j < |state[slideId].present.value| ==> state[slideId].present.value[j].id != id) ==>
      StateChangeCommit(state, slideId, id, value, draggable).None?
  {
  }

  // ---------------------------------------------------------------------
  // The editor
  // ---------------------------------------------------------------------

  /** The node the deck starts with. */
  function InitialNode(): Node
  {
    Node("1", Position(0.0, 0.0), Text, StrValue("Hello World"), true)
  }

  /** The slide-deck editor: the history store, the node id counter and the
   *  slide the deck currently shows. */
  class Presentation {
    const history: HistoryStore<NodeList>
    var idCounter: nat
    var currentSlideId: string

    /** Every node list anywhere in the history has distinct ids, all issued
     *  before the counter's current value. */
    ghost predicate Valid()
      reads this, history
    {
      WellFormedStore(history.state, idCounter)
    }

    /** `initialSlideId` stands for the random UUID of the first slide. */
    constructor (initialSlideId: string)
      ensures Valid() && fresh(history)
      ensures history.state == map[initialSlideId := TimeState([], Val([InitialNode()]), [])]
      ensures idCounter == 2 && currentSlideId == ""
    {
      history := new HistoryStore(Some((initialSlideId, [InitialNode()])));
      idCounter := 2;
      currentSlideId := "";
      new;
      assert "1" == DecimalString(1);
      assert Issued(InitialNode().id, 2);
      assert Timeline(history.state[initialSlideId]) == [Val([InitialNode()])];
    }

    /** The deck reports that it now shows slide `slideId`. */
    method SlideChanged(slideId: string)
      requires Valid()
      modifies this
      ensures Valid()
      ensures currentSlideId == slideId && idCounter == old(idCounter)
    {
      currentSlideId := slideId;
    }

    /** The next node id; the counter moves on. */
    method GetAndIncrementCounter() returns (id: string)
      requires Valid()
      modifies this
      ensures Valid()
      ensures id == DecimalString(old(idCounter)) && idCounter == old(idCounter) + 1
      ensures currentSlideId == old(currentSlideId)
    {
      var counter := idCounter;
      idCounter := counter + 1;
      id := DecimalString(counter);
      forall sid, k | sid in history.state && 0 <= k < |Timeline(history.state[sid])|
        ensures WellFormedSlot(Timeline(history.state[sid])[k], idCounter)
      {
        WellFormedSlotGrows(Timeline(history.state[sid])[k], counter, idCounter);
      }
    }

    /** Commit `next` for `slideId`, keeping the invariant. */
    method Commit(slideId: string, next: NodeList)
      requires Valid() && WellFormedSlot(Val(next), idCounter)
      modifies history
      ensures Valid()
      ensures Reduce(old(history.state), SetAction(slideId, next)) == Ok(history.state)
    {
      ReducePreservesEverySlot(history.state, SetAction(slideId, next),
                               WellFormedAt(idCounter));
      history.Set(slideId, next);
    }

    /** The list an edit of `slideId` starts from is well formed. */
    lemma PresentOrEmptyWellFormed(slideId: string)
      requires Valid()
      ensures WellFormedSlot(Val(PresentOrEmpty(history.state, slideId)), idCounter)
    {
      if PresentOf(history.state, slideId).Val? {
        var t := Timeline(history.state[slideId]);
        assert t[|history.state[slideId].past|] == history.state[slideId].present;
      }
    }

    method OnUndoClick()
      requires Valid()
      modifies history
      ensures Valid()
      ensures currentSlideId == "" || !old(CanUndo(history.state, currentSlideId)) ==>
        history.state == old(history.state)
      ensures currentSlideId != "" && old(CanUndo(history.state, currentSlideId)) ==>
        Reduce(old(history.state), UndoAction(currentSlideId)) == Ok(history.state)
    {
      var slideId := currentSlideId;
      if slideId != "" {
        if CanUndo(history.state, slideId) {
          ReducePreservesEverySlot(history.state, UndoAction(slideId),
                                   WellFormedAt(idCounter));
        }
        history.Undo(slideId);
      }
    }

    method OnRedoClick()
      requires Valid()
      modifies history
      ensures Valid()
      ensures currentSlideId == "" || !old(CanRedo(history.state, currentSlideId)) ==>
        history.state == old(history.state)
      ensures currentSlideId != "" && old(CanRedo(history.state, currentSlideId)) ==>
        Reduce(old(history.state), RedoAction(currentSlideId)) == Ok(history.state)
    {
      var slideId := currentSlideId;
      if slideId != "" {
        if CanRedo(history.state, slideId) {
          ReducePreservesEverySlot(history.state, RedoAction(slideId),
                                   WellFormedAt(idCounter));
        }
        history.Redo(slideId);
      }
    }

    /** Add an empty slide; `newSlideId` stands for a fresh random UUID. */
    method OnAddSlideClick(newSlideId: string)
      requires Valid()
      modifies history
      ensures Valid()
      ensures Reduce(old(history.state), SetAction(newSlideId, [])) == Ok(history.state)
      ensures newSlideId !in old(history.state) ==>
        history.state == old(history.state)[newSlideId := TimeState([Null], Val([]), [])]
    {
      if newSlideId !in history.state {
        FirstSetCreatesSlide(history.state, newSlideId, []);
      }
      Commit(newSlideId, []);
    }

    /** Append a "Hello World" text node to the current slide. */
    method CreateText()
      requires Valid()
      modifies this, history
      ensures Valid()
      ensures idCounter == old(idCounter) + 1 && currentSlideId == old(currentSlideId)
      ensures Reduce(old(history.state),
                     SetAction(currentSlideId, Appended(old(history.state), currentSlideId, TextNode(DecimalString(old(idCounter))))))
              == Ok(history.state)
    {
      var present := PresentOrEmpty(history.state, currentSlideId);
      PresentOrEmptyWellFormed(currentSlideId);
      ghost var counter := idCounter;
      var id := GetAndIncrementCounter();
      var node := TextNode(id);
      AppendFreshNode(present, node, counter);
      Commit(currentSlideId, present + [node]);
    }

    /** Append an empty mutation table node to the current slide. */
    method AddMutationTable()
      requires Valid()
      modifies this, history
      ensures Valid()
      ensures idCounter == old(idCounter) + 1 && currentSlideId == old(currentSlideId)
      ensures Reduce(old(history.state),
                     SetAction(currentSlideId, Appended(old(history.state), currentSlideId, MutationTableNode(DecimalString(old(idCounter))))))
              == Ok(history.state)
    {
      var present := PresentOrEmpty(history.state, currentSlideId);
      PresentOrEmptyWellFormed(currentSlideId);
      ghost var counter := idCounter;
      var id := GetAndIncrementCounter();
      var node := MutationTableNode(id);
      AppendFreshNode(present, node, counter);
      Commit(currentSlideId, present + [node]);
    }

    method OnDragEnd(e: DragEndEvent)
      requires Valid()
      modifies history
      ensures Valid()
      ensures DragEndCommit(old(history.state), e).None? ==> history.state == old(history.state)
      ensures DragEndCommit(old(history.state), e).Some? ==>
        var (slideId, next) := DragEndCommit(old(history.state), e).value;
        Reduce(old(history.state), SetAction(slideId, next)) == Ok(history.state)
    {
      if e.data.None? || (Abs(e.deltaX) < 1.0 && Abs(e.deltaY) < 1.0) {
        return;
      }
      var slideId := e.data.value.slideId;
      var present := PresentOf(history.state, slideId);
      if !present.Val? {
        return;
      }
      var next := ShiftActiveNode(present.value, e.activeId, e.deltaX, e.deltaY);
      PresentOrEmptyWellFormed(slideId);
      DraggedMovesOnlyActiveNode(present.value, e.activeId, e.deltaX, e.deltaY);
      SameIdsWellFormed(present.value, next, idCounter);
      Commit(slideId, next);
    }

    method OnStateChanged(slideId: string, id: string, value: NodeValue, draggable: bool)
      requires Valid()
      modifies history
      ensures Valid()
      ensures StateChangeCommit(old(history.state), slideId, id, value, draggable).None? ==>
        history.state == old(history.state)
      ensures StateChangeCommit(old(history.state), slideId, id, value, draggable).Some? ==>
        Reduce(old(history.state),
               SetAction(slideId, StateChangeCommit(old(history.state), slideId, id, value, draggable).value))
        == Ok(history.state)
    {
      var present := PresentOf(history.state, slideId);
      if !present.Val? {
        return;
      }
      var next, modified := ApplyStateChange(present.value, id, value, draggable);
      if modified {
        PresentOrEmptyWellFormed(slideId);
        StateChangedTouchesOnlyMatchingNodes(present.value, id, value, draggable);
        SameIdsWellFormed(present.value, next, idCounter);
        Commit(slideId, next);
      }
    }
  }
}
