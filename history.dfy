/** Per-slide undo/redo history.
 *
 *  The store maps a slide id to that slide's TimeState (past, present,
 *  future).  `Reduce` is the pure reducer over the three actions undo, redo
 *  and set; `HistoryStore` holds the store and dispatches through it, with
 *  the canUndo/canRedo guards in front of undo and redo.
 */
module History {

  datatype Option<T> = None | Some(value: T)

  /** A JavaScript value of type T that may also be `undefined` or `null`. */
  datatype Slot<T> = Undefined | Null | Val(value: T)

  /** One slide's history: `past` is oldest first, `future` has the next redo first. */
  datatype TimeState<T> = TimeState(past: seq<Slot<T>>, present: Slot<T>, future: seq<Slot<T>>)

  /** The whole store: slide id to that slide's history. */
  type State<T> = map<string, TimeState<T>>

  datatype Action<T> =
    | UndoAction(slideId: string)
    | RedoAction(slideId: string)
    | SetAction(slideId: string, newPresent: T)

  /** A reducer call either returns the next store or throws with a message. */
  datatype Result<R> = Ok(value: R) | Err(message: string)

  datatype Outcome = Pass | Fail(message: string)

  /** The action's `type` tag. */
  function ActionType<T>(action: Action<T>): string
  {
    match action
    case UndoAction(_) => "undo"
    case RedoAction(_) => "redo"
    case SetAction(_, _) => "set"
  }

  /** `state.get(slideId)`. */
  function Lookup<T>(state: State<T>, slideId: string): (r: Option<TimeState<T>>)
    ensures r.Some? <==> slideId in state
    ensures r.Some? ==> r.value == state[slideId]
  {
    if slideId in state then Some(state[slideId]) else None
  }

  /** `state.get(slideId)?.present`: `undefined` for a slide without an entry. */
  function PresentOf<T>(state: State<T>, slideId: string): (r: Slot<T>)
    ensures slideId !in state ==> r == Undefined
    ensures slideId in state ==> r == state[slideId].present
  {
    match Lookup(state, slideId)
    case None => Undefined
    case Some(ts) => ts.present
  }

  /** The text of the error thrown for an action on a slide without an entry. */
  function InvalidActionMessage(actionType: string): string
  {
    "invalid action=(" + actionType + ") for new slide"
  }

  /** Undo and redo are refused on a slide that has no entry; set never is. */
  function EnsureValidActionForSlide<T>(slide: Option<TimeState<T>>, action: Action<T>): (r: Outcome)
    ensures r.Fail? <==> slide.None? && !action.SetAction?
    ensures r.Fail? ==> r.message == InvalidActionMessage(ActionType(action))
  {
    if slide.None? && !action.SetAction? then
      Fail(InvalidActionMessage(ActionType(action)))
    else
      Pass
  }

  /** An absent slide reads as an empty history whose present is the `null` sentinel. */
  function GetOrCreateTimeStateForSlide<T>(slide: Option<TimeState<T>>): (ts: TimeState<T>)
    ensures slide.Some? ==> ts == slide.value
    ensures slide.None? ==> ts.past == [] && ts.present == Null && ts.future == []
  {
    match slide
    case Some(existing) => existing
    case None => TimeState([], Null, [])
  }

  /** `s[s.length - 1]`, which is `undefined` on an empty array. */
  function LastOrUndefined<T>(s: seq<Slot<T>>): Slot<T>
  {
    if |s| == 0 then Undefined else s[|s| - 1]
  }

  /** `s.slice(0, s.length - 1)`; on an empty array this is `slice(0, -1)`, which is empty. */
  function DropLast<T>(s: seq<Slot<T>>): seq<Slot<T>>
  {
    if |s| == 0 then [] else s[..|s| - 1]
  }

  /** `s[0]`, which is `undefined` on an empty array. */
  function FirstOrUndefined<T>(s: seq<Slot<T>>): Slot<T>
  {
    if |s| == 0 then Undefined else s[0]
  }

  /** `s.slice(1)`. */
  function DropFirst<T>(s: seq<Slot<T>>): seq<Slot<T>>
  {
    if |s| == 0 then [] else s[1..]
  }

  /** The history reducer.  It never re-checks that the stack it pops is
   *  non-empty: that is left to the canUndo/canRedo guards of the store. */
  function Reduce<T(==)>(state: State<T>, action: Action<T>): (r: Result<State<T>>)
    ensures r.Err? <==> action.slideId !in state && !action.SetAction?
    ensures r.Ok? ==> r.value.Keys == state.Keys + {action.slideId}
    ensures r.Ok? ==> forall id :: id in state && id != action.slideId ==> r.value[id] == state[id]
  {
    var slideId := action.slideId;
    var slide := Lookup(state, slideId);
    var check := EnsureValidActionForSlide(slide, action);
    if check.Fail? then
      Err(check.message)
    else
      var ts := GetOrCreateTimeStateForSlide(slide);
      match action
      case UndoAction(_) =>
        Ok(state[slideId := TimeState(DropLast(ts.past), LastOrUndefined(ts.past), [ts.present] + ts.future)])
      case RedoAction(_) =>
        Ok(state[slideId := TimeState(ts.past + [ts.present], FirstOrUndefined(ts.future), DropFirst(ts.future))])
      case SetAction(_, newPresent) =>
        if Val(newPresent) == ts.present then
          Ok(state)
        else
          Ok(state[slideId := TimeState(ts.past + [ts.present], Val(newPresent), [])])
  }

  /** `canUndo`: the slide has an entry and something to undo. */
  function CanUndo<T>(state: State<T>, slideId: string): (b: bool)
    ensures slideId !in state ==> !b
    ensures b <==> slideId in state && state[slideId].past != []
  {
    var pastLength := if slideId in state then |state[slideId].past| else 0;
    pastLength > 0
  }

  /** `canRedo`: the slide has an entry and something to redo. */
  function CanRedo<T>(state: State<T>, slideId: string): (b: bool)
    ensures slideId !in state ==> !b
    ensures b <==> slideId in state && state[slideId].future != []
  {
    var futureLength := if slideId in state then |state[slideId].future| else 0;
    futureLength > 0
  }

  /** One slide's whole timeline, oldest first.  Undo and redo only move the
   *  present along it; set cuts it after the present and appends. */
  function Timeline<T>(ts: TimeState<T>): seq<Slot<T>>
  {
    ts.past + [ts.present] + ts.future
  }

  /** Every value stored anywhere in the store satisfies `P`. */
  ghost predicate EverySlot<T>(state: State<T>, P: Slot<T> -> bool)
  {
    forall id, k :: id in state && 0 <= k < |Timeline(state[id])| ==> P(Timeline(state[id])[k])
  }

  lemma UndoRedoOnNewSlideThrow<T>(state: State<T>, slideId: string)
    requires slideId !in state
    ensures Reduce(state, UndoAction(slideId)) == Err(InvalidActionMessage("undo"))
    ensures Reduce(state, RedoAction(slideId)) == Err(InvalidActionMessage("redo"))
  {
  }

  lemma FirstSetCreatesSlide<T>(state: State<T>, slideId: string, v: T)
    requires slideId !in state
    ensures Reduce(state, SetAction(slideId, v)) == Ok(state[slideId := TimeState([Null], Val(v), [])])
    ensures |Reduce(state, SetAction(slideId, v)).value[slideId].past| == 1
  {
    var ts := GetOrCreateTimeStateForSlide(Lookup(state, slideId));
    assert ts.past + [ts.present] == [Null];
  }

  lemma SetOfCurrentPresentIsNoop<T>(state: State<T>, slideId: string, v: T)
    requires slideId in state && state[slideId].present == Val(v)
    ensures Reduce(state, SetAction(slideId, v)) == Ok(state)
  {
  }

  lemma SetOnExistingSlide<T>(state: State<T>, slideId: string, v: T)
    requires slideId in state && state[slideId].present != Val(v)
    ensures var ts := state[slideId];
      Reduce(state, SetAction(slideId, v)) == Ok(state[slideId := TimeState(ts.past + [ts.present], Val(v), [])])
    ensures var ts := state[slideId];
      Timeline(Reduce(state, SetAction(slideId, v)).value[slideId]) == ts.past + [ts.present] + [Val(v)]
  {
  }

  lemma UndoStep<T>(state: State<T>, slideId: string)
    requires CanUndo(state, slideId)
    ensures var ts := state[slideId];
      var n := |ts.past|;
      Reduce(state, UndoAction(slideId)) == Ok(state[slideId := TimeState(ts.past[..n - 1], ts.past[n - 1], [ts.present] + ts.future)])
    ensures Timeline(Reduce(state, UndoAction(slideId)).value[slideId]) == Timeline(state[slideId])
  {
    var ts := state[slideId];
    var n := |ts.past|;
    assert ts.past == ts.past[..n - 1] + [ts.past[n - 1]];
  }

  lemma RedoStep<T>(state: State<T>, slideId: string)
    requires CanRedo(state, slideId)
    ensures var ts := state[slideId];
      Reduce(state, RedoAction(slideId)) == Ok(state[slideId := TimeState(ts.past + [ts.present], ts.future[0], ts.future[1..])])
    ensures Timeline(Reduce(state, RedoAction(slideId)).value[slideId]) == Timeline(state[slideId])
  {
    var ts := state[slideId];
    assert ts.future == [ts.future[0]] + ts.future[1..];
  }

  /** The reducer's own behaviour when the guards are bypassed: the present
   *  becomes `undefined`, and the old present is still kept in the other stack. */
  lemma UnguardedUndoAndRedo<T>(state: State<T>, slideId: string)
    requires slideId in state
    ensures var ts := state[slideId];
      ts.past == [] ==> Reduce(state, UndoAction(slideId)) == Ok(state[slideId := TimeState([], Undefined, [ts.present] + ts.future)])
    ensures var ts := state[slideId];
      ts.future == [] ==> Reduce(state, RedoAction(slideId)) == Ok(state[slideId := TimeState(ts.past + [ts.present], Undefined, [])])
  {
  }

  lemma UndoThenRedoRestores<T>(state: State<T>, slideId: string)
    requires CanUndo(state, slideId)
    ensures Reduce(state, UndoAction(slideId)).Ok?
    ensures Reduce(Reduce(state, UndoAction(slideId)).value, RedoAction(slideId)) == Ok(state)
  {
    var ts := state[slideId];
    var n := |ts.past|;
    assert ts.past[..n - 1] + [ts.past[n - 1]] == ts.past;
    var undone := Reduce(state, UndoAction(slideId)).value;
    assert undone[slideId := ts] == state;
  }

  lemma RedoThenUndoRestores<T>(state: State<T>, slideId: string)
    requires CanRedo(state, slideId)
    ensures Reduce(state, RedoAction(slideId)).Ok?
    ensures Reduce(Reduce(state, RedoAction(slideId)).value, UndoAction(slideId)) == Ok(state)
  {
    var ts := state[slideId];
    assert [ts.future[0]] + ts.future[1..] == ts.future;
    var redone := Reduce(state, RedoAction(slideId)).value;
    assert redone[slideId := ts] == state;
  }

  /** Setting a new present and undoing it brings the old present back and
   *  leaves exactly the new value to redo. */
  lemma SetThenUndo<T>(state: State<T>, slideId: string, v: T)
    requires slideId in state && state[slideId].present != Val(v)
    ensures var s1 := Reduce(state, SetAction(slideId, v)).value;
      Reduce(s1, UndoAction(slideId)) == Ok(state[slideId := TimeState(state[slideId].past, state[slideId].present, [Val(v)])])
  {
    var ts := state[slideId];
    var past' := ts.past + [ts.present];
    assert DropLast(past') == ts.past && LastOrUndefined(past') == ts.present;
    assert [Val(v)] + [] == [Val(v)];
    var s1 := Reduce(state, SetAction(slideId, v)).value;
    assert s1[slideId := TimeState(ts.past, ts.present, [Val(v)])] == state[slideId := TimeState(ts.past, ts.present, [Val(v)])];
  }

  lemma GuardedActionsNeverThrow<T>(state: State<T>, slideId: string)
    ensures CanUndo(state, slideId) ==> Reduce(state, UndoAction(slideId)).Ok?
    ensures CanRedo(state, slideId) ==> Reduce(state, RedoAction(slideId)).Ok?
  {
  }

  /** The reducer never invents a value: whatever it stores was already in the
   *  store, is the set action's new present, or is `undefined`/`null`. */
  lemma ReducePreservesEverySlot<T>(state: State<T>, action: Action<T>, P: Slot<T> -> bool)
    requires EverySlot(state, P)
    requires P(Undefined) && P(Null)
    requires action.SetAction? ==> P(Val(action.newPresent))
    requires Reduce(state, action).Ok?
    ensures EverySlot(Reduce(state, action).value, P)
  {
    var id := action.slideId;
    var r := Reduce(state, action).value;
    var ts := GetOrCreateTimeStateForSlide(Lookup(state, id));
    assert forall k :: 0 <= k < |Timeline(ts)| ==> P(Timeline(ts)[k]) by {
      if id in state {
        forall k | 0 <= k < |Timeline(ts)| ensures P(Timeline(ts)[k]) {
          assert Timeline(ts)[k] == Timeline(state[id])[k];
        }
      }
    }
    var t := Timeline(r[id]);
    forall k | 0 <= k < |t| ensures P(t[k]) {
      match action
      case UndoAction(_) =>
        if |ts.past| == 0 {
          assert t == [Undefined] + Timeline(ts);
          if k > 0 { assert t[k] == Timeline(ts)[k - 1]; }
        } else {
          UndoStep(state, id);
        }
      case RedoAction(_) =>
        if |ts.future| == 0 {
          assert t == Timeline(ts) + [Undefined];
          if k < |Timeline(ts)| { assert t[k] == Timeline(ts)[k]; }
        } else {
          RedoStep(state, id);
        }
      case SetAction(_, v) =>
        if Val(v) != ts.present {
          assert t == ts.past + [ts.present] + [Val(v)];
          if k <= |ts.past| { assert t[k] == Timeline(ts)[k]; }
        }
    }
  }

  /** The store behind `useHistoryState`. */
  class HistoryStore<T(==)> {
    var state: State<T>

    /** The store starts empty, or seeded with one slide whose present is the initial value. */
    constructor (initial: Option<(string, T)>)
      ensures initial.None? ==> state == map[]
      ensures initial.Some? ==> state == map[initial.value.0 := TimeState([], Val(initial.value.1), [])]
    {
      match initial
      case None =>
        state := map[];
      case Some((slideId, initialPresent)) =>
        state := map[slideId := TimeState([], Val(initialPresent), [])];
    }

    /** Undo only when there is something to undo, so the reducer never throws here. */
    method Undo(slideId: string)
      modifies this
      ensures old(CanUndo(state, slideId)) ==> Reduce(old(state), UndoAction(slideId)) == Ok(state)
      ensures !old(CanUndo(state, slideId)) ==> state == old(state)
    {
      if CanUndo(state, slideId) {
        var r := Reduce(state, UndoAction(slideId));
        state := r.value;
      }
    }

    /** Redo only when there is something to redo, so the reducer never throws here. */
    method Redo(slideId: string)
      modifies this
      ensures old(CanRedo(state, slideId)) ==> Reduce(old(state), RedoAction(slideId)) == Ok(state)
      ensures !old(CanRedo(state, slideId)) ==> state == old(state)
    {
      if CanRedo(state, slideId) {
        var r := Reduce(state, RedoAction(slideId));
        state := r.value;
      }
    }

    /** Commit a new present; set never throws. */
    method Set(slideId: string, newPresent: T)
      modifies this
      ensures Reduce(old(state), SetAction(slideId, newPresent)) == Ok(state)
    {
      var r := Reduce(state, SetAction(slideId, newPresent));
      state := r.value;
    }
  }
}
