# Slide editor history store, in Dafny

This project models the undo/redo core of the patient-view slide editor. Two parts are modelled.

- **The per-slide history store** (`use-history-state.ts`). The store maps each slide id to a
  TimeState: `past`, `present` and `future`. A pure reducer handles `undo`, `redo` and `set`:
  - `undo` and `redo` on a slide with no entry throw;
  - the first `set` of a slide pushes a `null` sentinel as its old present;
  - a `set` of the current present returns the store unchanged;
  - every transition touches only the acted-on slide.

  The hook around the reducer seeds an optional first slide. It guards `undo` and `redo` with
  `canUndo` and `canRedo`.
- **The document edits that commit into it** (`Presentation.tsx`):
  - dragging a node;
  - changing a node's value or draggability;
  - appending a text node or a mutation-table node;
  - adding an empty slide;
  - the undo and redo buttons;
  - the node id counter.

Files:

- `history.dfy`, module `History`. It has the TimeState datatypes and `Reduce` with its
  lemmas. It also has the `HistoryStore` class, whose `Undo`, `Redo` and `Set` methods
  dispatch through `Reduce`.
- `history_cases.dfy`, module `HistoryCases`. It holds the cases of the source's Jest suite,
  stated on concrete stores.
- `presentation.dfy`, module `Presentation`. It holds the `Node` datatype and the decimal node
  ids. It has the two list-rewriting loops (`ShiftActiveNode`, `ApplyStateChange`) and the
  functions that specify them. It also has the `Presentation` class, which holds the store, the
  id counter and the current slide id.
- `presentation_session.dfy` is a client. It creates a text node, drags it by (50, 0) and
  undoes the drag, using only the contracts.

JavaScript's `undefined` and `null` are the `Slot` datatype: `Undefined | Null | Val(v)`. So
the reducer is total, as in the source. If the guards are bypassed, undo on an empty past and
redo on an empty future make the present `undefined`; `UnguardedUndoAndRedo` states this. A
thrown error is `Err(message)`, with the source's message text.

Beyond the source's own promises, the model proves one invariant, `Presentation.Valid`: the node
ids in every node list anywhere in the history are distinct. This covers every slide and all of
past, present and future. Every such id is also the decimal text of a counter value below
`idCounter`. Every editor method keeps the invariant. Its proof rests on
`DecimalStringInjective` and on `ReducePreservesEverySlot`, which says that the reducer never
invents a value.

Nodes carry a `draggable` flag that `model/node.ts` does not declare. The model keeps it,
because `Presentation.tsx` uses it.

## Model

| member | source | states |
|---|---|---|
| `History.EnsureValidActionForSlide` | src/shared/lib/hooks/use-history-state.ts:26-33 | Fails exactly when the action is undo or redo and the slide has no entry. The message is `invalid action=(<type>) for new slide`. |
| `History.GetOrCreateTimeStateForSlide` | src/shared/lib/hooks/use-history-state.ts:35-47 | An existing entry is used as is. A missing one reads as empty past and future with the `null` sentinel as present. |
| `History.Reduce` | src/shared/lib/hooks/use-history-state.ts:49-90 | Returns an error if and only if the action is undo or redo on a slide without an entry. Otherwise the new store's keys are the old keys plus the action's slide. Every other slide's TimeState is unchanged. |
| `History.UndoRedoOnNewSlideThrow` | src/shared/lib/hooks/use-history-state.ts:26-33 | Undo and redo on an absent slide throw, each with its own message. |
| `History.FirstSetCreatesSlide` | src/shared/lib/hooks/use-history-state.ts:74-86 | A first set on an absent slide adds exactly that slide, with past `[null]` (length 1), the new present and an empty future. |
| `History.SetOfCurrentPresentIsNoop` | src/shared/lib/hooks/use-history-state.ts:77-79 | Setting the value that is already the present returns the identical store. |
| `History.SetOnExistingSlide` | src/shared/lib/hooks/use-history-state.ts:81-86 | Setting a new value appends the old present to past, makes the value the present and empties future. The timeline is cut after the old present. |
| `History.UndoStep` | src/shared/lib/hooks/use-history-state.ts:60-66 | With a non-empty past, undo drops the last past entry, makes it the present and pushes the old present to the front of future. The slide's whole timeline (past, present, future) is unchanged, so its length is preserved. |
| `History.RedoStep` | src/shared/lib/hooks/use-history-state.ts:67-73 | With a non-empty future, redo appends the present to past, makes `future[0]` the present and keeps `future[1..]`. The timeline is unchanged. |
| `History.UnguardedUndoAndRedo` | src/shared/lib/hooks/use-history-state.ts:60-73 | The reducer does not check the stacks itself. Undo on an empty past and redo on an empty future make the present `undefined` and keep the old present in the other stack. |
| `History.UndoThenRedoRestores` | src/shared/lib/hooks/use-history-state.ts:60-73 | With a non-empty past, undo followed by redo gives back the original store. |
| `History.RedoThenUndoRestores` | src/shared/lib/hooks/use-history-state.ts:60-73 | With a non-empty future, redo followed by undo gives back the original store. |
| `History.SetThenUndo` | src/shared/lib/hooks/use-history-state.ts:60-86 | Setting a new value and undoing it restores the old past and present and leaves exactly the new value to redo. |
| `History.CanUndo` | src/shared/lib/hooks/use-history-state.ts:112-119 | False for an absent slide. True exactly when the slide has an entry with a non-empty past. |
| `History.CanRedo` | src/shared/lib/hooks/use-history-state.ts:121-128 | False for an absent slide. True exactly when the slide has an entry with a non-empty future. |
| `History.GuardedActionsNeverThrow` | src/shared/lib/hooks/use-history-state.ts:130-146 | Whenever `canUndo` or `canRedo` allows a dispatch, the reducer does not throw. |
| `History.ReducePreservesEverySlot` | src/shared/lib/hooks/use-history-state.ts:49-90 | Every value the reducer stores was already in the store, is the set action's new value, or is `undefined`/`null`. So any property of all stored values survives every transition. |
| `History.HistoryStore.constructor` | src/shared/lib/hooks/use-history-state.ts:92-110 | The store starts empty, or with the one seeded slide: empty past and future, the initial value as present. |
| `History.HistoryStore.Undo` | src/shared/lib/hooks/use-history-state.ts:130-137 | Dispatches undo only when `canUndo` holds, and then the reducer succeeds. Otherwise the store is unchanged. |
| `History.HistoryStore.Redo` | src/shared/lib/hooks/use-history-state.ts:139-146 | Dispatches redo only when `canRedo` holds, and then the reducer succeeds. Otherwise the store is unchanged. |
| `History.HistoryStore.Set` | src/shared/lib/hooks/use-history-state.ts:148-152 | Always dispatches. The reducer succeeds and the new store is its result. |
| `History.PresentOf` | src/pages/patientView/presentation/Presentation.tsx:254 | `state.get(id)?.present` is `undefined` for an absent slide and the stored present otherwise. |
| `HistoryCases.UndoOrRedoOnEmptyStoreThrows` | src/shared/lib/hooks/use-history-state.spec.ts:7-25 | Undo and redo on slide `test` of an empty store throw. |
| `HistoryCases.SetOnEmptyStore` | src/shared/lib/hooks/use-history-state.spec.ts:27-43 | A set on an empty store gives slide `test` a past of length 1, present `Hello World` and an empty future. |
| `HistoryCases.SetBesideAnotherSlide` | src/shared/lib/hooks/use-history-state.spec.ts:45-64 | With only slide `default` present, a set on `test` creates `test` with a past of length 1. It leaves `default` as it was. |
| `HistoryCases.SetOnExistingSlidePushesOldPresent` | src/shared/lib/hooks/use-history-state.spec.ts:66-86 | A set on existing slide `test` with present `Moin` gives past `[Moin]`, present `Hello World` and an empty future. |
| `HistoryCases.SetAfterUndoDiscardsRedo` | src/shared/lib/hooks/use-history-state.ts:60-86 | From any store and on any slide, after set v1, set v2 and undo, the present is v1 and v2 is the only redo. A further set of v3 empties the future. |
| `Presentation.DecimalString` | src/pages/patientView/presentation/Presentation.tsx:147 | The id text of a counter value has at least one digit, and two or more from 10 on. |
| `Presentation.DecimalStringInjective` | src/pages/patientView/presentation/Presentation.tsx:144-148 | Different counter values give different id strings, so the counter never issues an id twice. |
| `Presentation.AppendFreshNode` | src/pages/patientView/presentation/Presentation.tsx:180-208 | Appending a node whose id is the counter's current value to a list of earlier-issued, distinct ids keeps the ids distinct. They are then all issued below the next counter value. |
| `Presentation.PresentOrEmpty` | src/pages/patientView/presentation/Presentation.tsx:191 | `?.present ?? []`: the slide's node list when it has one, and the empty list when the slide is absent or its present is `null`/`undefined`. |
| `Presentation.AppendedKeepsOrder` | src/pages/patientView/presentation/Presentation.tsx:180-208 | The committed list is the existing nodes, in order, followed by exactly the new node. An absent slide gives the one-node list. |
| `Presentation.DraggedMovesOnlyActiveNode` | src/pages/patientView/presentation/Presentation.tsx:258-268 | The dragged list has the same length. A node with the active id moves by (dx, dy) and keeps id, type, value and draggability. Every other node is unchanged. |
| `Presentation.ShiftActiveNode` | src/pages/patientView/presentation/Presentation.tsx:258-268 | The copy loop computes exactly the dragged list. |
| `Presentation.DragEndCommit` | src/pages/patientView/presentation/Presentation.tsx:246-256 | A drag that commits is not ignored and commits to the slide its data names. That slide has a node list, and the committed list has the same length and the same ids in the same order. |
| `Presentation.DragEndCommitCases` | src/pages/patientView/presentation/Presentation.tsx:246-271 | A drag commits nothing exactly when the event has no data, both deltas are below 1 in absolute value, or the slide has no node list. Otherwise it commits the dragged present of the event's slide. |
| `Presentation.SubUnitDragIgnoredOnBothAxesOnly` | src/pages/patientView/presentation/Presentation.tsx:247-251 | A drag of (0.5, 0.5) is ignored. A drag of (0.5, 5) on a slide with a node list is committed: the skip needs both axes below 1. |
| `Presentation.StateChangedTouchesOnlyMatchingNodes` | src/pages/patientView/presentation/Presentation.tsx:287-299 | The updated list has the same length. A node with the given id gets the new value and draggability, and keeps its id, position and type. Every other node is unchanged. |
| `Presentation.ModifiedIffListChanges` | src/pages/patientView/presentation/Presentation.tsx:285-303 | The `modified` flag is set if and only if the updated list differs from the present one. |
| `Presentation.ApplyStateChange` | src/pages/patientView/presentation/Presentation.tsx:285-299 | The copy loop computes exactly the updated list. Its `modified` flag is true exactly when some node with the id differs in value or draggability. |
| `Presentation.StateChangeCommit` | src/pages/patientView/presentation/Presentation.tsx:279-303 | A state change commits only when the slide has a node list, and only a list that differs from it. The committed list has the same length and the same ids in the same order. |
| `Presentation.StateChangeCommitCases` | src/pages/patientView/presentation/Presentation.tsx:279-303 | A state change commits nothing exactly when the slide has no node list or nothing would change. In particular, nothing is committed when no node has the id. |
| `Presentation.Presentation.constructor` | src/pages/patientView/presentation/Presentation.tsx:73-90 | The editor starts with one slide holding the "Hello World" text node with id `1`, the id counter at 2 and no current slide. The invariant holds. |
| `Presentation.Presentation.SlideChanged` | src/pages/patientView/presentation/Presentation.tsx:104-108 | Records the slide the deck now shows. Nothing else changes. |
| `Presentation.Presentation.GetAndIncrementCounter` | src/pages/patientView/presentation/Presentation.tsx:144-148 | Returns the decimal text of the current counter and increments the counter. The store is unchanged. |
| `Presentation.Presentation.Commit` | src/pages/patientView/presentation/Presentation.tsx:270 | Every edit's `set(slideId, next)`: the store becomes the reducer's set of `next` on that slide. Given a list of distinct issued ids, the invariant still holds afterwards. |
| `Presentation.Presentation.OnUndoClick` | src/pages/patientView/presentation/Presentation.tsx:160-166 | With no current slide, or nothing to undo, the store is unchanged. Otherwise the store becomes the reducer's undo of the current slide. |
| `Presentation.Presentation.OnRedoClick` | src/pages/patientView/presentation/Presentation.tsx:168-174 | With no current slide, or nothing to redo, the store is unchanged. Otherwise the store becomes the reducer's redo of the current slide. |
| `Presentation.Presentation.OnAddSlideClick` | src/pages/patientView/presentation/Presentation.tsx:176-178 | Commits an empty node list under the given slide id. For a fresh id, the store gains exactly that slide, with past `[null]`, present `[]` and an empty future. |
| `Presentation.Presentation.CreateText` | src/pages/patientView/presentation/Presentation.tsx:180-193 | Commits the current slide's nodes (empty if it has none) followed by a text node. The new node has the next counter id, position (0, 0), value "Hello World" and is draggable. The counter moves on by one and the invariant holds. |
| `Presentation.Presentation.AddMutationTable` | src/pages/patientView/presentation/Presentation.tsx:195-208 | Commits the current slide's nodes followed by a mutation-table node. The new node has the next counter id, value `null` and is draggable. The counter moves on by one and the invariant holds. |
| `Presentation.Presentation.OnDragEnd` | src/pages/patientView/presentation/Presentation.tsx:246-271 | Leaves the store unchanged when the drag commits nothing. Otherwise the store becomes the reducer's set of the dragged list on the event's slide. Ids stay distinct. |
| `Presentation.Presentation.OnStateChanged` | src/pages/patientView/presentation/Presentation.tsx:273-304 | Leaves the store unchanged unless something would change. Otherwise the store becomes the reducer's set of the updated list. Ids stay distinct. |

## Left out

- History.Reduce: the reducer's `newPresent === present` compares arrays by reference. The model compares values.
  - The editor's edits always build a fresh array, so in the source a drag whose active id matches no node still adds one history entry. In the model that commit equals the present and is a no-op.
  - `OnAddSlideClick` on an id whose present is already `[]` is also a no-op in the model (`History.SetOfCurrentPresentIsNoop`). In the source, the fresh `[]` array always adds one history entry. For a fresh id, the model and the source agree.
  - The other edits commit a list that differs from the present. The state change commits only then, and an append makes the list longer. There the two comparisons agree.
- History.State: the source's `Map` keeps slides in insertion order. Undo, redo and set rebuild it with `new Map(state)` and `.set` (use-history-state.ts:61-62, 68-69, 81-82), and the deck renders one section per entry in that order (Presentation.tsx:348-350). `State` is an unordered Dafny `map`, so the order of slides in the deck is not modelled.
- History.FirstSetCreatesSlide: holds only for a non-null value. `SetAction`'s `newPresent` is a plain `T`, so a set of `null` or `undefined` cannot be expressed. In the source, `set(id, null)` on an absent slide equals the `null` placeholder present (use-history-state.ts:43) in the comparison on line 77 and returns the store without creating the slide.
- Store-wide clear/load, node deletion, resize, selection tracking and a `width` position field do not appear in `use-history-state.ts` or `Presentation.tsx` and are not modelled.
- React's machinery is not modelled: `useReducer`, `useCallback`, `useState`, render batching and stale closures. A dispatched action takes effect at once, and the id counter and current slide id are fields.
- `crypto.randomUUID()` stands for a fresh id oracle. The first slide's id and a new slide's id are parameters. Freshness is not assumed: `OnAddSlideClick` is specified for any id.
- `deepCopy` is not part of this model. Its source is not available, and value semantics make the copy implicit.
- The reducer's `Unsupported action type` branch is not modelled. The action type is a closed datatype, so that branch cannot be reached.
- `getAndIncrementSlideIdCounter` and the `slideIdCounter` it updates are not modelled. No code calls them.
- The Reveal.js deck lifecycle, `toggleFullscreen`, the `refs` state, `mapClinicalData`, `findClinicalAttributeOrEmptyString` and all rendering are left out. They are DOM, third-party or external-data glue. Only the deck's slide-changed callback is kept, as `SlideChanged`.
- Positions are `real`s. JavaScript floating-point rounding, `NaN` and infinities are not modelled.
- A node value is `null` or a string. The editor components' other payload types are not modelled.
- The pointer sensor, axis restriction, resizable and draggable wrappers, node components, menus and the file upload are not part of this model. They are event, geometry and UI plumbing.
