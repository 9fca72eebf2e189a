# Tab strip state machine of the weaver browser shell

This project models the tab component of the weaver browser shell
(`src/components/Tab/index.js`) once the DOM is stripped away. What is left is
a sequence of synchronous state changes over one ordered list of tab records:
the shared `window.tabs` list. The code also reaches that list as `global.tabs`,
and the model treats both as the same list.

- `tab_state.dfy` (module `TabState`): the tab record `TabRec`, the drag
  session `DragData`, the invariants of the list, and one function per
  operation. Each function says what the operation does to the list:
  `Appended`, `Selected`, `Deselected`, `Reselected`, `Closed`, `ArmDrag`,
  `Replaced`, `Positioned`, `Unlocked` and `Settled`.
- `tab_properties.dfy` (module `TabProperties`): lemmas about those functions.
  They cover border bookkeeping, the round trip from select to deselect,
  single selection, the succession and replacement rules of close, the drag
  guards, swapping, and the position update.
- `tab_strip.dfy` (module `TabStrip`): the class `Strip`. It holds the tab list,
  the next free tab id, the collection's drag session and its idle timer
  (`timerTime`, `timerCanReset`). Each method does one operation step by step,
  the way the tab does it, and is proved to leave exactly the state the
  matching `TabState` function describes. The `modifies` clauses are per field.
- `transitions.dfy` (module `TabTransitions`): the pure mapping from a
  transition name to the declaration string that `appendTransition` and
  `removeTransition` pass on.

A tab record has `id` (the identity of the tab object), `pinned`, `selected`,
`locked`, `blockLeftAnimation`, four border-display flags (`rightSmall`,
`leftSmall`, `leftFull`, `rightFull`) and `left`. A tab's own methods take
the tab's index `i`, which is what `window.tabs.indexOf(this)` gives for a tab
in the list. The deferred timer callbacks take the tab's id instead, because
by the time they fire the tab may have moved or been closed. For a tab that
is gone they do nothing.

The collaborators are replaced as follows:
- `getPositions().tabPositions` is a `positions: seq<int>` parameter.
- `getTabFromMouseX` is a hit index `Option<nat>`.
- `replaceTabs(a, b)` is a swap (`Strip.ReplaceTabs`).
- `addTab()` is the list part of the tab constructor (`Strip.Open`).
- `selectTab(tab)` is `Strip.SelectTab`: if another tab is selected it is
  deselected, then the target is selected. This is the behaviour the model
  assumes for `selectTab`, whose code is not part of this model.
- Whether the mouse-move listener gets attached is returned as a boolean.

Points where the code's behaviour is easy to misread, and the model follows
the code as written:
- Background colour: the `background-color` declaration uses the positioning
  duration and no easing. There is no separate duration for it.
- `updatePosition`: the left thin border is hidden when the new position
  value is 0, not by looking at the tab's place in the order.
- Mouse press: the press is ignored only when its target element has class
  `tab-close`. A press on the close icon inside that element (class
  `tab-close-icon`) still arms a drag and selects the tab.
- Close, third branch: the fallback to "the first tab of the shrunk list" can
  never be taken. A sole tab gets a replacement appended before it is
  removed, so a closing selected tab always has a next or a previous tab. The
  model keeps the branch, as the code does, and `CloseSuccession` proves it
  is dead.

## Model

| member | source | states |
|---|---|---|
| `TabStrip.Strip.Open` | src/components/Tab/index.js:72-77 | pushes a new unpinned, unselected, unlocked tab with blocked left animation and only the right thin border shown, at the end of the list; its `left` is the position at its new index; ids stay distinct and single selection is kept |
| `TabStrip.Strip.Select` | src/components/Tab/index.js:108-131 | the list becomes `Selected(old, i)`: the select() border and flag changes on tab i and on its left neighbour |
| `TabStrip.Strip.Deselect` | src/components/Tab/index.js:136-155 | the list becomes `Deselected(old, i)`: the deselect() border and flag changes on tab i and on its left neighbour |
| `TabStrip.Strip.SelectTab` | src/components/Tab/index.js:30 | the selectTab collaborator: afterwards tab j is the only selected tab and order, ids, pinned, locked and left are unchanged |
| `TabStrip.Strip.MouseDown` | src/components/Tab/index.js:15-35 | a press on `tab-close` or with a non-primary button changes nothing and attaches no listener; otherwise the drag session is armed with `canDrag = !pinned`, the tab is selected, and the listener is attached exactly when the tab is not pinned |
| `TabStrip.Strip.Close` | src/components/Tab/index.js:160-230 | the list becomes `Closed(old, i, ...)`; a replacement is added exactly when the list had one tab; the index passed to selectTab follows the succession rule; the idle timer is reset with `canReset` set; the list is non-empty afterwards and exactly one selected tab stays exactly one |
| `TabStrip.Strip.ReplaceTabs` | src/components/Tab/index.js:287 | the replaceTabs collaborator: the two tabs exchange places and the list invariants are kept, including exactly one selected tab |
| `TabStrip.Strip.FindTabToReplace` | src/components/Tab/index.js:279-290 | the list becomes `Replaced(old, i, hit)` and `swapped` says whether a swap happened; ids stay distinct and fresh, and at most one / exactly one selected tab is kept |
| `TabStrip.Strip.UpdatePosition` | src/components/Tab/index.js:295-320 | the list becomes `Positioned(old, i, positions[i])`; ids stay distinct and fresh, and at most one / exactly one selected tab is kept |
| `TabStrip.Strip.Unlock` | src/components/Tab/index.js:309-311 | the deferred unlock clears `locked` of the tab with that id and changes nothing if the tab is gone; the id and selection invariants, including exactly one selected tab, are kept |
| `TabStrip.Strip.Settle` | src/components/Tab/index.js:81-86 | the construction tick clears `blockLeftAnimation` of the tab with that id and changes nothing if the tab is gone; the id and selection invariants, including exactly one selected tab, are kept |
| `TabState.IndexOfFrom` | src/components/Tab/index.js:76 | indexOf: the first index holding the id, or -1 exactly when no tab has it |
| `TabState.Successor` | src/components/Tab/index.js:188-200 | the selection target after closing index k always lies inside the shrunk list |
| `TabProperties.SelectEffects` | src/components/Tab/index.js:108-131 | select on tab i: selected, right thin border hidden, right full border shown, left full border shown iff i ≠ 0; tab i−1 (if any) loses its right thin border and nothing else of it changes; every other tab and all layout fields stay as they were |
| `TabProperties.DeselectEffects` | src/components/Tab/index.js:136-155 | deselect on tab i: not selected, right thin border shown, both full borders hidden; tab i−1 (if any) gets its right thin border back; every other tab and all layout fields stay as they were |
| `TabProperties.DeselectUndoesSelect` | src/components/Tab/index.js:108-155 | on a tab at rest whose left neighbour shows its right thin border, deselect after select restores the whole list |
| `TabProperties.ReselectedOnlySelected` | src/components/Tab/index.js:108-155 | with at most one tab selected beforehand, selectTab(j) leaves exactly tab j selected, with layout unchanged; j's right thin border is hidden, its right full border shown, its left full border shown iff j ≠ 0, and its left neighbour's right thin border hidden; the previously selected tab p ≠ j loses both full borders, shows its right thin border unless p+1 = j, and its left neighbour shows its right thin border again unless that neighbour is j; every tab that is neither j, j−1, p nor p−1 is unchanged, and every unselected tab other than j changes at most its right thin border |
| `TabProperties.ReselectedFrame` | src/components/Tab/index.js:108-155 | selectTab(j) changes at most the right thin border of any tab that is neither j nor selected beforehand, since select and deselect touch only that border of their left neighbour |
| `TabProperties.RemoveAtKeeps` | src/components/Tab/index.js:186 | splice(k, 1) shifts the later tabs down by one and keeps distinct ids, fresh ids and at most one selection; with the selected tab removed, no tab is selected |
| `TabProperties.BeforeRemovalKeeps` | src/components/Tab/index.js:164-166 | the replacement for a sole tab is appended after it, as a freshly constructed tab, and keeps the list invariants |
| `TabProperties.CloseRemovesExactlyOne` | src/components/Tab/index.js:181-186 | close on tab k removes exactly that tab: the ids of the result are those of the list (after any replacement) with position k dropped, in order; pinned, left and locked follow their tabs; the result has one tab fewer and is never empty |
| `TabProperties.CloseSuccession` | src/components/Tab/index.js:188-200 | closing the selected tab selects the old k+1 tab if it exists, else the old k−1 tab, and it is then the only selected tab; one of those two always exists, so the third branch (first remaining tab) is unreachable; closing an unselected tab only removes it |
| `TabProperties.CloseOnlyTab` | src/components/Tab/index.js:164-166 | closing the sole tab leaves exactly the replacement tab, which is selected when the closed tab was and otherwise exactly as constructed |
| `TabProperties.CloseKeepsSelection` | src/components/Tab/index.js:160-200 | close keeps "at most one selected" and keeps "exactly one selected" |
| `TabProperties.ArmDragEffects` | src/components/Tab/index.js:15-28 | a drag session is armed iff the target is not `tab-close` and the button is 0; it then records the press coordinates and the tab, and `canDrag` iff the tab is not pinned |
| `TabProperties.ReplacedEffects` | src/components/Tab/index.js:279-290 | no swap iff the dragged tab is pinned, nothing was hit, or the hit tab is pinned, and then the list is unchanged; otherwise exactly the two tabs exchange places |
| `TabProperties.SwapInverse` | src/components/Tab/index.js:287 | swapping the same pair twice restores the list, and a swap is a permutation |
| `TabProperties.SwapKeeps` | src/components/Tab/index.js:287 | a swap keeps distinct ids, fresh ids, at most one selection and exactly one selection |
| `TabProperties.SameSelectionKeeps` | src/components/Tab/index.js:295-320 | a step that changes no tab's `selected` flag keeps at most one and exactly one selected tab |
| `TabProperties.PositionedEffects` | src/components/Tab/index.js:295-320 | updatePosition on tab i: locked, `left` is the new position, left thin border shown iff that position ≠ 0; every other field of tab i and every other tab unchanged; at most one / exactly one selection kept |
| `TabProperties.UnlockedEffects` | src/components/Tab/index.js:309-311 | the unlock step changes only the lock of the tab with that id, if it is still in the list, and otherwise nothing; single selection (at most one / exactly one) is kept |
| `TabProperties.SettledEffects` | src/components/Tab/index.js:81-86 | the construction tick changes only `blockLeftAnimation` of the tab with that id, if it is still in the list, and otherwise nothing; single selection (at most one / exactly one) is kept |
| `TabProperties.IndexOfAppended` | src/components/Tab/index.js:76 | indexOf finds a tab pushed with a fresh id at the last index |
| `TabProperties.AppendedIndex` | src/components/Tab/index.js:72-77 | a constructed tab sits at the end, as constructed, with the earlier tabs untouched; it keeps distinct ids and single selection |
| `TabTransitions.Declaration` | src/components/Tab/index.js:236-251 | a known name's declaration starts with the name and a space; any other name gives the empty string |
| `TabTransitions.DeclarationNonEmpty` | src/components/Tab/index.js:257-271 | the declaration is non-empty exactly for `left`, `width` and `background-color` |
| `TabTransitions.DeclarationLaw` | src/components/Tab/index.js:236-251 | every known name's declaration is the name, a space, the positioning duration with unit `s`, then a space and the positioning easing, except that background-color has no easing |
| `TabTransitions.DeclarationsDistinct` | src/components/Tab/index.js:257-271 | different known names give different declarations |

## Left out

- DOM creation, CSS values (background colour, z-index, opacity, transitions on the close button, `pointerEvents`), and `setWidth`/`setLeft` beyond recording `left`: these are rendering.
- `Page` show/hide, removal of the page element, and `lastClosedURL` taken from the webview: these are calls into the content surface.
- The shared transitions helper (`Transitions.appendTransition`/`removeTransition`): its source is not part of this model. Only the name-to-declaration mapping is modelled, so the calls in the constructor, in `close` and in `updatePosition` change no modelled state.
- The delayed element removal in `close`, including the `this.width < 190` choice between instant removal and the width-collapse animation: it acts only on the DOM element, and `this.width` is never assigned in this file.
- The collection's `setWidths`, `setPositions` and `updateTabs`, and attaching the window mouse-move listener: external code and I/O. The listener attachment is reported as the result of `MouseDown`.
- Timers are not scheduled by the model. The two deferred state changes (`Unlock`, `Settle`) are separate steps that the caller runs later.
- Positions are modelled as integers. In the browser they are floating-point pixel values.
- `Close` requires the closing tab to be in the list. A second close of a detached tab (indexOf −1) is prevented by `pointerEvents: none` and is not modelled.
- `TabStrip.Strip.SelectTab`: deselects only the first selected tab it finds, and deselects it before selecting the target. That is enough under the collection's single-selection invariant, which `SelectTab` requires. The collection's real `selectTab` body is not part of this model, so this order is an assumption. If the real code selected the target first, or deselected every other tab, then deselecting tab j+1 would show the target's right thin border again next to its full border, and the border results of `ReselectedOnlySelected` would not hold.
- `TabStrip.Strip.Open`: models `addTab` as the constructor's list part only. Whether the real `addTab` also selects the new tab is not visible here. The succession rule of `close` selects the replacement anyway when the closed tab was selected. If the real `addTab` selected the new tab at index 1 before the splice, the replacement would keep `leftFull` shown after it moves to index 0. The model does not capture that case: in the model the replacement ends with `leftFull` hidden.
