/** The tab strip as mutable state: the ordered tab list shared by all tabs,
    the drag session, and the collection's idle timer. Each method performs
    one operation of a tab step by step, as the tab does, and is proved to
    produce the state the corresponding TabState function describes. A tab's
    own methods take the tab's current index `i` (its indexOf in the list);
    the deferred steps take the tab's id, since the tab may have moved or
    been removed by the time they run. */
module TabStrip {
  import opened TabState
  import opened TabProperties

  class Strip {
    /** The shared ordered tab list (window.tabs, also reached as global.tabs). */
    var tabs: seq<TabRec>
    /** The id the next constructed tab receives. */
    var nextId: nat
    /** The collection's drag session. */
    var dragData: Option<DragData>
    /** The collection's idle timer object. */
    var timerTime: int
    var timerCanReset: bool

    /** Every tab object is in the list at most once, and ids are fresh. */
    ghost predicate Valid()
      reads this
    {
      DistinctIds(tabs) && IdsBelow(tabs, nextId)
    }

    /** Valid, and at most one tab is selected (the collection's invariant). */
    ghost predicate Consistent()
      reads this
    {
      Valid() && AtMostOneSelected(tabs)
    }

    constructor ()
      ensures Consistent()
      ensures tabs == [] && nextId == 0 && dragData == None
      ensures timerTime == 0 && !timerCanReset
    {
      tabs := [];
      nextId := 0;
      dragData := None;
      timerTime := 0;
      timerCanReset := false;
    }

    /** The state part of the tab constructor: a new unpinned tab is pushed and
        takes its left offset from the positions at its new index. */
    method Open(positions: seq<int>) returns (id: nat)
      requires Valid() && |tabs| < |positions|
      modifies this`tabs, this`nextId
      ensures Valid()
      ensures id == old(nextId) && nextId == old(nextId) + 1
      ensures tabs == Appended(old(tabs), id, positions)
      ensures AtMostOneSelected(old(tabs)) ==> AtMostOneSelected(tabs)
      ensures ExactlyOneSelected(old(tabs)) ==> ExactlyOneSelected(tabs)
    {
      id := nextId;
      nextId := nextId + 1;
      var tab := TabRec(id, false, false, false, false, true, false, false, false, 0);
      tab := tab.(pinned := false);
      AppendedIndex(tabs, id, positions);
      IndexOfAppended(tabs, tab);
      tabs := tabs + [tab];
      var index := IndexOf(tabs, id);
      tabs := tabs[index := tabs[index].(blockLeftAnimation := true)];
      var position := positions[index];
      tabs := tabs[index := tabs[index].(left := position)];
    }

    /** select() of tab i. */
    method Select(i: nat)
      requires Valid() && i < |tabs|
      modifies this`tabs
      ensures Valid()
      ensures tabs == Selected(old(tabs), i)
    {
      SelectEffects(tabs, i);
      var tab := tabs[i];
      tab := tab.(rightSmall := false);
      if i != 0 {
        tab := tab.(leftFull := true);
      } else {
        tab := tab.(leftFull := false);
      }
      tab := tab.(rightFull := true);
      if i > 0 {
        tabs := tabs[i - 1 := tabs[i - 1].(rightSmall := false)];
      }
      tab := tab.(selected := true);
      tabs := tabs[i := tab];
    }

    /** deselect() of tab i. */
    method Deselect(i: nat)
      requires Valid() && i < |tabs|
      modifies this`tabs
      ensures Valid()
      ensures tabs == Deselected(old(tabs), i)
    {
      DeselectEffects(tabs, i);
      ghost var before := tabs;
      var tab := tabs[i];
      tab := tab.(rightSmall := true);
      tab := tab.(leftFull := false);
      tab := tab.(rightFull := false);
      if i > 0 {
        tabs := tabs[i - 1 := tabs[i - 1].(rightSmall := true)];
      }
      tab := tab.(selected := false);
      tabs := tabs[i := tab];
      assert forall k :: 0 <= k < |tabs| ==> tabs[k] == Deselected(before, i)[k];
    }

    /** The collection's selectTab(tabs[j]): the previously selected tab is
        deselected, then tab j is selected, so it is the only selected tab. */
    method SelectTab(j: nat)
      requires Consistent() && j < |tabs|
      modifies this`tabs
      ensures Consistent()
      ensures tabs == Reselected(old(tabs), j)
      ensures OnlySelected(tabs, j) && SameLayout(old(tabs), tabs)
    {
      ReselectedOnlySelected(tabs, j);
      var previous := FirstSelectedFrom(tabs, 0);
      if previous.Some? && previous.value != j {
        Deselect(previous.value);
      }
      Select(j);
    }

    /** The mousedown handler of tab i. A press on the close button or with a
        button other than the primary one does nothing; otherwise the drag
        session is armed, the tab is selected, and `listens` says whether the
        mouse-move listener is attached (only for an unpinned tab). */
    method MouseDown(i: nat, targetClass: string, button: int, tabX: int, clientX: int) returns (listens: bool)
      requires Consistent() && i < |tabs|
      modifies this`tabs, this`dragData
      ensures Consistent()
      ensures var armed := ArmDrag(old(tabs)[i], targetClass, button, tabX, clientX);
        if armed.Some? then
          dragData == armed && tabs == Reselected(old(tabs), i) && listens == !old(tabs)[i].pinned
        else
          dragData == old(dragData) && tabs == old(tabs) && !listens
    {
      listens := false;
      if targetClass == "tab-close" {
        return;
      }
      if button != 0 {
        return;
      }
      dragData := Some(DragData(tabX, clientX, !tabs[i].pinned, tabs[i].id));
      SelectTab(i);
      if !tabs[i].pinned {
        listens := true;
      }
    }

    /** close() of tab i. `positions` is what getPositions gives the
        replacement tab when one has to be created. `added` says whether a
        replacement was created, `chosen` which index of the shrunk list was
        passed to selectTab. */
    method Close(i: nat, positions: seq<int>) returns (added: bool, chosen: Option<int>)
      requires Consistent() && i < |tabs|
      requires |tabs| == 1 ==> 1 < |positions|
      modifies this`tabs, this`nextId, this`timerTime, this`timerCanReset
      ensures Consistent()
      ensures tabs == Closed(old(tabs), i, old(nextId), positions)
      ensures added == (|old(tabs)| == 1)
      ensures nextId == if added then old(nextId) + 1 else old(nextId)
      ensures chosen == if old(tabs)[i].selected
                        then Successor(|BeforeRemoval(old(tabs), old(nextId), positions)|, i)
                        else None
      ensures timerCanReset && timerTime == 0
      ensures |tabs| > 0
      ensures ExactlyOneSelected(old(tabs)) ==> ExactlyOneSelected(tabs)
    {
      ghost var before, freshId := tabs, nextId;
      CloseRemovesExactlyOne(before, i, freshId, positions);
      CloseKeepsSelection(before, i, freshId, positions);
      added := false;
      if |tabs| == 1 {
        var _ := Open(positions);
        added := true;
      }
      timerCanReset := true;
      var index := i;
      var hasNext := index + 1 < |tabs|;
      var hasPrev := index > 0;
      var wasSelected := tabs[index].selected;
      RemoveAtKeeps(tabs, index, nextId);
      tabs := tabs[..index] + tabs[index + 1..];
      chosen := None;
      if wasSelected {
        if hasNext {
          chosen := Some(index);
        } else if hasPrev {
          chosen := Some(index - 1);
        } else if |tabs| > 0 {
          chosen := Some(0);
        }
      }
      if chosen.Some? {
        SelectTab(chosen.value);
      }
      timerTime := 0;
    }

    /** The collection's replaceTabs(a, b): the two tabs exchange places. */
    method ReplaceTabs(a: nat, b: nat)
      requires Valid() && a < |tabs| && b < |tabs|
      modifies this`tabs
      ensures Valid()
      ensures tabs == Swap(old(tabs), a, b)
      ensures AtMostOneSelected(old(tabs)) ==> AtMostOneSelected(tabs)
      ensures ExactlyOneSelected(old(tabs)) ==> ExactlyOneSelected(tabs)
    {
      SwapKeeps(tabs, a, b, nextId);
      var first := tabs[a];
      tabs := tabs[a := tabs[b]];
      tabs := tabs[b := first];
    }

    /** findTabToReplace() of tab i while it is dragged; `hit` is the index of
        the tab under the cursor as getTabFromMouseX finds it, if any. */
    method FindTabToReplace(i: nat, hit: Option<nat>) returns (swapped: bool)
      requires Valid() && i < |tabs|
      requires hit.Some? ==> hit.value < |tabs|
      modifies this`tabs
      ensures Valid()
      ensures tabs == Replaced(old(tabs), i, hit)
      ensures swapped == ReplaceTarget(old(tabs), i, hit).Some?
      ensures AtMostOneSelected(old(tabs)) ==> AtMostOneSelected(tabs)
      ensures ExactlyOneSelected(old(tabs)) ==> ExactlyOneSelected(tabs)
    {
      swapped := false;
      if !tabs[i].pinned {
        var overTab := hit;
        if overTab.Some? && !tabs[overTab.value].pinned {
          var indexTab := i;
          var indexOverTab := overTab.value;
          ReplaceTabs(indexTab, indexOverTab);
          swapped := true;
        }
      }
    }

    /** updatePosition() of tab i, given the collection's positions. */
    method UpdatePosition(i: nat, positions: seq<int>)
      requires Valid() && i < |tabs| && i < |positions|
      modifies this`tabs
      ensures Valid()
      ensures tabs == Positioned(old(tabs), i, positions[i])
      ensures AtMostOneSelected(old(tabs)) ==> AtMostOneSelected(tabs)
      ensures ExactlyOneSelected(old(tabs)) ==> ExactlyOneSelected(tabs)
    {
      PositionedEffects(tabs, i, positions[i]);
      var newTabPos := positions[i];
      var tab := tabs[i];
      tab := tab.(locked := true);
      tab := tab.(left := newTabPos);
      if newTabPos == 0 {
        tab := tab.(leftSmall := false);
      } else {
        tab := tab.(leftSmall := true);
      }
      tabs := tabs[i := tab];
    }

    /** The unlock timer updatePosition() schedules, for the tab with this id. */
    method Unlock(id: nat)
      requires Valid()
      modifies this`tabs
      ensures Valid()
      ensures tabs == Unlocked(old(tabs), id)
      ensures AtMostOneSelected(old(tabs)) ==> AtMostOneSelected(tabs)
      ensures ExactlyOneSelected(old(tabs)) ==> ExactlyOneSelected(tabs)
    {
      UnlockedEffects(tabs, id);
      var k := IndexOf(tabs, id);
      if k != -1 {
        tabs := tabs[k := tabs[k].(locked := false)];
      }
    }

    /** The construction tick the constructor schedules, for the tab with this id. */
    method Settle(id: nat)
      requires Valid()
      modifies this`tabs
      ensures Valid()
      ensures tabs == Settled(old(tabs), id)
      ensures AtMostOneSelected(old(tabs)) ==> AtMostOneSelected(tabs)
      ensures ExactlyOneSelected(old(tabs)) ==> ExactlyOneSelected(tabs)
    {
      SettledEffects(tabs, id);
      var k := IndexOf(tabs, id);
      if k != -1 {
        tabs := tabs[k := tabs[k].(blockLeftAnimation := false)];
      }
    }
  }
}
