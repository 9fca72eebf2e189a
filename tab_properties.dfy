/** What the tab operations of TabState promise: border bookkeeping of
    select/deselect, single selection, the succession rule and the replacement
    rule of close, the drag guards and swap, and the position update. */
module TabProperties {
  import opened TabState

  /** A tab that is neither selected nor next to the selected tab's left edge:
      right thin border shown, both full borders hidden. */
  predicate AtRest(t: TabRec) {
    !t.selected && t.rightSmall && !t.leftFull && !t.rightFull
  }

  // ---------------------------------------------------------------------------
  // select / deselect

  /** select() on tab i: the border flags of tab i and of its left neighbour; nothing else changes. */
  lemma SelectEffects(s: seq<TabRec>, i: nat)
    requires i < |s|
    ensures var r := Selected(s, i);
      SameLayout(s, r) &&
      r[i].selected && !r[i].rightSmall && r[i].rightFull && (r[i].leftFull <==> i != 0) &&
      (i > 0 ==> !r[i - 1].rightSmall && r[i - 1].selected == s[i - 1].selected &&
                 r[i - 1].leftFull == s[i - 1].leftFull && r[i - 1].rightFull == s[i - 1].rightFull) &&
      (forall k :: 0 <= k < |s| && k != i && k + 1 != i ==> r[k] == s[k])
  {
  }

  /** deselect() on tab i: the border flags of tab i and of its left neighbour; nothing else changes. */
  lemma DeselectEffects(s: seq<TabRec>, i: nat)
    requires i < |s|
    ensures var r := Deselected(s, i);
      SameLayout(s, r) &&
      !r[i].selected && r[i].rightSmall && !r[i].rightFull && !r[i].leftFull &&
      (i > 0 ==> r[i - 1].rightSmall && r[i - 1].selected == s[i - 1].selected &&
                 r[i - 1].leftFull == s[i - 1].leftFull && r[i - 1].rightFull == s[i - 1].rightFull) &&
      (forall k :: 0 <= k < |s| && k != i && k + 1 != i ==> r[k] == s[k])
  {
  }

  /** deselect() undoes select() on a tab that was at rest and whose left
      neighbour showed its right thin border. */
  lemma DeselectUndoesSelect(s: seq<TabRec>, i: nat)
    requires i < |s| && AtRest(s[i])
    requires i > 0 ==> s[i - 1].rightSmall
    ensures Deselected(Selected(s, i), i) == s
  {
  }

  /** selectTab(j) changes at most the right thin border of a tab that is
      neither j nor selected beforehand: select and deselect touch only that
      border of their left neighbour. */
  lemma ReselectedFrame(s: seq<TabRec>, j: nat)
    requires j < |s|
    ensures var r := Reselected(s, j);
      |r| == |s| &&
      forall k :: 0 <= k < |s| && k != j && !s[k].selected ==> r[k].(rightSmall := s[k].rightSmall) == s[k]
  {
    var p := FirstSelectedFrom(s, 0);
    var before := match p
      case Some(q) => if q != j then Deselected(s, q) else s
      case None => s;
    assert forall k :: 0 <= k < |s| && !s[k].selected ==> before[k].(rightSmall := s[k].rightSmall) == s[k];
  }

  /** Selecting a tab whose strip had at most one selected tab leaves exactly
      that tab selected, with its right edge shown by the full border only and
      its left neighbour's right thin border hidden. The tab selected before,
      if another one, gets deselect's borders back, and so does its left
      neighbour's right thin border; every other unselected tab changes at
      most its right thin border, and every tab away from both is unchanged. */
  lemma ReselectedOnlySelected(s: seq<TabRec>, j: nat)
    requires j < |s| && AtMostOneSelected(s)
    ensures var r := Reselected(s, j);
      OnlySelected(r, j) && SameLayout(s, r) &&
      !r[j].rightSmall && r[j].rightFull && (r[j].leftFull <==> j != 0) &&
      (j > 0 ==> !r[j - 1].rightSmall) &&
      (forall p :: 0 <= p < |s| && s[p].selected && p != j ==>
         !r[p].leftFull && !r[p].rightFull && (r[p].rightSmall <==> p + 1 != j) &&
         (p > 0 && p - 1 != j ==> r[p - 1].rightSmall)) &&
      (forall k ::
         0 <= k < |s| && k != j && k + 1 != j && !s[k].selected && !(k + 1 < |s| && s[k + 1].selected)
         ==> r[k] == s[k]) &&
      (forall k :: 0 <= k < |s| && k != j && !s[k].selected ==> r[k].(rightSmall := s[k].rightSmall) == s[k])
  {
    ReselectedFrame(s, j);
    var p := FirstSelectedFrom(s, 0);
    var before := match p
      case Some(q) => if q != j then Deselected(s, q) else s
      case None => s;
    assert SameLayout(s, before);
    assert forall k :: 0 <= k < |s| && k != j ==> !before[k].selected;
    SelectEffects(before, j);
    if p.Some? && p.value != j {
      DeselectEffects(s, p.value);
    }
  }

  // ---------------------------------------------------------------------------
  // close

  /** splice(k, 1) moves every later tab down one place and keeps the list invariants. */
  lemma RemoveAtKeeps(s: seq<TabRec>, k: nat, bound: nat)
    requires k < |s|
    ensures var r := RemoveAt(s, k);
      |r| == |s| - 1 &&
      (forall m :: 0 <= m < |r| ==> r[m] == s[if m < k then m else m + 1]) &&
      (DistinctIds(s) ==> DistinctIds(r)) &&
      (IdsBelow(s, bound) ==> IdsBelow(r, bound)) &&
      (AtMostOneSelected(s) ==> AtMostOneSelected(r)) &&
      (s[k].selected && AtMostOneSelected(s) ==> forall m :: 0 <= m < |r| ==> !r[m].selected)
  {
  }

  /** The replacement for a sole tab goes after it and keeps the list invariants. */
  lemma BeforeRemovalKeeps(s: seq<TabRec>, newId: nat, positions: seq<int>)
    requires |s| == 1 ==> 1 < |positions|
    ensures var full := BeforeRemoval(s, newId, positions);
      |full| == (if |s| == 1 then 2 else |s|) &&
      (forall m :: 0 <= m < |s| ==> full[m] == s[m]) &&
      (|s| == 1 ==> full[1] == NewTab(newId, positions[1])) &&
      (DistinctIds(s) && IdsBelow(s, newId) ==> DistinctIds(full)) &&
      (AtMostOneSelected(s) ==> AtMostOneSelected(full)) &&
      (ExactlyOneSelected(s) ==> ExactlyOneSelected(full))
  {
  }

  lemma SameLayoutIds(s: seq<TabRec>, r: seq<TabRec>)
    requires SameLayout(s, r)
    ensures Ids(r) == Ids(s)
  {
  }

  lemma RemoveAtIds(s: seq<TabRec>, k: nat)
    requires k < |s|
    ensures Ids(RemoveAt(s, k)) == Ids(s)[..k] + Ids(s)[k + 1..]
  {
  }

  /** Whatever close() selects afterwards touches only selection and borders. */
  lemma ClosedLayout(s: seq<TabRec>, k: nat, newId: nat, positions: seq<int>)
    requires k < |s|
    requires |s| == 1 ==> 1 < |positions|
    ensures SameLayout(RemoveAt(BeforeRemoval(s, newId, positions), k), Closed(s, k, newId, positions))
  {
    var full := BeforeRemoval(s, newId, positions);
    var rest := RemoveAt(full, k);
    var next := Successor(|full|, k);
    if s[k].selected && next.Some? {
      var p := FirstSelectedFrom(rest, 0);
      var before := match p
        case Some(q) => if q != next.value then Deselected(rest, q) else rest
        case None => rest;
      assert SameLayout(rest, before);
      SelectEffects(before, next.value);
    }
  }

  /** close() on tab k removes exactly that tab: the remaining tabs are those
      of the strip it worked on (after any replacement was appended) in their
      order, one fewer, and never none. */
  lemma CloseRemovesExactlyOne(s: seq<TabRec>, k: nat, newId: nat, positions: seq<int>)
    requires k < |s|
    requires |s| == 1 ==> 1 < |positions|
    ensures var full := BeforeRemoval(s, newId, positions);
      var r := Closed(s, k, newId, positions);
      |r| == |full| - 1 && |r| > 0 &&
      Ids(r) == Ids(full)[..k] + Ids(full)[k + 1..] &&
      (forall m :: 0 <= m < |r| ==>
         r[m].pinned == full[if m < k then m else m + 1].pinned &&
         r[m].left == full[if m < k then m else m + 1].left &&
         r[m].locked == full[if m < k then m else m + 1].locked)
  {
    var full := BeforeRemoval(s, newId, positions);
    var rest := RemoveAt(full, k);
    var r := Closed(s, k, newId, positions);
    RemoveAtKeeps(full, k, newId);
    ClosedLayout(s, k, newId, positions);
    SameLayoutIds(rest, r);
    RemoveAtIds(full, k);
  }

  /** Closing the selected tab k selects the tab that followed it if there was
      one, else the tab before it; one of the two always exists, so the
      fallback to the first remaining tab is never taken. Closing an
      unselected tab changes no selection or border. */
  lemma CloseSuccession(s: seq<TabRec>, k: nat, newId: nat, positions: seq<int>)
    requires k < |s|
    requires |s| == 1 ==> 1 < |positions|
    requires AtMostOneSelected(s)
    ensures var full := BeforeRemoval(s, newId, positions);
      var r := Closed(s, k, newId, positions);
      (s[k].selected && k + 1 < |full| ==> OnlySelected(r, k) && r[k].id == full[k + 1].id) &&
      (s[k].selected && k + 1 == |full| && k > 0 ==> OnlySelected(r, k - 1) && r[k - 1].id == full[k - 1].id) &&
      (s[k].selected ==> k + 1 < |full| || k > 0) &&
      (!s[k].selected ==> r == RemoveAt(full, k))
  {
  }

  /** Closing the only tab first appends a replacement, so one tab remains:
      the replacement, selected when the closed tab was selected and otherwise
      exactly as constructed. */
  lemma CloseOnlyTab(s: seq<TabRec>, newId: nat, positions: seq<int>)
    requires |s| == 1 && 1 < |positions|
    ensures var r := Closed(s, 0, newId, positions);
      |r| == 1 && r[0].id == newId && r[0].left == positions[1] && !r[0].pinned &&
      (s[0].selected ==> OnlySelected(r, 0)) &&
      (!s[0].selected ==> r[0] == NewTab(newId, positions[1]))
  {
  }

  /** close() keeps the single-selection invariant: at most one selected tab
      stays at most one, and exactly one stays exactly one. */
  lemma CloseKeepsSelection(s: seq<TabRec>, k: nat, newId: nat, positions: seq<int>)
    requires k < |s|
    requires |s| == 1 ==> 1 < |positions|
    ensures var r := Closed(s, k, newId, positions);
      (AtMostOneSelected(s) ==> AtMostOneSelected(r)) &&
      (ExactlyOneSelected(s) ==> ExactlyOneSelected(r))
  {
    var full := BeforeRemoval(s, newId, positions);
    BeforeRemovalKeeps(s, newId, positions);
    var rest := RemoveAt(full, k);
    RemoveAtKeeps(full, k, newId);
    var r := Closed(s, k, newId, positions);
    var next := Successor(|full|, k);
    if AtMostOneSelected(s) {
      if s[k].selected && next.Some? {
        ReselectedOnlySelected(rest, next.value);
      }
    }
    if ExactlyOneSelected(s) {
      var j :| 0 <= j < |s| && OnlySelected(s, j);
      if s[k].selected {
        assert next.Some?;
        ReselectedOnlySelected(rest, next.value);
        assert OnlySelected(r, next.value);
      } else {
        assert j != k;
        var m := if j < k then j else j - 1;
        assert OnlySelected(r, m);
      }
    }
  }

  // ---------------------------------------------------------------------------
  // Drag arming and findTabToReplace

  /** A press arms a drag exactly when it is a primary-button press outside the
      close button; the armed session allows dragging exactly when the tab is
      not pinned, and remembers the press coordinates and the tab. */
  lemma ArmDragEffects(t: TabRec, targetClass: string, button: int, tabX: int, clientX: int)
    ensures var d := ArmDrag(t, targetClass, button, tabX, clientX);
      (d.Some? <==> targetClass != "tab-close" && button == 0) &&
      (d.Some? ==> (d.value.canDrag <==> !t.pinned) && d.value.tab == t.id &&
                   d.value.tabX == tabX && d.value.mouseClickX == clientX)
  {
  }

  /** Dragging swaps nothing when the dragged tab is pinned, nothing was hit,
      or the hit tab is pinned; otherwise it exchanges exactly the two tabs. */
  lemma ReplacedEffects(s: seq<TabRec>, i: nat, hit: Option<nat>)
    requires i < |s|
    requires hit.Some? ==> hit.value < |s|
    ensures var r := Replaced(s, i, hit);
      (ReplaceTarget(s, i, hit).None? <==> s[i].pinned || hit.None? || s[hit.value].pinned) &&
      (ReplaceTarget(s, i, hit).None? ==> r == s) &&
      (ReplaceTarget(s, i, hit).Some? ==>
         |r| == |s| && r[i] == s[hit.value] && r[hit.value] == s[i] &&
         forall m :: 0 <= m < |s| && m != i && m != hit.value ==> r[m] == s[m])
  {
  }

  /** A swap is undone by the same swap, and it only reorders the tabs. */
  lemma SwapInverse(s: seq<TabRec>, a: nat, b: nat)
    requires a < |s| && b < |s|
    ensures Swap(Swap(s, a, b), a, b) == s
    ensures multiset(Swap(s, a, b)) == multiset(s)
  {
  }

  /** Swapping keeps the set of tabs, so the id and selection invariants. */
  lemma SwapKeeps(s: seq<TabRec>, a: nat, b: nat, bound: nat)
    requires a < |s| && b < |s|
    ensures var r := Swap(s, a, b);
      (DistinctIds(s) ==> DistinctIds(r)) &&
      (IdsBelow(s, bound) ==> IdsBelow(r, bound)) &&
      (AtMostOneSelected(s) ==> AtMostOneSelected(r)) &&
      (ExactlyOneSelected(s) ==> ExactlyOneSelected(r))
  {
    var r := Swap(s, a, b);
    if ExactlyOneSelected(s) {
      var j :| 0 <= j < |s| && OnlySelected(s, j);
      var moved := if j == a then b else if j == b then a else j;
      assert OnlySelected(r, moved);
    }
  }

  /** A step that leaves every selection flag as it was keeps both forms of
      the single-selection invariant. */
  lemma SameSelectionKeeps(s: seq<TabRec>, r: seq<TabRec>)
    requires |r| == |s| && forall k :: 0 <= k < |s| ==> r[k].selected == s[k].selected
    ensures AtMostOneSelected(s) ==> AtMostOneSelected(r)
    ensures ExactlyOneSelected(s) ==> ExactlyOneSelected(r)
  {
    if ExactlyOneSelected(s) {
      var j :| 0 <= j < |s| && OnlySelected(s, j);
      assert OnlySelected(r, j);
    }
  }

  // ---------------------------------------------------------------------------
  // updatePosition and the deferred steps

  /** updatePosition() locks tab i, moves it to its computed offset and shows
      its left thin border exactly when that offset is not 0; nothing else changes. */
  lemma PositionedEffects(s: seq<TabRec>, i: nat, pos: int)
    requires i < |s|
    ensures var r := Positioned(s, i, pos);
      |r| == |s| && r[i].locked && r[i].left == pos && (r[i].leftSmall <==> pos != 0) &&
      r[i].(locked := s[i].locked, left := s[i].left, leftSmall := s[i].leftSmall) == s[i] &&
      (forall m :: 0 <= m < |s| && m != i ==> r[m] == s[m]) &&
      (AtMostOneSelected(s) ==> AtMostOneSelected(r)) &&
      (ExactlyOneSelected(s) ==> ExactlyOneSelected(r))
  {
    SameSelectionKeeps(s, Positioned(s, i, pos));
  }

  /** The unlock timer clears the lock of its own tab if that tab is still in
      the strip, and does nothing otherwise. */
  lemma UnlockedEffects(s: seq<TabRec>, id: nat)
    requires DistinctIds(s)
    ensures var k := IndexOf(s, id);
      (k == -1 ==> Unlocked(s, id) == s) &&
      (k != -1 ==> Unlocked(s, id) == s[k := s[k].(locked := false)]) &&
      (AtMostOneSelected(s) ==> AtMostOneSelected(Unlocked(s, id))) &&
      (ExactlyOneSelected(s) ==> ExactlyOneSelected(Unlocked(s, id)))
  {
    SameSelectionKeeps(s, Unlocked(s, id));
  }

  /** The construction tick clears its own tab's blocked left animation if the
      tab is still in the strip, and does nothing otherwise. */
  lemma SettledEffects(s: seq<TabRec>, id: nat)
    requires DistinctIds(s)
    ensures var k := IndexOf(s, id);
      (k == -1 ==> Settled(s, id) == s) &&
      (k != -1 ==> Settled(s, id) == s[k := s[k].(blockLeftAnimation := false)]) &&
      (AtMostOneSelected(s) ==> AtMostOneSelected(Settled(s, id))) &&
      (ExactlyOneSelected(s) ==> ExactlyOneSelected(Settled(s, id)))
  {
    SameSelectionKeeps(s, Settled(s, id));
  }

  /** indexOf finds a tab pushed with a fresh id at the end of the strip. */
  lemma IndexOfAppended(s: seq<TabRec>, t: TabRec)
    requires IdsBelow(s, t.id)
    ensures IndexOf(s + [t], t.id) == |s|
  {
    var r := s + [t];
    assert r[|s|].id == t.id;
  }

  /** A tab pushed with a fresh id is found at the end of the strip. */
  lemma AppendedIndex(s: seq<TabRec>, id: nat, positions: seq<int>)
    requires |s| < |positions| && IdsBelow(s, id)
    ensures var r := Appended(s, id, positions);
      IndexOf(r, id) == |s| && r[|s|] == NewTab(id, positions[|s|]) && r[..|s|] == s &&
      (DistinctIds(s) ==> DistinctIds(r)) && IdsBelow(r, id + 1) &&
      (AtMostOneSelected(s) ==> AtMostOneSelected(r)) &&
      (ExactlyOneSelected(s) ==> ExactlyOneSelected(r))
  {
    var r := Appended(s, id, positions);
    IndexOfAppended(s, NewTab(id, positions[|s|]));
    if ExactlyOneSelected(s) {
      var j :| 0 <= j < |s| && OnlySelected(s, j);
      assert OnlySelected(r, j);
    }
  }
}
