/** The state of the tab strip as values: one record per tab, in display order,
    and the functions that say what each tab operation does to that sequence.
    The class in TabStrip performs these changes step by step and is proved
    against the functions defined here. */
module TabState {

  datatype Option<T> = None | Some(value: T)

  /** One tab. `id` stands for the identity of the tab object. The four border
      flags say whether the corresponding border element is displayed. */
  datatype TabRec = TabRec(
    id: nat,
    pinned: bool,
    selected: bool,
    locked: bool,
    blockLeftAnimation: bool,
    rightSmall: bool,
    leftSmall: bool,
    leftFull: bool,
    rightFull: bool,
    left: int)

  /** The drag session armed by a mouse press; `tab` is the id of the pressed tab. */
  datatype DragData = DragData(tabX: int, mouseClickX: int, canDrag: bool, tab: nat)

  /** A freshly constructed tab: not pinned, not selected, not locked, left
      animation blocked until the first tick, only the right thin border shown. */
  function NewTab(id: nat, left: int): TabRec {
    TabRec(id, false, false, false, true, true, false, false, false, left)
  }

  // ---------------------------------------------------------------------------
  // Invariants of the ordered sequence

  predicate DistinctIds(s: seq<TabRec>) {
    forall a, b :: 0 <= a < b < |s| ==> s[a].id != s[b].id
  }

  predicate IdsBelow(s: seq<TabRec>, bound: nat) {
    forall k :: 0 <= k < |s| ==> s[k].id < bound
  }

  predicate AtMostOneSelected(s: seq<TabRec>) {
    forall a, b :: 0 <= a < |s| && 0 <= b < |s| && s[a].selected && s[b].selected ==> a == b
  }

  /** Tab j is selected and no other tab is. */
  predicate OnlySelected(s: seq<TabRec>, j: nat) {
    j < |s| && forall k :: 0 <= k < |s| ==> (s[k].selected <==> k == j)
  }

  predicate ExactlyOneSelected(s: seq<TabRec>) {
    exists j :: 0 <= j < |s| && OnlySelected(s, j)
  }

  /** The ids in display order. */
  function Ids(s: seq<TabRec>): seq<nat> {
    seq(|s|, k requires 0 <= k < |s| => s[k].id)
  }

  /** Two sequences hold the same tabs in the same order with the same pinned,
      locked, left-animation and position state: only selection and borders differ. */
  predicate SameLayout(s: seq<TabRec>, r: seq<TabRec>) {
    |r| == |s| &&
    forall k :: 0 <= k < |s| ==>
      r[k].id == s[k].id && r[k].pinned == s[k].pinned && r[k].locked == s[k].locked &&
      r[k].blockLeftAnimation == s[k].blockLeftAnimation && r[k].left == s[k].left &&
      r[k].leftSmall == s[k].leftSmall
  }

  // ---------------------------------------------------------------------------
  // Index lookup

  /** The first index at or after `from` whose tab has the given id, or -1,
      as the array's indexOf does. */
  function IndexOfFrom(s: seq<TabRec>, id: nat, from: nat): (r: int)
    requires from <= |s|
    ensures r == -1 || from <= r < |s|
    ensures r == -1 ==> forall k :: from <= k < |s| ==> s[k].id != id
    ensures r != -1 ==> s[r].id == id && forall k :: from <= k < r ==> s[k].id != id
    decreases |s| - from
  {
    if from == |s| then -1
    else if s[from].id == id then from
    else IndexOfFrom(s, id, from + 1)
  }

  function IndexOf(s: seq<TabRec>, id: nat): int {
    IndexOfFrom(s, id, 0)
  }

  /** The first selected tab at or after `from`, if any. */
  function FirstSelectedFrom(s: seq<TabRec>, from: nat): (r: Option<nat>)
    requires from <= |s|
    ensures r.Some? ==> from <= r.value < |s| && s[r.value].selected
    ensures r.Some? ==> forall k :: from <= k < r.value ==> !s[k].selected
    ensures r.None? ==> forall k :: from <= k < |s| ==> !s[k].selected
    decreases |s| - from
  {
    if from == |s| then None
    else if s[from].selected then Some(from)
    else FirstSelectedFrom(s, from + 1)
  }

  // ---------------------------------------------------------------------------
  // Construction

  /** The strip after a new tab with the given id is pushed; it takes its left
      offset from the positions computed for its new index. */
  function Appended(s: seq<TabRec>, id: nat, positions: seq<int>): seq<TabRec>
    requires |s| < |positions|
  {
    s + [NewTab(id, positions[|s|])]
  }

  // ---------------------------------------------------------------------------
  // select / deselect

  function SelectedTab(t: TabRec, i: nat): TabRec {
    t.(selected := true, rightSmall := false, leftFull := i != 0, rightFull := true)
  }

  function DeselectedTab(t: TabRec): TabRec {
    t.(selected := false, rightSmall := true, leftFull := false, rightFull := false)
  }

  /** The strip after tab i runs select(): its own borders change and the tab
      before it loses its right thin border. */
  function Selected(s: seq<TabRec>, i: nat): seq<TabRec>
    requires i < |s|
  {
    seq(|s|, k requires 0 <= k < |s| =>
      if k == i then SelectedTab(s[k], i)
      else if k + 1 == i then s[k].(rightSmall := false)
      else s[k])
  }

  /** The strip after tab i runs deselect(): its own borders are restored and the
      tab before it gets its right thin border back. */
  function Deselected(s: seq<TabRec>, i: nat): seq<TabRec>
    requires i < |s|
  {
    seq(|s|, k requires 0 <= k < |s| =>
      if k == i then DeselectedTab(s[k])
      else if k + 1 == i then s[k].(rightSmall := true)
      else s[k])
  }

  /** The collection's selectTab(tabs[j]): the tab that was selected, if it is
      another one, is deselected, and then tab j is selected. */
  function Reselected(s: seq<TabRec>, j: nat): seq<TabRec>
    requires j < |s|
  {
    var before := match FirstSelectedFrom(s, 0)
      case Some(p) => if p != j then Deselected(s, p) else s
      case None => s;
    Selected(before, j)
  }

  // ---------------------------------------------------------------------------
  // close

  /** The sequence without its k-th element (splice(k, 1)). */
  function RemoveAt(s: seq<TabRec>, k: nat): seq<TabRec>
    requires k < |s|
  {
    s[..k] + s[k + 1..]
  }

  /** Which index of the shrunk sequence receives the selection when the
      selected tab at index k of a sequence of length n closes: the next tab,
      else the previous tab, else the first remaining tab, else none. */
  function Successor(n: nat, k: nat): (r: Option<int>)
    requires k < n
    ensures r.Some? ==> 0 <= r.value < n - 1
  {
    if k + 1 < n then Some(k)
    else if k > 0 then Some(k - 1)
    else if n - 1 > 0 then Some(0)
    else None
  }

  /** The strip close() works on: a replacement is appended first when the tab
      being closed is the only one. */
  function BeforeRemoval(s: seq<TabRec>, newId: nat, positions: seq<int>): seq<TabRec>
    requires |s| == 1 ==> 1 < |positions|
  {
    if |s| == 1 then Appended(s, newId, positions) else s
  }

  /** The strip after tab k closes. `newId` is the id a replacement gets. */
  function Closed(s: seq<TabRec>, k: nat, newId: nat, positions: seq<int>): seq<TabRec>
    requires k < |s|
    requires |s| == 1 ==> 1 < |positions|
  {
    var full := BeforeRemoval(s, newId, positions);
    var rest := RemoveAt(full, k);
    var next := Successor(|full|, k);
    if s[k].selected && next.Some? then Reselected(rest, next.value) else rest
  }

  // ---------------------------------------------------------------------------
  // Drag arming

  /** The drag session a mouse press on tab t arms, if any: none for a press
      on the close button or with a button other than the primary one. */
  function ArmDrag(t: TabRec, targetClass: string, button: int, tabX: int, clientX: int): Option<DragData> {
    if targetClass == "tab-close" then None
    else if button != 0 then None
    else Some(DragData(tabX, clientX, !t.pinned, t.id))
  }

  // ---------------------------------------------------------------------------
  // findTabToReplace

  /** The sequence with the tabs at a and b exchanged (replaceTabs). */
  function Swap(s: seq<TabRec>, a: nat, b: nat): seq<TabRec>
    requires a < |s| && b < |s|
  {
    s[a := s[b]][b := s[a]]
  }

  /** The tab that tab i is exchanged with while dragged, given the hit-test
      result: none when tab i is pinned, nothing was hit, or the hit tab is pinned. */
  function ReplaceTarget(s: seq<TabRec>, i: nat, hit: Option<nat>): Option<nat>
    requires i < |s|
    requires hit.Some? ==> hit.value < |s|
  {
    if s[i].pinned then None
    else if hit.None? then None
    else if s[hit.value].pinned then None
    else hit
  }

  function Replaced(s: seq<TabRec>, i: nat, hit: Option<nat>): seq<TabRec>
    requires i < |s|
    requires hit.Some? ==> hit.value < |s|
  {
    match ReplaceTarget(s, i, hit)
    case Some(b) => Swap(s, i, b)
    case None => s
  }

  // ---------------------------------------------------------------------------
  // updatePosition and the deferred steps

  /** Tab i after updatePosition() with its new offset `pos`. */
  function Positioned(s: seq<TabRec>, i: nat, pos: int): seq<TabRec>
    requires i < |s|
  {
    s[i := s[i].(locked := true, left := pos, leftSmall := pos != 0)]
  }

  /** The strip after the unlock timer of the tab with the given id fires. */
  function Unlocked(s: seq<TabRec>, id: nat): seq<TabRec> {
    seq(|s|, k requires 0 <= k < |s| => if s[k].id == id then s[k].(locked := false) else s[k])
  }

  /** The strip after the construction tick of the tab with the given id fires. */
  function Settled(s: seq<TabRec>, id: nat): seq<TabRec> {
    seq(|s|, k requires 0 <= k < |s| => if s[k].id == id then s[k].(blockLeftAnimation := false) else s[k])
  }
}
