/**
 The launcher's menu: two items ("Start game", "Editor") and two check boxes ("No Sound",
 "Frameskip") laid out by `initMenu`, and the three event handlers: pointer motion, a
 pointer press and a key press.

 The menu keeps its items and check boxes in two fixed arrays of five slots, with a count
 of the slots in use; the slots beyond the count keep whatever they held. An item's action
 launches a program; the model returns the command line it would start instead of starting
 it.
 */
module MenuModel {
  import opened Wrappers
  import opened TextMetrics
  import opened Launcher

  /** The SDL scancodes the keyboard handler reacts to. */
  const ScanReturn: int := 40
  const ScanEscape: int := 41
  const ScanDown: int := 81
  const ScanUp: int := 82
  const ScanKpEnter: int := 88

  /** The number of slots in each of the menu's arrays. */
  const Slots: nat := 5

  /** A control's position and size on screen. */
  datatype Rect = Rect(x: int, y: int, w: int, h: int)

  /** The hit test of `checkCollision` and `checkCollisionCB`: the rectangle with both of
      its far edges included. */
  predicate Inside(r: Rect, x: int, y: int) {
    r.x <= x <= r.x + r.w && r.y <= y <= r.y + r.h
  }

  /** The function an item runs when it is chosen. */
  datatype Action = StartGame | StartEditor

  /** The option of the launcher a check box writes through its pointer. */
  datatype Flag = NoSound | FrameSkip

  datatype Item = Item(text: string, at: Rect, selected: bool, chosen: bool, action: Action)

  datatype CheckBox = CheckBox(text: string, at: Rect, selected: bool, checked: bool, target: Flag)

  /** The menu: the item slots and how many are in use, the item the keyboard is on (-1 for
      none), and the check-box slots and how many are in use. */
  datatype Menu = Menu(items: seq<Item>, count: nat, keypos: int, boxes: seq<CheckBox>, boxCount: nat)

  /** The arrays have their five slots, the counts fit them, and the keyboard position is
      -1 or an item in use (or the first slot, which DOWN reaches on a menu with no items). */
  predicate Valid(m: Menu) {
    && |m.items| == Slots && |m.boxes| == Slots
    && m.count <= Slots && m.boxCount <= Slots
    && -1 <= m.keypos < (if m.count == 0 then 1 else m.count)
  }

  /** The value of one option of the launcher. */
  function OptionOf(a: App, f: Flag): bool {
    match f
    case NoSound => a.optNoSound
    case FrameSkip => a.optFrameSkip
  }

  /** The launcher with one option set. */
  function SetOption(a: App, f: Flag, v: bool): (r: App)
    ensures OptionOf(r, f) == v
    ensures forall g :: g != f ==> OptionOf(r, g) == OptionOf(a, g)
    ensures r.(optNoSound := a.optNoSound, optFrameSkip := a.optFrameSkip) == a
  {
    match f
    case NoSound => a.(optNoSound := v)
    case FrameSkip => a.(optFrameSkip := v)
  }

  // ---------------------------------------------------------------------------------
  // The actions

  /** A program to start: its path (NULL when the setup never ran) and the arguments after
      the program name. */
  datatype Command = Command(path: Option<string>, args: seq<string>)

  /** `startGame` and `startEditor`: the game gets `--no-sound` and `--frameskip` as the
      options say, in that order; the editor gets no arguments. */
  function Launch(a: App, act: Action): (c: Command)
    ensures act == StartEditor ==> c == Command(a.editorPath, [])
    ensures act == StartGame ==>
      && c.path == a.gamePath
      && ("--no-sound" in c.args <==> a.optNoSound)
      && ("--frameskip" in c.args <==> a.optFrameSkip)
      && |c.args| == (if a.optNoSound then 1 else 0) + (if a.optFrameSkip then 1 else 0)
      && (|c.args| == 2 ==> c.args[0] == "--no-sound")
    ensures |c.args| + 2 <= 4
  {
    match act
    case StartEditor => Command(a.editorPath, [])
    case StartGame =>
      var first := if a.optNoSound then ["--no-sound"] else [];
      var second := if a.optFrameSkip then ["--frameskip"] else [];
      Command(a.gamePath, first + second)
  }

  // ---------------------------------------------------------------------------------
  // initMenu

  /** `initMenuItem`: sized by the text metrics, neither selected nor chosen. */
  function NewItem(text: string, x: int, y: int, action: Action): (it: Item)
    ensures it.at == Rect(x, y, Width(text), LineHeight)
    ensures !it.selected && !it.chosen
    ensures it.text == text && it.action == action
  {
    Item(text, Rect(x, y, Width(text), LineHeight), false, false, action)
  }

  /** `initCheckBox`: as wide as its text plus 20 for the box itself, showing the option it
      is bound to. */
  function NewCheckBox(a: App, text: string, x: int, y: int, target: Flag): (cb: CheckBox)
    ensures cb.at == Rect(x, y, Width(text) + 20, LineHeight)
    ensures !cb.selected && cb.checked == OptionOf(a, target)
    ensures cb.text == text && cb.target == target
  {
    CheckBox(text, Rect(x, y, Width(text) + 20, LineHeight), false, OptionOf(a, target), target)
  }

  /** `initMenu`: fills the first two slots of each array; the rest keep what they held. */
  function InitMenu(m: Menu, a: App): (r: Menu)
    requires |m.items| == Slots && |m.boxes| == Slots
    ensures Valid(r)
    ensures r.count == 2 && r.keypos == -1 && r.boxCount == 2
    ensures r.items[2..] == m.items[2..] && r.boxes[2..] == m.boxes[2..]
  {
    var items := m.items[0 := NewItem("Start game", 20, 370, StartGame)]
                        [1 := NewItem("Editor", 20, 400, StartEditor)];
    var boxes := m.boxes[0 := NewCheckBox(a, "No Sound", 10, 10, NoSound)]
                        [1 := NewCheckBox(a, "Frameskip", 10, 38, FrameSkip)];
    Menu(items, 2, -1, boxes, 2)
  }

  /** The two items and two check boxes `initMenu` puts in place, with the sizes the font
      gives their texts. */
  lemma InitControls(m: Menu, a: App)
    requires |m.items| == Slots && |m.boxes| == Slots
    ensures InitMenu(m, a).items[0] == Item("Start game", Rect(20, 370, 180, 20), false, false, StartGame)
    ensures InitMenu(m, a).items[1] == Item("Editor", Rect(20, 400, 108, 20), false, false, StartEditor)
    ensures InitMenu(m, a).boxes[0] == CheckBox("No Sound", Rect(10, 10, 162, 20), false, a.optNoSound, NoSound)
    ensures InitMenu(m, a).boxes[1] == CheckBox("Frameskip", Rect(10, 38, 184, 20), false, a.optFrameSkip, FrameSkip)
  {
    StartGameWidth();
    EditorWidth();
    NoSoundWidth();
    FrameskipWidth();
  }

  /** Two rectangles with no point in common. */
  predicate Apart(p: Rect, q: Rect) {
    p.x + p.w < q.x || q.x + q.w < p.x || p.y + p.h < q.y || q.y + q.h < p.y
  }

  /** A rectangle on the 600x432 window of `initApp`. */
  predicate OnWindow(r: Rect) {
    0 <= r.x && 0 <= r.y && r.x + r.w < WindowWidth && r.y + r.h < WindowHeight
  }

  /** Apart rectangles share no point: a pointer is over at most one of them. */
  lemma ApartNoSharedPoint(p: Rect, q: Rect, x: int, y: int)
    requires Apart(p, q)
    ensures !(Inside(p, x, y) && Inside(q, x, y))
  {
  }

  /** The four controls of `initMenu` lie on the window and no two of them overlap, so every
      pointer position is over at most one control. */
  lemma InitLayout(m: Menu, a: App)
    requires |m.items| == Slots && |m.boxes| == Slots
    ensures var r := InitMenu(m, a);
            var c := [r.items[0].at, r.items[1].at, r.boxes[0].at, r.boxes[1].at];
            && (forall i :: 0 <= i < 4 ==> OnWindow(c[i]))
            && (forall i, j :: 0 <= i < j < 4 ==> Apart(c[i], c[j]))
  {
    InitControls(m, a);
  }

  // ---------------------------------------------------------------------------------
  // Check boxes and the options they write

  /** Every check box in use shows the option it is bound to. */
  predicate Synced(m: Menu, a: App)
    requires Valid(m)
  {
    forall i :: 0 <= i < m.boxCount ==> m.boxes[i].checked == OptionOf(a, m.boxes[i].target)
  }

  /** No two check boxes in use write the same option. */
  predicate DistinctTargets(m: Menu)
    requires Valid(m)
  {
    forall i, j :: 0 <= i < j < m.boxCount ==> m.boxes[i].target != m.boxes[j].target
  }

  /** `initMenu` binds the boxes to two different options and shows their values. */
  lemma InitSynced(m: Menu, a: App)
    requires |m.items| == Slots && |m.boxes| == Slots
    ensures Synced(InitMenu(m, a), a) && DistinctTargets(InitMenu(m, a))
  {
    InitControls(m, a);
  }

  // ---------------------------------------------------------------------------------
  // processMenuMouseMove

  /** Where an item and a check box are on screen. */
  function ItemAt(it: Item): Rect { it.at }
  function BoxAt(cb: CheckBox): Rect { cb.at }

  /** An item and a check box with their highlight set. */
  function SelectItem(it: Item, v: bool): Item { it.(selected := v) }
  function SelectBox(cb: CheckBox, v: bool): CheckBox { cb.(selected := v) }

  /** The rectangles of a sequence of controls. */
  function Rects<T>(cs: seq<T>, at: T -> Rect): (rs: seq<Rect>)
    ensures |rs| == |cs| && forall i :: 0 <= i < |cs| ==> rs[i] == at(cs[i])
  {
    seq(|cs|, i requires 0 <= i < |cs| => at(cs[i]))
  }

  /** A highlight loop of `processMenuMouseMove`: each of the first `n` controls is
      highlighted exactly when the pointer is over it; the other slots are left alone. */
  function Mark<T>(cs: seq<T>, n: nat, at: T -> Rect, select: (T, bool) -> T, x: int, y: int): (r: seq<T>)
    requires n <= |cs|
    ensures |r| == |cs|
    ensures forall i :: 0 <= i < |cs| ==>
      r[i] == if i < n then select(cs[i], Inside(at(cs[i]), x, y)) else cs[i]
  {
    if n == 0 then cs
    else Mark(cs, n - 1, at, select, x, y)[n - 1 := select(cs[n - 1], Inside(at(cs[n - 1]), x, y))]
  }

  /** `processMenuMouseMove` as written: every item in use and every box in use is selected
      exactly when the pointer is over it, and the keyboard position ends on the last item
      wherever the pointer is. */
  function MouseMoveAsWritten(m: Menu, x: int, y: int): (r: Menu)
    requires Valid(m)
    ensures Valid(r) && r.count == m.count && r.boxCount == m.boxCount
    ensures forall i :: 0 <= i < Slots ==>
      r.items[i] == if i < m.count then m.items[i].(selected := Inside(m.items[i].at, x, y)) else m.items[i]
    ensures forall i :: 0 <= i < Slots ==>
      r.boxes[i] == if i < m.boxCount then m.boxes[i].(selected := Inside(m.boxes[i].at, x, y)) else m.boxes[i]
    ensures m.count > 0 ==> r.keypos == m.count - 1
    ensures m.count == 0 ==> r.keypos == -1
  {
    Menu(Mark(m.items, m.count, ItemAt, SelectItem, x, y), m.count, m.count - 1,
         Mark(m.boxes, m.boxCount, BoxAt, SelectBox, x, y), m.boxCount)
  }

  /** The last of the first `n` rectangles the pointer is over, or -1 when it is over none. */
  function LastHit(rects: seq<Rect>, n: nat, x: int, y: int): (k: int)
    requires n <= |rects|
    ensures -1 <= k < n
    ensures k == -1 <==> forall i :: 0 <= i < n ==> !Inside(rects[i], x, y)
    ensures k != -1 ==> Inside(rects[k], x, y) && forall i :: k < i < n ==> !Inside(rects[i], x, y)
  {
    if n == 0 then -1
    else if Inside(rects[n - 1], x, y) then n - 1
    else LastHit(rects, n - 1, x, y)
  }

  /** `processMenuMouseMove` with the keyboard position following the pointer: it ends on
      the last item the pointer is over, or -1 when it is over none. */
  function MouseMove(m: Menu, x: int, y: int): (r: Menu)
    requires Valid(m)
    ensures Valid(r) && r.count == m.count && r.boxCount == m.boxCount
    ensures forall i :: 0 <= i < Slots ==>
      r.items[i] == if i < m.count then m.items[i].(selected := Inside(m.items[i].at, x, y)) else m.items[i]
    ensures forall i :: 0 <= i < Slots ==>
      r.boxes[i] == if i < m.boxCount then m.boxes[i].(selected := Inside(m.boxes[i].at, x, y)) else m.boxes[i]
    ensures r.keypos == -1 <==> forall i :: 0 <= i < m.count ==> !Inside(m.items[i].at, x, y)
    ensures r.keypos != -1 ==>
      && 0 <= r.keypos < m.count && Inside(m.items[r.keypos].at, x, y)
      && forall i :: r.keypos < i < m.count ==> !Inside(m.items[i].at, x, y)
  {
    Menu(Mark(m.items, m.count, ItemAt, SelectItem, x, y), m.count,
         LastHit(Rects(m.items, ItemAt), m.count, x, y),
         Mark(m.boxes, m.boxCount, BoxAt, SelectBox, x, y), m.boxCount)
  }

  /** With the menu of `initMenu`, the pointer at (25, 375) is over "Start game" and over
      nothing else, yet the handler as written leaves the keyboard on "Editor". */
  lemma PointerOverStartGame(m: Menu, a: App)
    requires |m.items| == Slots && |m.boxes| == Slots
    ensures var r := InitMenu(m, a);
            && Inside(r.items[0].at, 25, 375)
            && !Inside(r.items[1].at, 25, 375)
            && r.count - 1 == 1 && r.items[1].action == StartEditor
  {
    InitControls(m, a);
  }

  /** With the menu of `initMenu`, moving the pointer to (25, 375), over "Start game", and
      then pressing RETURN starts the editor in the handlers as written; with the keyboard
      position following the pointer, it starts the game. */
  lemma ReturnAfterPointerOverStartGame(m: Menu, a: App)
    requires |m.items| == Slots && |m.boxes| == Slots
    ensures Inside(InitMenu(m, a).items[0].at, 25, 375) && !Inside(InitMenu(m, a).items[1].at, 25, 375)
    ensures var w := KeyAsWritten(MouseMoveAsWritten(InitMenu(m, a), 25, 375), a, ScanReturn);
            w.Handled? && w.launched == Some(Launch(a, StartEditor))
    ensures var c := Key(MouseMove(InitMenu(m, a), 25, 375), a, ScanReturn);
            c.Handled? && c.launched == Some(Launch(a, StartGame))
  {
    InitControls(m, a);
  }

  // ---------------------------------------------------------------------------------
  // processMenuMousePress

  /** The first of the first `n` rectangles the pointer is over. */
  function FirstHit(rects: seq<Rect>, n: nat, x: int, y: int): (r: Option<nat>)
    requires n <= |rects|
    ensures r.Some? ==>
      && r.value < n && Inside(rects[r.value], x, y)
      && forall i :: 0 <= i < r.value ==> !Inside(rects[i], x, y)
    ensures r.None? ==> forall i :: 0 <= i < n ==> !Inside(rects[i], x, y)
  {
    if n == 0 then None
    else
      match FirstHit(rects, n - 1, x, y)
      case Some(i) => Some(i)
      case None => if Inside(rects[n - 1], x, y) then Some(n - 1) else None
  }

  /** The outcome of a pointer press: the menu, the launcher, and the program started. */
  datatype Pressed = Pressed(menu: Menu, app: App, launched: Option<Command>)

  /** The item loop of `processMenuMousePress`: the first item under the pointer runs its
      action, is marked chosen and stops the main loop. */
  function PressItems(m: Menu, a: App, x: int, y: int): (r: Pressed)
    requires Valid(m)
    ensures r.menu == m.(items := r.menu.items) && Valid(r.menu)
    ensures r.launched.None? <==> forall i :: 0 <= i < m.count ==> !Inside(m.items[i].at, x, y)
    ensures r.launched.None? ==> r.menu.items == m.items && r.app == a
    ensures r.launched.Some? ==> r.app == a.(working := 0)
  {
    match FirstHit(Rects(m.items, ItemAt), m.count, x, y)
    case None => Pressed(m, a, None)
    case Some(i) =>
      Pressed(m.(items := m.items[i := m.items[i].(chosen := true)]), a.(working := 0),
              Some(Launch(a, m.items[i].action)))
  }

  /** The check-box loop of `processMenuMousePress`: the first box under the pointer flips
      and writes its new state to its option. */
  function PressBoxes(p: Pressed, x: int, y: int): (r: Pressed)
    requires Valid(p.menu)
    ensures r.menu == p.menu.(boxes := r.menu.boxes) && Valid(r.menu)
    ensures r.launched == p.launched
    ensures r.app.working == p.app.working
    ensures (forall j :: 0 <= j < p.menu.boxCount ==> !Inside(p.menu.boxes[j].at, x, y)) ==>
              r == p
  {
    var m := p.menu;
    match FirstHit(Rects(m.boxes, BoxAt), m.boxCount, x, y)
    case None => p
    case Some(j) =>
      var v := !m.boxes[j].checked;
      Pressed(m.(boxes := m.boxes[j := m.boxes[j].(checked := v)]),
              SetOption(p.app, m.boxes[j].target, v), p.launched)
  }

  /** `processMenuMousePress`: the item loop, then the check-box loop. A press that hits no
      item starts nothing and leaves the items and the main loop alone. */
  function MousePress(m: Menu, a: App, x: int, y: int): (r: Pressed)
    requires Valid(m)
    ensures Valid(r.menu) && r.menu.count == m.count && r.menu.keypos == m.keypos
    ensures r.menu.boxCount == m.boxCount
    ensures r.launched.None? <==> forall i :: 0 <= i < m.count ==> !Inside(m.items[i].at, x, y)
    ensures r.app.working == (if r.launched.Some? then 0 else a.working)
  {
    PressBoxes(PressItems(m, a, x, y), x, y)
  }

  /** The first item under the pointer is the one that runs, with the options as they were
      before the press, and it is marked chosen. */
  lemma PressRunsFirstItem(m: Menu, a: App, x: int, y: int, i: nat)
    requires Valid(m) && i < m.count && Inside(m.items[i].at, x, y)
    requires forall k :: 0 <= k < i ==> !Inside(m.items[k].at, x, y)
    ensures var r := MousePress(m, a, x, y);
            && r.launched == Some(Launch(a, m.items[i].action))
            && r.menu.items == m.items[i := m.items[i].(chosen := true)]
  {
    var h := FirstHit(Rects(m.items, ItemAt), m.count, x, y);
    assert h == Some(i);
  }

  /** The first check box under the pointer flips, and its option takes its new state; the
      other option keeps its value. */
  lemma PressFlipsFirstBox(m: Menu, a: App, x: int, y: int, j: nat)
    requires Valid(m) && j < m.boxCount && Inside(m.boxes[j].at, x, y)
    requires forall k :: 0 <= k < j ==> !Inside(m.boxes[k].at, x, y)
    ensures var r := MousePress(m, a, x, y);
            && r.menu.boxes == m.boxes[j := m.boxes[j].(checked := !m.boxes[j].checked)]
            && OptionOf(r.app, m.boxes[j].target) == !m.boxes[j].checked
            && forall f :: f != m.boxes[j].target ==> OptionOf(r.app, f) == OptionOf(a, f)
  {
    var p := PressItems(m, a, x, y);
    var h := FirstHit(Rects(p.menu.boxes, BoxAt), p.menu.boxCount, x, y);
    assert h == Some(j);
  }

  /** A press on no check box leaves the boxes and both options as they were. */
  lemma PressMissesBoxes(m: Menu, a: App, x: int, y: int)
    requires Valid(m)
    requires forall j :: 0 <= j < m.boxCount ==> !Inside(m.boxes[j].at, x, y)
    ensures var r := MousePress(m, a, x, y);
            r.menu.boxes == m.boxes && r.app == a.(working := r.app.working)
  {
  }

  /** A press keeps every check box showing its option, as long as no two boxes share one. */
  lemma PressKeepsSynced(m: Menu, a: App, x: int, y: int)
    requires Valid(m) && Synced(m, a) && DistinctTargets(m)
    ensures var r := MousePress(m, a, x, y);
            Synced(r.menu, r.app) && DistinctTargets(r.menu)
  {
    var r := MousePress(m, a, x, y);
    var p := PressItems(m, a, x, y);
    assert p.app.(working := a.working) == a;
    match FirstHit(Rects(m.boxes, BoxAt), m.boxCount, x, y)
    case None =>
    case Some(j) =>
      PressFlipsFirstBox(m, a, x, y, j);
      forall i | 0 <= i < m.boxCount
        ensures r.menu.boxes[i].checked == OptionOf(r.app, r.menu.boxes[i].target)
      {
        if i != j {
          assert m.boxes[i].target != m.boxes[j].target;
        }
      }
  }

  // ---------------------------------------------------------------------------------
  // processMenuKeyboard

  /** A key press either writes outside the item array (undefined behaviour), or is
      handled. */
  datatype KeyOutcome = OutOfBounds | Handled(menu: Menu, app: App, launched: Option<Command>)

  /** The deselection loop with the loop index: every item in use is deselected. */
  function Deselect(items: seq<Item>, n: nat): (r: seq<Item>)
    requires n <= |items|
    ensures |r| == |items|
    ensures forall i :: 0 <= i < |items| ==> r[i] == if i < n then items[i].(selected := false) else items[i]
  {
    if n == 0 then items else Deselect(items, n - 1)[n - 1 := items[n - 1].(selected := false)]
  }

  /** The `switch` of `processMenuKeyboard`, after the deselection loop. */
  function Dispatch(m: Menu, a: App, key: int): (r: KeyOutcome)
    requires Valid(m)
    ensures r.OutOfBounds? <==> key == ScanUp && m.count == 0
    ensures r.Handled? ==>
      && Valid(r.menu) && r.menu.count == m.count
      && r.menu.boxes == m.boxes && r.menu.boxCount == m.boxCount
  {
    if key == ScanDown then
      var k := if m.keypos < 0 then 0 else if m.keypos + 1 >= m.count then 0 else m.keypos + 1;
      Handled(m.(keypos := k, items := m.items[k := m.items[k].(selected := true)]), a, None)
    else if key == ScanUp then
      var k := if m.keypos < 0 || m.keypos - 1 < 0 then m.count - 1 else m.keypos - 1;
      if k < 0 then OutOfBounds
      else Handled(m.(keypos := k, items := m.items[k := m.items[k].(selected := true)]), a, None)
    else if key == ScanReturn || key == ScanKpEnter then
      if 0 <= m.keypos < m.count then
        var it := m.items[m.keypos];
        Handled(m.(items := m.items[m.keypos := it.(chosen := true)]), a.(working := 0),
                Some(Launch(a, it.action)))
      else Handled(m, a, None)
    else if key == ScanEscape then Handled(m, a.(working := 0), None)
    else Handled(m, a, None)
  }

  /** `processMenuKeyboard` as written: the deselection loop writes the item at the keyboard
      position once per item in use, which is the slot before the array when the position
      is -1. */
  function KeyAsWritten(m: Menu, a: App, key: int): (r: KeyOutcome)
    requires Valid(m)
    ensures m.count > 0 && m.keypos == -1 ==> r.OutOfBounds?
    ensures r.Handled? ==> Valid(r.menu)
    ensures m.count > 0 && m.keypos >= 0 && r.Handled? ==>
      forall i :: 0 <= i < Slots && i != m.keypos && i != r.menu.keypos ==>
        r.menu.items[i].selected == m.items[i].selected
  {
    if m.count == 0 then Dispatch(m, a, key)
    else if m.keypos < 0 then OutOfBounds
    else Dispatch(m.(items := m.items[m.keypos := m.items[m.keypos].(selected := false)]), a, key)
  }

  /** `processMenuKeyboard` with every item deselected first. DOWN and UP move the keyboard
      position round the items in use and select that item alone; RETURN and keypad ENTER
      run the item at the position, if there is one; ESCAPE stops the main loop. Only UP on
      a menu with no items writes outside the array: the position becomes -1 and the item
      there is written. */
  function Key(m: Menu, a: App, key: int): (r: KeyOutcome)
    requires Valid(m)
    ensures r.OutOfBounds? <==> key == ScanUp && m.count == 0
    ensures r.Handled? ==>
      && Valid(r.menu) && r.menu.count == m.count
      && r.menu.boxes == m.boxes && r.menu.boxCount == m.boxCount
    ensures m.count > 0 && (key == ScanDown || key == ScanUp) ==>
      && r.Handled? && 0 <= r.menu.keypos < m.count
      && (forall i :: 0 <= i < m.count ==> (r.menu.items[i].selected <==> i == r.menu.keypos))
      && r.app == a && r.launched.None?
    ensures r.Handled? && r.launched.Some? <==>
      (key == ScanReturn || key == ScanKpEnter) && 0 <= m.keypos < m.count
    ensures r.Handled? && r.launched.Some? ==>
      && r.launched == Some(Launch(a, m.items[m.keypos].action))
      && r.menu.items[m.keypos].chosen && r.app == a.(working := 0)
    ensures m.count > 0 && (key == ScanDown || key == ScanUp) ==>
      && r.menu.boxes == m.boxes
      && forall i :: 0 <= i < Slots ==>
           r.menu.items[i] == if i < m.count then m.items[i].(selected := i == r.menu.keypos) else m.items[i]
    ensures m.count == 0 && key == ScanDown ==>
      r == Handled(m.(keypos := 0, items := m.items[0 := m.items[0].(selected := true)]), a, None)
    ensures (key == ScanReturn || key == ScanKpEnter) && 0 <= m.keypos < m.count ==>
      r.menu == m.(items := Deselect(m.items, m.count)[m.keypos := m.items[m.keypos].(selected := false, chosen := true)])
    ensures (key == ScanReturn || key == ScanKpEnter) && !(0 <= m.keypos < m.count) ==>
      r == Handled(m.(items := Deselect(m.items, m.count)), a, None)
    ensures key == ScanEscape ==> r == Handled(m.(items := Deselect(m.items, m.count)), a.(working := 0), None)
    ensures key !in {ScanDown, ScanUp, ScanReturn, ScanKpEnter, ScanEscape} ==>
      r == Handled(m.(items := Deselect(m.items, m.count)), a, None)
  {
    Dispatch(m.(items := Deselect(m.items, m.count)), a, key)
  }

  /** DOWN moves to the next item in use, wrapping after the last one; from no position it
      goes to the first. */
  lemma DownWraps(m: Menu, a: App)
    requires Valid(m) && 0 < m.count && m.keypos < m.count
    ensures Key(m, a, ScanDown).menu.keypos == if m.keypos < 0 then 0 else (m.keypos + 1) % m.count
  {
    if m.keypos + 1 < m.count {
      ModSmall(m.keypos + 1, m.count);
    } else {
      ModSmall(0, m.count);
      ModShift(0, m.count);
    }
  }

  /** UP moves to the previous item in use, wrapping before the first one; from no position
      it goes to the last. */
  lemma UpWraps(m: Menu, a: App)
    requires Valid(m) && 0 < m.count && m.keypos < m.count
    ensures Key(m, a, ScanUp).menu.keypos ==
            if m.keypos < 0 then m.count - 1 else (m.keypos - 1 + m.count) % m.count
  {
    if m.keypos == 0 {
      ModSmall(m.count - 1, m.count);
    } else if m.keypos > 0 {
      ModSmall(m.keypos - 1, m.count);
      ModShift(m.keypos - 1, m.count);
    }
  }

  /** UP undoes DOWN. */
  lemma UpUndoesDown(m: Menu, a: App)
    requires Valid(m) && 0 <= m.keypos < m.count
    ensures var d := Key(m, a, ScanDown);
            Key(d.menu, d.app, ScanUp).menu.keypos == m.keypos
  {
    DownWraps(m, a);
    var d := Key(m, a, ScanDown);
    UpWraps(d.menu, d.app);
  }

  /** `x` wrapped round `c` positions by repeated subtraction: the remainder, computed the
      way the handler's wrap-around reaches it. */
  function Cyc(x: nat, c: nat): (r: nat)
    requires 0 < c
    ensures r < c
    decreases x
  {
    if x < c then x else Cyc(x - c, c)
  }

  lemma ModSmall(a: int, c: int)
    requires 0 <= a < c
    ensures a % c == a
  {
  }

  lemma MulZero(k: int, c: int)
    requires 0 < c && -c < c * k < c
    ensures k == 0
  {
  }

  /** Adding the modulus does not change a remainder. */
  lemma ModShift(a: int, c: int)
    requires 0 < c
    ensures (a + c) % c == a % c
  {
    var q, r := a / c, a % c;
    var q', r' := (a + c) / c, (a + c) % c;
    assert a == c * q + r;
    assert a + c == c * q' + r';
    assert c * (q' - q - 1) == r - r';
    MulZero(q' - q - 1, c);
  }

  lemma CycOnce(x: nat, c: nat)
    requires 0 < c
    ensures Cyc(x + c, c) == Cyc(x, c)
  {
  }

  /** Wrapping by subtraction is the remainder. */
  lemma {:induction false} CycIsMod(x: nat, c: nat)
    requires 0 < c
    ensures Cyc(x, c) == x % c
    decreases x
  {
    if x < c {
      ModSmall(x, c);
    } else {
      CycIsMod(x - c, c);
      ModShift(x - c, c);
    }
  }

  /** Wrapping one step and then `n - 1` more is wrapping `n` steps. */
  lemma CycStep(p: nat, n: nat, c: nat)
    requires p < c && 0 < n
    ensures Cyc(Cyc(p + 1, c) + (n - 1), c) == Cyc(p + n, c)
  {
    if p + 1 == c {
      CycOnce(0, c);
      CycOnce(n - 1, c);
    }
  }

  /** A position reached by one wrapped step and then `n - 1` more is `n` wrapped steps on. */
  lemma CycChain(k: int, d: int, p: nat, n: nat, c: nat)
    requires p < c && 0 < n && d == Cyc(p + 1, c) && k == Cyc(d + (n - 1), c)
    ensures k == Cyc(p + n, c)
  {
    CycStep(p, n, c);
  }

  /** The menu after one press of DOWN on a menu with items: the next item in use, wrapping
      after the last one, is selected alone. `DownIsKey` shows this is what `Key` does. */
  function Down(m: Menu): (r: Menu)
    requires Valid(m) && 0 < m.count
    ensures Valid(r) && r.count == m.count && 0 <= r.keypos < r.count
    ensures 0 <= m.keypos ==> r.keypos == Cyc(m.keypos + 1, m.count)
  {
    CycOnce(0, m.count);
    var k := if m.keypos < 0 || m.keypos + 1 >= m.count then 0 else m.keypos + 1;
    m.(keypos := k, items := Deselect(m.items, m.count)[k := m.items[k].(selected := true)])
  }

  /** `Down` is the DOWN key as the handler treats it. */
  lemma DownIsKey(m: Menu, a: App)
    requires Valid(m) && 0 < m.count
    ensures Key(m, a, ScanDown) == Handled(Down(m), a, None)
  {
  }

  /** The menu after `n` presses of DOWN. */
  function PressDown(m: Menu, n: nat): (r: Menu)
    requires Valid(m) && 0 < m.count
    ensures Valid(r) && r.count == m.count
    decreases n
  {
    if n == 0 then m else PressDown(Down(m), n - 1)
  }

  /** `n` presses of DOWN advance the position by `n` round the items in use (`Cyc` is the
      remainder, by `CycIsMod`). */
  lemma {:induction false} DownSteps(m: Menu, n: nat)
    requires Valid(m) && 0 <= m.keypos < m.count
    ensures PressDown(m, n).keypos == Cyc(m.keypos + n, m.count)
    decreases n
  {
    var p, c := m.keypos, m.count;
    if n > 0 {
      var d, e := Down(m), n - 1;
      assert PressDown(m, n) == PressDown(d, e);
      DownSteps(d, e);
      var k := PressDown(d, e).keypos;
      assert k == Cyc(d.keypos + e, d.count);
      CycChain(k, d.keypos, p, n, c);
    } else {
      assert Cyc(p, c) == p;
    }
  }

  /** As many presses of DOWN as there are items come back to the same item. */
  lemma DownCycle(m: Menu)
    requires Valid(m) && 0 <= m.keypos < m.count
    ensures PressDown(m, m.count).keypos == m.keypos
  {
    DownSteps(m, m.count);
    CycOnce(m.keypos, m.count);
  }

  /** The first key press after `initMenu` writes outside the array in the handler as
      written; with every item deselected it is handled, and DOWN selects "Start game". */
  lemma FirstKeyAfterInit(m: Menu, a: App, key: int)
    requires |m.items| == Slots && |m.boxes| == Slots
    ensures KeyAsWritten(InitMenu(m, a), a, key).OutOfBounds?
    ensures Key(InitMenu(m, a), a, key).Handled?
    ensures var r := Key(InitMenu(m, a), a, ScanDown).menu;
            r.keypos == 0 && r.items[0].selected && !r.items[1].selected
  {
    InitControls(m, a);
  }
}
