/** The on-screen menu: a stack of saved cursors and a window of three rows over the items of the top menu. */
module Menu {
  import opened Options

  const ROWS: nat := 3
  const STACK_CAPACITY: nat := 8

  datatype Id = Root | Output | Mode | Profile | SocdAxes | SocdX | SocdY | Settings | UsbTiming | About | Version

  /** `Caption`: text that does nothing and never shows the cursor. What a profile or a SOCD mode is, is not the menu's
      business: it only knows their numbers. */
  datatype Action =
    | Lock
    | Unlock
    | RememberPlace(keep: bool)
    | UseProfile(index: nat)
    | UseMode(forX: bool, index: nat)
    | Other
    | Caption

  /** Entering an item opens a menu or performs an action. */
  datatype Item = Sub(menu: Id) | Leaf(action: Action)
  {
    predicate ShowsCaret() {
      this != Leaf(Caption)
    }
  }

  /** The items of a menu; two of them depend on settings, their number never does. */
  function Items(menu: Id, keep: bool, locked: bool): (items: seq<Item>)
    ensures |items| == Count(menu)
    ensures forall i :: 0 <= i < |items| ==> (items[i].ShowsCaret() <==> menu != Version)
    ensures forall i :: 0 <= i < |items| && items[i].Sub? ==> Depth(items[i].menu) == Depth(menu) + 1
  {
    match menu
    case Root => [Leaf(if locked then Unlock else Lock), Sub(Output), Sub(Settings), Sub(About)]
    case Output => [Sub(Mode), Sub(Profile), Sub(SocdAxes)]
    case Mode => [Leaf(Other), Leaf(Other), Leaf(Other)]
    case Profile => [Leaf(UseProfile(0)), Leaf(UseProfile(1)), Leaf(UseProfile(2))]
    case SocdAxes => [Sub(SocdX), Sub(SocdY)]
    case SocdX => [Leaf(UseMode(true, 0)), Leaf(UseMode(true, 1)), Leaf(UseMode(true, 2)), Leaf(UseMode(true, 3))]
    case SocdY => [Leaf(UseMode(false, 0)), Leaf(UseMode(false, 1)), Leaf(UseMode(false, 2)), Leaf(UseMode(false, 3))]
    case Settings => [Sub(UsbTiming), Leaf(RememberPlace(!keep)), Leaf(Other)]
    case UsbTiming => [Leaf(Other), Leaf(Other), Leaf(Other)]
    case About => [Sub(Version)]
    case Version => [Leaf(Caption), Leaf(Caption), Leaf(Caption)]
  }

  function Count(menu: Id): (n: nat)
    ensures 0 < n <= 8
  {
    match menu
    case Root => 4
    case SocdX => 4
    case SocdY => 4
    case SocdAxes => 2
    case About => 1
    case _ => 3
  }

  function Depth(menu: Id): (d: nat)
    ensures d < 4
  {
    match menu
    case Root => 0
    case Output => 1
    case Settings => 1
    case About => 1
    case SocdX => 3
    case SocdY => 3
    case _ => 2
  }

  /** A menu on the stack, with the cursor of its parent at the time it was entered. */
  datatype Location = Location(menu: Id, scroll: nat, selected: nat)

  /** `items` are those last fetched, so they may show a setting that has changed since. */
  datatype State = State(stack: seq<Location>, items: seq<Item>, scroll: nat, selected: nat, shown: bool,
                         keep: bool, locked: bool)

  datatype Direction = Up | Down | Left | Right

  datatype Op = Open | Close | Press(dir: Direction) | SetLock(locked: bool)

  // What the operations do; `None` is an access out of range or a PANIC

  function Fetch(s: State): State {
    if s.stack == [] then s.(items := [])
    else s.(items := Items(s.stack[|s.stack| - 1].menu, s.keep, s.locked))
  }

  function Push(s: State, item: Item): Option<State> {
    match item
    case Sub(menu) =>
      if |s.stack| == STACK_CAPACITY then None
      else
        var t := Fetch(s.(stack := s.stack + [Location(menu, s.scroll, s.selected)]));
        Some(t.(scroll := 0, selected := 0))
    case Leaf(Lock) => Some(Fetch(s.(locked := true)))
    case Leaf(Unlock) => Some(Fetch(s.(locked := false)))
    case Leaf(RememberPlace(keep)) => Some(Fetch(s.(keep := keep)))
    case Leaf(_) => Some(Fetch(s))
  }

  function Pop(s: State): State {
    if s.stack == [] then s
    else
      var top := s.stack[|s.stack| - 1];
      Fetch(s.(stack := s.stack[..|s.stack| - 1], scroll := top.scroll, selected := top.selected))
  }

  function PopAll(s: State): State
    decreases |s.stack|
  {
    if s.stack == [] then s else PopAll(Pop(s))
  }

  /** A row of the screen: an item, and whether the cursor is drawn before it. */
  datatype Row = Row(item: Item, marked: bool)

  /** `menu_draw` tests the number of the row, not the index of the item that it reads. */
  predicate CanDraw(s: State) {
    s.shown ==> CanDrawRow(s, 0) && CanDrawRow(s, 1) && CanDrawRow(s, 2)
  }

  predicate CanDrawRow(s: State, i: nat) {
    i < |s.items| ==> s.scroll + i < |s.items|
  }

  function DrawRow(s: State, i: nat): Option<Row>
    requires CanDrawRow(s, i)
  {
    if i >= |s.items| then None
    else
      var item, index := s.items[s.scroll + i], s.scroll + i;
      Some(Row(item, item.ShowsCaret() && index == s.selected))
  }

  function Rows(s: State): (rows: seq<Option<Row>>)
    requires s.shown && CanDraw(s)
    ensures |rows| == ROWS
  {
    [DrawRow(s, 0), DrawRow(s, 1), DrawRow(s, 2)]
  }

  function Draw(s: State): Option<State> {
    if CanDraw(s) then Some(s) else None
  }

  /** `menu_input` */
  function Move(s: State, dir: Direction): Option<State> {
    match dir
    case Up =>
      if s.selected == 0 then Some(s)
      else
        var selected := s.selected - 1;
        Draw(s.(selected := selected, scroll := if selected < s.scroll then selected else s.scroll))
    case Down =>
      if s.selected + 1 >= |s.items| then Some(s)
      else
        var selected := s.selected + 1;
        Draw(s.(selected := selected, scroll := if selected >= s.scroll + ROWS then s.scroll + 1 else s.scroll))
    case Left => if |s.stack| == 1 then Some(s) else Draw(Pop(s))
    case Right =>
      if s.selected >= |s.items| then None
      else
        match Push(s, s.items[s.selected])
        case None => None
        case Some(t) => Draw(t)
  }

  function Step(s: State, op: Op): Option<State> {
    match op
    case Open =>
      if s.keep then Draw(s.(shown := true))
      else
        (match Push(PopAll(s), Sub(Root))
         case None => None
         case Some(t) => Draw(t.(shown := true)))
    case Close => Draw((if s.keep then s else PopAll(s)).(shown := false))
    case Press(dir) => Move(s, dir)
    case SetLock(locked) => Some(s.(locked := locked))
  }

  /** The action that an operation performs besides what it does to the menu. */
  function Performed(s: State, op: Op): Option<Action> {
    if op == Press(Right) && s.selected < |s.items| && s.items[s.selected].Leaf? then Some(s.items[s.selected].action)
    else None
  }

  function Run(s: State, ops: seq<Op>): Option<State> {
    if ops == [] then Some(s)
    else
      match Run(s, ops[..|ops| - 1])
      case None => None
      case Some(t) => Step(t, ops[|ops| - 1])
  }

  /** The state that `menu_init` leaves. */
  function Initial(locked: bool): State {
    State([Location(Root, 0, 0)], Items(Root, true, locked), 0, 0, false, true, locked)
  }

  // The invariant of all runs

  /** The cursor is on an item, the window is around the cursor, and it does not reach past the last item. */
  predicate Window(scroll: nat, selected: nat, count: nat) {
    scroll <= selected < scroll + ROWS && selected < count && (scroll == 0 || scroll + ROWS <= count)
  }

  /** Each menu on the stack was entered from the one below it, where its saved cursor points into. */
  predicate Nested(stack: seq<Location>) {
    && (stack != [] ==> stack[0] == Location(Root, 0, 0))
    && (forall i :: 0 <= i < |stack| ==> Depth(stack[i].menu) == i)
    && (forall i :: 0 < i < |stack| ==> Window(stack[i].scroll, stack[i].selected, Count(stack[i - 1].menu)))
  }

  ghost predicate Inv(s: State) {
    && Nested(s.stack)
    && (s.shown || s.keep ==> s.stack != [])
    && (if s.stack == [] then s.items == [] && s.scroll == 0 && s.selected == 0
        else var menu := s.stack[|s.stack| - 1].menu;
             && (s.items == Items(menu, s.keep, true) || s.items == Items(menu, s.keep, false))
             && Window(s.scroll, s.selected, Count(menu)))
  }

  lemma PopKeepsInv(s: State)
    requires Nested(s.stack) && |s.stack| > 1
    ensures Inv(Pop(s))
  {
  }

  lemma PopToRoot(s: State)
    requires Nested(s.stack) && |s.stack| == 1
    ensures Pop(s) == s.(stack := [], items := [], scroll := 0, selected := 0)
  {
  }

  lemma {:induction false} PopAllEmpties(s: State)
    requires Inv(s)
    ensures PopAll(s) == s.(stack := [], items := [], scroll := 0, selected := 0)
    decreases |s.stack|
  {
    if |s.stack| > 1 {
      PopKeepsInv(s);
      PopAllEmpties(Pop(s));
    } else if |s.stack| == 1 {
      PopToRoot(s);
    }
  }

  lemma WindowCanDraw(s: State)
    requires Window(s.scroll, s.selected, |s.items|) || s.items == []
    ensures CanDraw(s)
  {
  }

  lemma ScrollKeepsInv(s: State, dir: Direction)
    requires Inv(s) && (dir == Up || dir == Down)
    ensures Move(s, dir).Some? && Inv(Move(s, dir).value)
  {
    hide Items, Nested;
  }

  lemma LeaveKeepsInv(s: State)
    requires Inv(s)
    ensures Move(s, Left).Some? && Inv(Move(s, Left).value)
  {
    if |s.stack| > 1 {
      PopKeepsInv(s);
      hide Items, Nested;
    }
  }

  lemma EnterKeepsInv(s: State)
    requires Inv(s) && s.stack != [] && s.items[s.selected].Sub?
    ensures var t := Push(s, s.items[s.selected]);
      t.Some? && Inv(t.value) && t.value.stack == s.stack + [Location(s.items[s.selected].menu, s.scroll, s.selected)]
  {
    var menu := s.items[s.selected].menu;
    assert Depth(menu) == |s.stack|;
    hide Items;
  }

  lemma FetchKeepsInv(s: State, keep: bool, locked: bool)
    requires Inv(s) && s.stack != []
    ensures Inv(Fetch(s.(keep := keep, locked := locked)))
  {
    hide Items, Nested;
  }

  lemma ActKeepsInv(s: State)
    requires Inv(s) && s.stack != [] && s.items[s.selected].Leaf?
    ensures var t := Push(s, s.items[s.selected]);
      t.Some? && Inv(t.value) && t.value.stack == s.stack
  {
    var action := s.items[s.selected].action;
    hide Inv, Items;
    match action
    case Lock => FetchKeepsInv(s, s.keep, true);
    case Unlock => FetchKeepsInv(s, s.keep, false);
    case RememberPlace(keep) => FetchKeepsInv(s, keep, s.locked);
    case _ => FetchKeepsInv(s, s.keep, s.locked);
  }

  lemma PressKeepsInv(s: State, dir: Direction)
    requires Inv(s)
    ensures Move(s, dir).None? <==> dir == Right && s.stack == []
    ensures Move(s, dir).Some? ==> Inv(Move(s, dir).value)
  {
    match dir
    case Up => ScrollKeepsInv(s, dir);
    case Down => ScrollKeepsInv(s, dir);
    case Left => LeaveKeepsInv(s);
    case Right =>
      if s.stack != [] {
        if s.items[s.selected].Sub? {
          EnterKeepsInv(s);
        } else {
          ActKeepsInv(s);
        }
        hide Items, Nested;
      }
  }

  lemma OpenKeepsInv(s: State)
    requires Inv(s)
    ensures Step(s, Open).Some? && Inv(Step(s, Open).value)
  {
    PopAllEmpties(s);
    assert [] + [Location(Root, 0, 0)] == [Location(Root, 0, 0)];
  }

  lemma CloseKeepsInv(s: State)
    requires Inv(s)
    ensures Step(s, Close).Some? && Inv(Step(s, Close).value)
  {
    PopAllEmpties(s);
  }

  /** The only operation that can go wrong is to enter an item when there is no menu. */
  lemma StepKeepsInv(s: State, op: Op)
    requires Inv(s)
    ensures Step(s, op).None? <==> op == Press(Right) && s.stack == []
    ensures Step(s, op).Some? ==> Inv(Step(s, op).value)
  {
    match op
    case Open => OpenKeepsInv(s);
    case Close => CloseKeepsInv(s);
    case Press(dir) => PressKeepsInv(s, dir);
    case SetLock(_) =>
    hide Move, Nested, Items;
  }

  /** Directions arrive only while the menu is shown. */
  ghost predicate Disciplined(s: State, ops: seq<Op>) {
    ops == []
    || (&& Disciplined(s, ops[..|ops| - 1])
        && (ops[|ops| - 1].Press? ==> var t := Run(s, ops[..|ops| - 1]); t.Some? && t.value.shown))
  }

  /** No disciplined run ever reads past an item list, overflows the stack, or loses its place. */
  lemma {:induction false} RunsAreSafe(locked: bool, ops: seq<Op>)
    requires Disciplined(Initial(locked), ops)
    ensures Run(Initial(locked), ops).Some? && Inv(Run(Initial(locked), ops).value)
  {
    if ops != [] {
      RunsAreSafe(locked, ops[..|ops| - 1]);
      StepKeepsInv(Run(Initial(locked), ops[..|ops| - 1]).value, ops[|ops| - 1]);
    }
  }

  /** The rows of a shown menu show the items from the top of the window on, as far as there are any. */
  lemma RowsShowTheWindow(s: State, i: nat)
    requires Inv(s) && s.shown && i < ROWS
    ensures CanDraw(s)
    ensures if s.scroll + i < |s.items| then Rows(s)[i].Some? && Rows(s)[i].value.item == s.items[s.scroll + i]
            else Rows(s)[i] == None
  {
    WindowCanDraw(s);
    assert Rows(s)[0] == DrawRow(s, 0) && Rows(s)[1] == DrawRow(s, 1) && Rows(s)[2] == DrawRow(s, 2);
  }

  /** The selected item of a shown menu is always on the screen. No other row is ever marked, and its row is marked in
      every menu but the one that shows the version. */
  lemma CursorIsVisible(s: State)
    requires Inv(s) && s.shown
    ensures CanDraw(s)
    ensures var row := s.selected - s.scroll;
      && 0 <= row < ROWS
      && Rows(s)[row].Some? && Rows(s)[row].value.item == s.items[s.selected]
      && forall i :: 0 <= i < ROWS && Rows(s)[i].Some? ==>
        (Rows(s)[i].value.marked <==> i == row && s.stack[|s.stack| - 1].menu != Version)
  {
    WindowCanDraw(s);
    assert Rows(s)[0] == DrawRow(s, 0) && Rows(s)[1] == DrawRow(s, 1) && Rows(s)[2] == DrawRow(s, 2);
  }

  lemma RunOne(s: State, op: Op)
    ensures Run(s, [op]) == Step(s, op)
  {
    assert [op][..0] == [];
  }

  lemma {:induction false} RunConcat(s: State, a: seq<Op>, b: seq<Op>)
    requires Run(s, a).Some?
    ensures Run(s, a + b) == Run(Run(s, a).value, b)
  {
    if b == [] {
      assert a + b == a;
    } else {
      assert (a + b)[..|a + b| - 1] == a + b[..|b| - 1];
      RunConcat(s, a, b[..|b| - 1]);
    }
  }

  // Entering and leaving

  /** All states of the run have more than `depth` menus on the stack. */
  ghost predicate StaysAbove(s: State, ops: seq<Op>, depth: nat) {
    Run(s, ops).Some? && |Run(s, ops).value.stack| > depth
    && (ops != [] ==> StaysAbove(s, ops[..|ops| - 1], depth))
  }

  lemma MoveKeepsBelow(s: State, dir: Direction, depth: nat)
    requires Inv(s) && |s.stack| > depth && Move(s, dir).Some? && |Move(s, dir).value.stack| > depth
    ensures Move(s, dir).value.stack[..depth + 1] == s.stack[..depth + 1]
  {
    match dir
    case Right =>
      if s.items[s.selected].Sub? {
        EnterKeepsInv(s);
      } else {
        ActKeepsInv(s);
      }
    case Left =>
      assert Pop(s).stack == s.stack[..|s.stack| - 1];
    case _ =>
    hide Inv, Items, Fetch;
  }

  lemma StepKeepsBelow(s: State, op: Op, depth: nat)
    requires Inv(s) && |s.stack| > depth && Step(s, op).Some? && |Step(s, op).value.stack| > depth
    requires op.Press? || op.SetLock?
    ensures Step(s, op).value.stack[..depth + 1] == s.stack[..depth + 1]
  {
    if op.Press? {
      MoveKeepsBelow(s, op.dir, depth);
    }
    hide Inv, Move;
  }

  lemma {:induction false} BelowIsKept(s: State, ops: seq<Op>, depth: nat)
    requires Inv(s) && |s.stack| > depth && StaysAbove(s, ops, depth)
    requires forall op :: op in ops ==> op.Press? || op.SetLock?
    ensures Inv(Run(s, ops).value) && Run(s, ops).value.stack[..depth + 1] == s.stack[..depth + 1]
  {
    if ops != [] {
      var n := |ops| - 1;
      BelowIsKept(s, ops[..n], depth);
      var t := Run(s, ops[..n]).value;
      assert ops[n] in ops;
      StepKeepsInv(t, ops[n]);
      StepKeepsBelow(t, ops[n], depth);
    }
  }

  /** Enter a menu, do anything inside it and its submenus, and leave it: the parent's cursor is where it was. */
  lemma LeavingRestoresTheCursor(s: State, ops: seq<Op>)
    requires Inv(s) && s.stack != [] && s.items[s.selected].Sub?
    requires Step(s, Press(Right)).Some?
    requires var t := Step(s, Press(Right)).value;
      && StaysAbove(t, ops, |s.stack|) && (forall op :: op in ops ==> op.Press? || op.SetLock?)
      && |Run(t, ops).value.stack| == |s.stack| + 1
    ensures var t := Step(s, Press(Right)).value;
      && Step(Run(t, ops).value, Press(Left)).Some?
      && var u := Step(Run(t, ops).value, Press(Left)).value;
         u.stack == s.stack && u.scroll == s.scroll && u.selected == s.selected
  {
    Entered(s);
    hide *;
    Return(Step(s, Press(Right)).value, ops, s.stack, Location(s.items[s.selected].menu, s.scroll, s.selected));
  }

  lemma Return(t: State, ops: seq<Op>, stack: seq<Location>, here: Location)
    requires Inv(t) && stack != [] && t.stack == stack + [here]
    requires StaysAbove(t, ops, |stack|) && (forall op :: op in ops ==> op.Press? || op.SetLock?)
    requires Run(t, ops).Some? && |Run(t, ops).value.stack| == |stack| + 1
    ensures var v := Step(Run(t, ops).value, Press(Left));
      v.Some? && v.value.stack == stack && v.value.scroll == here.scroll && v.value.selected == here.selected
  {
    hide *;
    BelowIsKept(t, ops, |stack|);
    var u := Run(t, ops).value;
    assert u.stack == u.stack[..|stack| + 1] == t.stack[..|stack| + 1] == t.stack;
    LeaveTo(u, stack, here);
  }

  lemma Entered(s: State)
    requires Inv(s) && s.stack != [] && s.items[s.selected].Sub? && Step(s, Press(Right)).Some?
    ensures var t := Step(s, Press(Right)).value;
      Inv(t) && t.stack == s.stack + [Location(s.items[s.selected].menu, s.scroll, s.selected)]
  {
    EnterKeepsInv(s);
  }

  lemma LeaveTo(u: State, stack: seq<Location>, here: Location)
    requires Inv(u) && stack != [] && u.stack == stack + [here]
    ensures var v := Step(u, Press(Left));
      v.Some? && v.value.stack == stack && v.value.scroll == here.scroll && v.value.selected == here.selected
  {
    LeaveKeepsInv(u);
    assert u.stack[..|u.stack| - 1] == stack;
  }

  // The menu itself

  class Screen {
    const stack: array<Location>
    var size: nat
    var items: seq<Item>
    var scroll: nat
    var selected: nat
    var shown: bool
    var keep: bool
    var locked: bool
    // What the three menu rows of the display show; `None` is the logo.
    var rows: Option<seq<Option<Row>>>

    ghost predicate Valid()
      reads this
    {
      stack.Length == STACK_CAPACITY && size <= STACK_CAPACITY
    }

    ghost function GetState(): State
      requires Valid()
      reads this, stack
    {
      State(stack[..size], items, scroll, selected, shown, keep, locked)
    }

    /** `menu_init` */
    constructor (locked: bool)
      ensures Valid() && fresh(stack) && GetState() == Initial(locked)
    {
      stack := new Location[STACK_CAPACITY](_ => Location(Root, 0, 0));
      size, scroll, selected, shown, keep, this.locked := 1, 0, 0, false, true, locked;
      items := Items(Root, true, locked);
      rows := None;
    }

    method FetchItems()
      requires Valid()
      modifies this`items
      ensures GetState() == Fetch(old(GetState()))
    {
      if size == 0 {
        items := [];
      } else {
        items := Items(stack[size - 1].menu, keep, locked);
      }
    }

    method PushItem(item: Item)
      requires Valid() && Push(GetState(), item).Some?
      modifies this`size, this`items, this`scroll, this`selected, this`keep, this`locked, stack
      ensures Valid() && Some(GetState()) == Push(old(GetState()), item)
    {
      match item
      case Sub(menu) =>
        stack[size] := Location(menu, scroll, selected);
        size := size + 1;
        assert stack[..size] == old(stack[..size]) + [stack[size - 1]];
        FetchItems();
        scroll, selected := 0, 0;
      case Leaf(action) =>
        match action {
          case Lock => locked := true;
          case Unlock => locked := false;
          case RememberPlace(k) => keep := k;
          case _ =>
        }
        FetchItems();
    }

    method PopTop()
      requires Valid()
      modifies this`size, this`items, this`scroll, this`selected
      ensures Valid() && GetState() == Pop(old(GetState()))
      ensures old(size) > 0 ==> size == old(size) - 1
    {
      if size == 0 {
        return;
      }
      var top := stack[size - 1];
      scroll, selected := top.scroll, top.selected;
      size := size - 1;
      assert stack[..size] == old(stack[..size])[..size];
      FetchItems();
    }

    method PopEverything()
      requires Valid()
      modifies this`size, this`items, this`scroll, this`selected
      ensures Valid() && GetState() == PopAll(old(GetState()))
    {
      while size != 0
        invariant Valid() && PopAll(GetState()) == PopAll(old(GetState()))
        decreases size
      {
        PopTop();
      }
    }

    /** `menu_draw` reads `items[scroll + i]` after testing `i`. */
    method DrawMenu()
      requires Valid() && CanDraw(GetState())
      modifies this`rows
      ensures rows == if shown then Some(Rows(GetState())) else None
    {
      if !shown {
        rows := None;
        return;
      }
      var drawn: seq<Option<Row>> := [];
      for i := 0 to ROWS
        invariant |drawn| == i && forall j :: 0 <= j < i ==> drawn[j] == DrawRow(GetState(), j)
      {
        assert CanDrawRow(GetState(), i);
        if i < |items| {
          var index := scroll + i;
          drawn := drawn + [Some(Row(items[index], items[index].ShowsCaret() && index == selected))];
        } else {
          drawn := drawn + [None];
        }
      }
      assert drawn == Rows(GetState());
      rows := Some(drawn);
    }

    method OpenMenu()
      requires Valid() && Step(GetState(), Open).Some?
      modifies this, stack
      ensures Valid() && Some(GetState()) == Step(old(GetState()), Open)
      ensures rows == Some(Rows(GetState()))
    {
      if !keep {
        PopEverything();
        PushItem(Sub(Root));
      }
      shown := true;
      DrawMenu();
    }

    method CloseMenu()
      requires Valid()
      modifies this, stack
      ensures Valid() && Some(GetState()) == Step(old(GetState()), Close) && rows == None
    {
      if !keep {
        PopEverything();
      }
      shown := false;
      DrawMenu();
    }

    ghost predicate Drawn()
      requires Valid()
      reads this, stack
    {
      CanDraw(GetState()) && rows == if shown then Some(Rows(GetState())) else None
    }

    /** `menu_input` */
    method Input(dir: Direction) returns (done: Option<Action>)
      requires Valid() && Move(GetState(), dir).Some?
      modifies this, stack
      ensures Valid() && Some(GetState()) == Move(old(GetState()), dir)
      ensures GetState() != old(GetState()) ==> Drawn()
      ensures done == Performed(old(GetState()), Press(dir))
    {
      done := None;
      match dir
      case Up =>
        if selected != 0 {
          selected := selected - 1;
          if selected < scroll {
            scroll := selected;
          }
          DrawMenu();
        }
      case Down =>
        if selected + 1 < |items| {
          selected := selected + 1;
          if selected >= scroll + ROWS {
            scroll := scroll + 1;
          }
          DrawMenu();
        }
      case Left =>
        if size != 1 {
          PopTop();
          DrawMenu();
        }
      case Right =>
        var item := items[selected];
        if item.Leaf? {
          done := Some(item.action);
        }
        PushItem(item);
        DrawMenu();
    }
  }
}
