/** Where the directions lead: every item of every menu can be reached and entered. */
module MenuNavigation {
  import opened Options
  import opened Menu
  import Pipeline
  import Socd

  function Repeat(dir: Direction, k: nat): (ops: seq<Op>)
    ensures forall op :: op in ops ==> op == Press(dir)
  {
    if k == 0 then [] else Repeat(dir, k - 1) + [Press(dir)]
  }

  /** Between `s` and `t` only the cursor has moved. */
  predicate SameMenu(s: State, t: State) {
    && t.stack == s.stack && t.items == s.items
    && t.shown == s.shown && t.keep == s.keep && t.locked == s.locked
  }

  ghost predicate InSomeMenu(s: State) {
    Inv(s) && s.stack != []
  }

  function Top(s: State): Id
    requires s.stack != []
  {
    s.stack[|s.stack| - 1].menu
  }

  lemma RunSnoc(s: State, ops: seq<Op>, op: Op)
    requires Run(s, ops).Some?
    ensures Run(s, ops + [op]) == Step(Run(s, ops).value, op)
  {
    assert (ops + [op])[..|ops|] == ops;
  }

  // Up and down

  lemma OneUpOrDown(s: State, dir: Direction)
    requires InSomeMenu(s) && (dir == Up || dir == Down)
    ensures var t := Step(s, Press(dir));
      && t.Some? && InSomeMenu(t.value) && SameMenu(s, t.value)
      && t.value.selected == if dir == Down then (if s.selected + 1 < |s.items| then s.selected + 1 else s.selected)
                             else (if s.selected > 0 then s.selected - 1 else 0)
  {
    ScrollKeepsInv(s, dir);
    hide Items, Nested;
  }

  /** `k` times down moves the cursor by as many items, but not past the last. */
  lemma {:induction false} DownMoves(s: State, k: nat)
    requires InSomeMenu(s)
    ensures var t := Run(s, Repeat(Down, k));
      && t.Some? && InSomeMenu(t.value) && SameMenu(s, t.value)
      && t.value.selected == if s.selected + k < |s.items| then s.selected + k else |s.items| - 1
  {
    hide Step, Items, Inv;
    SelectedIsItem(s);
    if k > 0 {
      DownMoves(s, k - 1);
      var t := Run(s, Repeat(Down, k - 1)).value;
      RunSnoc(s, Repeat(Down, k - 1), Press(Down));
      OneUpOrDown(t, Down);
    }
  }

  /** `k` times up moves it back, but not past the first. */
  lemma {:induction false} UpMoves(s: State, k: nat)
    requires InSomeMenu(s)
    ensures var t := Run(s, Repeat(Up, k));
      && t.Some? && InSomeMenu(t.value) && SameMenu(s, t.value)
      && t.value.selected == if k < s.selected then s.selected - k else 0
  {
    hide Step, Items, Inv;
    if k > 0 {
      UpMoves(s, k - 1);
      var t := Run(s, Repeat(Up, k - 1)).value;
      RunSnoc(s, Repeat(Up, k - 1), Press(Up));
      OneUpOrDown(t, Up);
    }
  }

  lemma SelectedIsItem(s: State)
    requires InSomeMenu(s)
    ensures s.selected < |s.items| == Count(Top(s)) <= 4
  {
  }

  // Right and left

  /** Right on a submenu opens exactly that one, with the cursor on its first item. */
  lemma RightOpens(s: State)
    requires InSomeMenu(s) && s.items[s.selected].Sub?
    ensures var t := Step(s, Press(Right)); var menu := s.items[s.selected].menu;
      && t.Some? && InSomeMenu(t.value)
      && t.value == State(s.stack + [Location(menu, s.scroll, s.selected)], Items(menu, s.keep, s.locked), 0, 0,
                          s.shown, s.keep, s.locked)
  {
    PressKeepsInv(s, Right);
    EnterKeepsInv(s);
    assert Fetch(s.(stack := s.stack + [Location(s.items[s.selected].menu, s.scroll, s.selected)])).items
        == Items(s.items[s.selected].menu, s.keep, s.locked);
    hide Items, Nested, Inv;
  }

  /** Right on any other item performs exactly its action, and leaves the cursor where it is. */
  lemma RightActs(s: State)
    requires InSomeMenu(s) && s.items[s.selected].Leaf?
    ensures var t := Step(s, Press(Right)); var action := s.items[s.selected].action;
      && t.Some? && InSomeMenu(t.value) && Performed(s, Press(Right)) == Some(action)
      && t.value.stack == s.stack && t.value.scroll == s.scroll && t.value.selected == s.selected
      && t.value.shown == s.shown
      && t.value.locked == (if action == Lock then true else if action == Unlock then false else s.locked)
      && t.value.keep == (if action.RememberPlace? then action.keep else s.keep)
      && t.value.items == Items(Top(s), t.value.keep, t.value.locked)
  {
    hide Items, Inv, CanDraw;
    SelectedIsItem(s);
    PressKeepsInv(s, Right);
  }

  /** Left in a submenu goes back to its parent, and does nothing in the root. */
  lemma LeftLeaves(s: State)
    requires InSomeMenu(s)
    ensures var t := Step(s, Press(Left));
      && t.Some? && InSomeMenu(t.value)
      && t.value.stack == (if |s.stack| == 1 then s.stack else s.stack[..|s.stack| - 1])
      && t.value.shown == s.shown && t.value.keep == s.keep && t.value.locked == s.locked
  {
    PressKeepsInv(s, Left);
    hide Items, Nested;
  }

  lemma {:induction false} LeftsLeave(s: State, k: nat)
    requires InSomeMenu(s)
    ensures var t := Run(s, Repeat(Left, k));
      && t.Some? && InSomeMenu(t.value)
      && |t.value.stack| == (if k < |s.stack| then |s.stack| - k else 1)
      && t.value.shown == s.shown && t.value.keep == s.keep && t.value.locked == s.locked
  {
    hide Step, Items, Nested, Inv;
    if k > 0 {
      LeftsLeave(s, k - 1);
      RunSnoc(s, Repeat(Left, k - 1), Press(Left));
      LeftLeaves(Run(s, Repeat(Left, k - 1)).value);
    }
  }

  // From anywhere to anywhere

  /** The items to enter, one after the other, to get from the root to a menu. */
  function PathTo(menu: Id): seq<nat> {
    match menu
    case Root => []
    case Output => [1]
    case Settings => [2]
    case About => [3]
    case Mode => [1, 0]
    case Profile => [1, 1]
    case SocdAxes => [1, 2]
    case SocdX => [1, 2, 0]
    case SocdY => [1, 2, 1]
    case UsbTiming => [2, 0]
    case Version => [3, 0]
  }

  function Walk(path: seq<nat>): (ops: seq<Op>)
    ensures forall op :: op in ops ==> op.Press?
  {
    if path == [] then []
    else Walk(path[..|path| - 1]) + (Repeat(Down, path[|path| - 1]) + [Press(Right)])
  }

  /** `t` shows the first item of a menu that was entered along `path`. */
  ghost predicate Arrived(s: State, t: State, menu: Id, depth: nat) {
    && InSomeMenu(t) && Top(t) == menu && |t.stack| == depth && t.selected == 0
    && t.shown == s.shown && t.keep == s.keep && t.locked == s.locked
  }

  lemma EnterItem(s: State, t: State, menu: Id, depth: nat, i: nat, sub: Id)
    requires Arrived(s, t, menu, depth) && i < |t.items| && t.items[i] == Sub(sub)
    ensures var u := Run(t, Repeat(Down, i) + [Press(Right)]); u.Some? && Arrived(s, u.value, sub, depth + 1)
  {
    hide Step, Items, Nested, Inv;
    DownMoves(t, i);
    RunSnoc(t, Repeat(Down, i), Press(Right));
    RightOpens(Run(t, Repeat(Down, i)).value);
  }

  lemma WalkOn(s: State, path: seq<nat>, i: nat, t: State, menu: Id, sub: Id)
    requires Run(s, Walk(path)) == Some(t) && Arrived(s, t, menu, |path| + 1)
    requires i < |t.items| && t.items[i] == Sub(sub)
    ensures var u := Run(s, Walk(path + [i])); u.Some? && Arrived(s, u.value, sub, |path| + 2)
  {
    hide Arrived, Step;
    assert (path + [i])[..|path|] == path;
    EnterItem(s, t, menu, |path| + 1, i, sub);
    RunConcat(s, Walk(path), Repeat(Down, i) + [Press(Right)]);
  }

  /** The submenus, by place, whatever the settings. */
  lemma Submenus(s: State)
    requires InSomeMenu(s)
    ensures Top(s) == Root ==> s.items[1..] == [Sub(Output), Sub(Settings), Sub(About)]
    ensures Top(s) == Output ==> s.items == [Sub(Mode), Sub(Profile), Sub(SocdAxes)]
    ensures Top(s) == SocdAxes ==> s.items == [Sub(SocdX), Sub(SocdY)]
    ensures Top(s) == Settings ==> s.items[0] == Sub(UsbTiming)
    ensures Top(s) == About ==> s.items == [Sub(Version)]
  {
  }

  lemma WalkArrives(s: State, menu: Id)
    requires Arrived(s, s, Root, 1)
    ensures var t := Run(s, Walk(PathTo(menu))); t.Some? && Arrived(s, t.value, menu, |PathTo(menu)| + 1)
    decreases |PathTo(menu)|
  {
    hide Arrived, Run, Walk, Items, Inv;
    var path := PathTo(menu);
    if menu == Root {
      EmptyWalk(s);
    } else {
      var parent := match menu
        case Mode => Output case Profile => Output case SocdAxes => Output
        case SocdX => SocdAxes case SocdY => SocdAxes
        case UsbTiming => Settings case Version => About
        case _ => Root;
      var n := |path| - 1;
      assert PathTo(parent) == path[..n] && path == path[..n] + [path[n]];
      WalkArrives(s, parent);
      var t := Run(s, Walk(path[..n])).value;
      ArrivedInMenu(s, t, parent, n + 1);
      Submenus(t);
      WalkOn(s, path[..n], path[n], t, parent, menu);
    }
  }

  lemma EmptyWalk(s: State)
    ensures Run(s, Walk([])) == Some(s)
  {
  }

  lemma ArrivedInMenu(s: State, t: State, menu: Id, depth: nat)
    requires Arrived(s, t, menu, depth)
    ensures InSomeMenu(t) && Top(t) == menu && |t.items| == Count(menu)
  {
  }

  /** The presses that select item `i` of a menu, wherever the cursor is. */
  function WayTo(menu: Id, i: nat): (ops: seq<Op>)
    ensures forall op :: op in ops ==> op.Press?
  {
    Repeat(Left, 3) + (Repeat(Up, 3) + (Walk(PathTo(menu)) + Repeat(Down, i)))
  }

  lemma GoHome(s: State)
    requires InSomeMenu(s)
    ensures var t := Run(s, Repeat(Left, 3) + Repeat(Up, 3));
      && t.Some? && Arrived(t.value, t.value, Root, 1)
      && t.value.shown == s.shown && t.value.keep == s.keep && t.value.locked == s.locked
  {
    StackIsShallow(s);
    LeftsLeave(s, 3);
    var t := Run(s, Repeat(Left, 3)).value;
    RootAlone(t);
    SelectedIsItem(t);
    UpMoves(t, 3);
    hide Repeat, Run, Inv, Items;
    RunConcat(s, Repeat(Left, 3), Repeat(Up, 3));
  }

  lemma StackIsShallow(s: State)
    requires InSomeMenu(s)
    ensures |s.stack| <= 4
  {
    assert Depth(Top(s)) == |s.stack| - 1;
  }

  lemma RootAlone(s: State)
    requires InSomeMenu(s) && |s.stack| == 1
    ensures Top(s) == Root
  {
  }

  /**
   * From any place in the menu, the same presses select item `i` of a menu, with no change to settings on the way.
   * What entering it does, `RightOpens` and `RightActs` tell.
   */
  lemma EveryItemIsReachable(s: State, menu: Id, i: nat)
    requires InSomeMenu(s) && i < Count(menu)
    ensures var t := Run(s, WayTo(menu, i));
      && t.Some? && InSomeMenu(t.value) && Top(t.value) == menu && t.value.selected == i
      && t.value.shown == s.shown && t.value.keep == s.keep && t.value.locked == s.locked
  {
    hide Repeat, Walk, Run, Inv, Items, Arrived, PathTo;
    var home, path := Repeat(Left, 3) + Repeat(Up, 3), Walk(PathTo(menu));
    GoHome(s);
    var root := Run(s, home).value;
    WalkArrives(root, menu);
    var t := Run(root, path).value;
    ArrivedInMenu(root, t, menu, |PathTo(menu)| + 1);
    ArrivedSame(root, t, menu, |PathTo(menu)| + 1);
    DownMoves(t, i);
    RunConcat(root, path, Repeat(Down, i));
    RunConcat(s, home, path + Repeat(Down, i));
    assert home + (path + Repeat(Down, i)) == WayTo(menu, i);
  }

  lemma ArrivedSame(s: State, t: State, menu: Id, depth: nat)
    requires Arrived(s, t, menu, depth)
    ensures t.selected == 0 && t.shown == s.shown && t.keep == s.keep && t.locked == s.locked
  {
  }

  // What the items do

  /** The first item of the root shows what it will do, if it was fetched since, and changes the lock over. */
  lemma FirstItemChangesTheLock(s: State)
    requires InSomeMenu(s) && Top(s) == Root && s.selected == 0 && s.items == Items(Root, s.keep, s.locked)
    ensures s.items[0] == Leaf(if s.locked then Unlock else Lock)
    ensures var t := Step(s, Press(Right)); t.Some? && t.value.locked == !s.locked && t.value.keep == s.keep
  {
    assert s.items[0] == Leaf(if s.locked then Unlock else Lock);
    RightActs(s);
    hide Items, Inv;
  }

  /** The second item of the settings changes over whether the menu remembers its place. */
  lemma SettingsChangeTheMemory(s: State)
    requires InSomeMenu(s) && Top(s) == Settings && s.selected == 1
    ensures var t := Step(s, Press(Right)); t.Some? && t.value.keep == !s.keep && t.value.locked == s.locked
  {
    assert s.items[1] == Leaf(RememberPlace(!s.keep));
    RightActs(s);
    hide Items, Inv;
  }

  /** What entering the selected item leaves of the settings of the axes. */
  lemma EnteringSets(s: State, t: Pipeline.Settings)
    requires InSomeMenu(s)
    ensures var u := Pipeline.SettingsAfter(s, t, [Press(Right)]);
      match Top(s)
      case Profile =>
        u == t.(profile := [Pipeline.Default, Pipeline.Dashblock, Pipeline.TigerKnee][s.selected])
      case SocdX =>
        u == t.(xMode := [Socd.NeutralWins, Socd.LastWins, Socd.NegativeWins, Socd.PositiveWins][s.selected])
      case SocdY =>
        u == t.(yMode := [Socd.NeutralWins, Socd.LastWins, Socd.NegativeWins, Socd.PositiveWins][s.selected])
      case _ => u == t
  {
    SelectedIsItem(s);
    Pipeline.SettingsOfOne(s, t, Press(Right));
    hide Pipeline.SettingsAfter, Nested;
  }

  /** No other direction changes them. */
  lemma OnlyRightSets(s: State, t: Pipeline.Settings, op: Op)
    requires op != Press(Right)
    ensures Pipeline.SettingsAfter(s, t, [op]) == t
  {
    Pipeline.SettingsOfOne(s, t, op);
  }

  // Closing and opening

  lemma Closed(s: State)
    requires InSomeMenu(s)
    ensures Step(s, Close) == Some(if s.keep then s.(shown := false)
                                   else State([], [], 0, 0, false, s.keep, s.locked))
  {
    hide Inv, Items;
    PopAllEmpties(s);
  }

  lemma Opened(s: State)
    requires Inv(s)
    ensures Step(s, Open)
            == Some(if s.keep then s.(shown := true)
                    else State([Location(Root, 0, 0)], Items(Root, s.keep, s.locked), 0, 0, true, s.keep, s.locked))
  {
    hide Inv, Items, CanDraw;
    OpenKeepsInv(s);
    PopAllEmpties(s);
    assert [] + [Location(Root, 0, 0)] == [Location(Root, 0, 0)];
  }

  /** A menu that remembers its place is exactly as it was when it is opened again; the others start with the first
      item of the root. */
  lemma Reopened(s: State)
    requires InSomeMenu(s) && s.shown
    ensures var t := Run(s, [Close] + [Open]);
      && t.Some? && InSomeMenu(t.value)
      && if s.keep then t.value == s
         else t.value == State([Location(Root, 0, 0)], Items(Root, s.keep, s.locked), 0, 0, true, s.keep, s.locked)
  {
    hide Inv, Items, Step, Run;
    CloseKeepsInv(s);
    var closed := Step(s, Close).value;
    OpenKeepsInv(closed);
    Closed(s);
    Opened(closed);
    RunOne(s, Close);
    RunOne(closed, Open);
    RunConcat(s, [Close], [Open]);
  }
}
