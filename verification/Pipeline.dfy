/**
 * From raw samples to the menu: every poll debounces all buttons, resolves both axes, and lets the menu button
 * decide whether the axes steer the menu or the game.
 */
module Pipeline {
  import opened Arithmetic
  import opened Options
  import opened Buttons
  import Debounce
  import Menu
  import Socd

  /** Which of the optional buttons a board has, the debounce period, and how long the menu button must be held
      while the controller is locked. */
  datatype Board = Board(hasW: bool, hasThumbLeft: bool, hasThumbRight: bool, hasMenu: bool,
                         hasLockSwitch: bool, period: Debounce.Period, hold: nat)

  datatype Profile = Default | Dashblock | TigerKnee

  type History = h: seq<Debounce.Button> | |h| == COUNT witness seq(COUNT, _ => Debounce.RELEASED)

  // Which buttons push which axis

  function Pushes(h: History, button: nat, kind: Socd.Kind, overrides: bool): Socd.Input
    requires button < COUNT
  {
    Socd.Input(h[button].state, h[button].tick, kind, overrides)
  }

  function Thumbs(board: Board, h: History, left: Socd.Kind, right: Socd.Kind): seq<Socd.Input> {
    (if board.hasThumbLeft then [Pushes(h, THUMB_LEFT, left, true)] else [])
    + (if board.hasThumbRight then [Pushes(h, THUMB_RIGHT, right, true)] else [])
  }

  function InputsX(board: Board, profile: Profile, h: History): seq<Socd.Input> {
    [Pushes(h, STICK_LEFT, Socd.Negative, false), Pushes(h, STICK_RIGHT, Socd.Positive, false)]
    + if profile == Default then [] else Thumbs(board, h, Socd.Negative, Socd.Positive)
  }

  function InputsY(board: Board, profile: Profile, h: History): seq<Socd.Input> {
    [Pushes(h, STICK_UP, Socd.Negative, false), Pushes(h, STICK_DOWN, Socd.Positive, false)]
    + (if board.hasW then [Pushes(h, BUTTON_W, Socd.Negative, false)] else [])
    + match profile
      case Default => []
      case Dashblock => Thumbs(board, h, Socd.Centre, Socd.Centre)
      case TigerKnee => Thumbs(board, h, Socd.Negative, Socd.Negative)
  }

  /** The buttons that can push an axis. */
  const DIRECTIONS: set<nat> := {STICK_UP, STICK_DOWN, STICK_RIGHT, STICK_LEFT, BUTTON_W, THUMB_LEFT, THUMB_RIGHT}

  lemma InputIsAButton(board: Board, profile: Profile, h: History, x: Socd.Input) returns (b: nat)
    requires x in InputsX(board, profile, h) || x in InputsY(board, profile, h)
    ensures b in DIRECTIONS && b < COUNT && x.active == h[b].state && x.tick == h[b].tick
  {
    b :| b in DIRECTIONS && x.active == h[b].state && x.tick == h[b].tick;
  }

  // The menu gate

  datatype Gate = Gate(isOpen: bool, ops: seq<Menu.Op>, handled: bool)

  /** A direction steers the menu only in the poll in which it was pressed; x goes before y. */
  function Steering(x: Socd.Axis, y: Socd.Axis, now: nat): seq<Menu.Op> {
    if x.value != 0 && x.tick == now then [Menu.Press(if x.value == -1 then Menu.Left else Menu.Right)]
    else if y.value != 0 && y.tick == now then [Menu.Press(if y.value == -1 then Menu.Up else Menu.Down)]
    else []
  }

  /** `input_profile_parse_menu`. The lock tick that it compares with is always 1. */
  function ParseMenu(isOpen: bool, menu: Debounce.Button, x: Socd.Axis, y: Socd.Axis, now: nat, locked: bool,
                     hold: nat): Gate {
    if !menu.state then Gate(false, if isOpen then [Menu.Close] else [], false)
    else if locked && now < menu.tick + hold then Gate(isOpen, [], false)
    else
      var opens := !isOpen && (locked ==> 1 < menu.tick);
      Gate(isOpen || opens, (if opens then [Menu.Open] else []) + Steering(x, y, now), true)
  }

  // Runs of polls

  /** One sample of everything that a poll depends on; profile, modes and lock may change at any time. */
  datatype Poll = Poll(raw: Raw, now: nat, profile: Profile, xMode: Socd.Mode, yMode: Socd.Mode, locked: bool)

  /** `log` is every call that reached the menu, and every lock state it had. */
  datatype State = State(history: History, isOpen: bool, log: seq<Menu.Op>)

  function DebounceAll(h: History, raw: Raw, now: nat, period: Debounce.Period): (r: History)
    ensures forall i :: 0 <= i < COUNT ==> r[i] == Debounce.Next(h[i], raw[i], now, period)
  {
    seq(COUNT, i requires 0 <= i < COUNT => Debounce.Next(h[i], raw[i], now, period))
  }

  function GateOf(board: Board, h: History, isOpen: bool, p: Poll): Gate {
    if !board.hasMenu then Gate(isOpen, [], false)
    else
      ParseMenu(isOpen, h[BUTTON_MENU], Socd.Parse(p.xMode, InputsX(board, p.profile, h)),
                Socd.Parse(p.yMode, InputsY(board, p.profile, h)), p.now, p.locked, board.hold)
  }

  function Step(board: Board, s: State, p: Poll): State {
    var h := DebounceAll(s.history, p.raw, p.now, board.period);
    var g := GateOf(board, h, s.isOpen, p);
    State(h, g.isOpen, s.log + [Menu.SetLock(p.locked)] + g.ops)
  }

  function Start(): State {
    State(seq(COUNT, _ => Debounce.RELEASED), false, [])
  }

  function Run(board: Board, polls: seq<Poll>): State {
    if polls == [] then Start() else Step(board, Run(board, polls[..|polls| - 1]), polls[|polls| - 1])
  }

  ghost predicate InOrder(polls: seq<Poll>) {
    forall i :: 0 < i < |polls| ==> polls[i - 1].now <= polls[i].now
  }

  /** Ticks in the history are past, and a held button was pressed a period or more after the start. */
  ghost predicate Past(board: Board, h: History, now: nat) {
    forall i :: 0 <= i < COUNT ==> h[i].tick <= now && (h[i].state ==> board.period <= h[i].tick)
  }

  lemma {:induction false} RunIsPast(board: Board, polls: seq<Poll>)
    requires InOrder(polls)
    ensures Past(board, Run(board, polls).history, if polls == [] then 0 else polls[|polls| - 1].now)
  {
    if polls != [] {
      var n := |polls| - 1;
      RunIsPast(board, polls[..n]);
      if n > 0 {
        assert polls[..n][n - 1] == polls[n - 1];
      }
    }
  }

  // A held direction never repeats

  function Presses(log: seq<Menu.Op>): nat {
    if log == [] then 0
    else Presses(log[..|log| - 1]) + if log[|log| - 1].Press? then 1 else 0
  }

  lemma {:induction false} PressesConcat(a: seq<Menu.Op>, b: seq<Menu.Op>)
    ensures Presses(a + b) == Presses(a) + Presses(b)
  {
    if b == [] {
      assert a + b == a;
    } else {
      assert (a + b)[..|a + b| - 1] == a + b[..|b| - 1];
      PressesConcat(a, b[..|b| - 1]);
    }
  }

  /** The direction buttons whose debounced state goes from up to down. */
  function GoDown(before: History, after: History): set<nat> {
    set b | b in DIRECTIONS && b < COUNT && !before[b].state && after[b].state
  }

  /** How often a direction button was pressed in a run, after debouncing. */
  function DirectionPresses(board: Board, polls: seq<Poll>): nat {
    if polls == [] then 0
    else
      var before := polls[..|polls| - 1];
      DirectionPresses(board, before) + |GoDown(Run(board, before).history, Run(board, polls).history)|
  }

  /** Poll `i` falls into the tick of the poll before, at a time when a button can be down. */
  predicate Repeats(nows: seq<nat>, period: Debounce.Period, i: nat) {
    0 < i < |nows| && nows[i - 1] == nows[i] && period <= nows[i]
  }

  function Nows(polls: seq<Poll>): (nows: seq<nat>)
    ensures |nows| == |polls| && forall i :: 0 <= i < |polls| ==> nows[i] == polls[i].now
  {
    seq(|polls|, i requires 0 <= i < |polls| => polls[i].now)
  }

  function RepeatedTicks(board: Board, polls: seq<Poll>): nat {
    if polls == [] then 0
    else
      var n := |polls| - 1;
      RepeatedTicks(board, polls[..n]) + if Repeats(Nows(polls), board.period, n) then 1 else 0
  }

  lemma AtMostOnePress(isOpen: bool, menu: Debounce.Button, x: Socd.Axis, y: Socd.Axis, now: nat, locked: bool,
                       hold: nat)
    ensures var n := Presses(ParseMenu(isOpen, menu, x, y, now, locked, hold).ops);
      n <= 1 && (n > 0 ==> (x.value != 0 && x.tick == now) || (y.value != 0 && y.tick == now))
  {
    hide Presses;
    var opening := if !isOpen && (locked ==> 1 < menu.tick) then [Menu.Open] else [];
    PressesOfNone();
    PressesConcat(opening, Steering(x, y, now));
    PressesOfOne(Menu.Open);
    PressesOfOne(Menu.Close);
    forall dir ensures Presses([Menu.Press(dir)]) == 1 {
      PressesOfOne(Menu.Press(dir));
    }
  }

  lemma PressesOfNone()
    ensures Presses([]) == 0
  {
  }

  lemma PressesOfOne(op: Menu.Op)
    ensures Presses([op]) == if op.Press? then 1 else 0
  {
    assert [op][..0] == [];
  }

  /** If a poll steers the menu, a direction button was pressed in this very tick. */
  lemma SteeringIsFresh(board: Board, h: History, isOpen: bool, p: Poll) returns (b: nat)
    requires Presses(GateOf(board, h, isOpen, p).ops) > 0
    ensures b in DIRECTIONS && b < COUNT && h[b].state && h[b].tick == p.now
  {
    var xs, ys := InputsX(board, p.profile, h), InputsY(board, p.profile, h);
    var x, y := Socd.Parse(p.xMode, xs), Socd.Parse(p.yMode, ys);
    AtMostOnePress(isOpen, h[BUTTON_MENU], x, y, p.now, p.locked, board.hold);
    var input;
    if x.value != 0 && x.tick == p.now {
      input := Socd.TickOfAnInput(p.xMode, xs);
    } else {
      input := Socd.TickOfAnInput(p.yMode, ys);
    }
    b := InputIsAButton(board, p.profile, h, input);
  }

  /** A poll passes on at most one direction, and only if a direction button goes down in it or the poll
      before was in the same tick. */
  lemma PollPresses(board: Board, polls: seq<Poll>)
    requires InOrder(polls) && polls != []
    ensures var before := polls[..|polls| - 1]; var n := |polls| - 1;
      Presses(GateOf(board, Run(board, polls).history, Run(board, before).isOpen, polls[n]).ops)
      <= |GoDown(Run(board, before).history, Run(board, polls).history)|
         + if Repeats(Nows(polls), board.period, n) then 1 else 0
  {
    hide Socd.Parse, InputsX, InputsY, ParseMenu, Past;
    var n := |polls| - 1;
    var before, p := Run(board, polls[..n]), polls[n];
    var after := Run(board, polls);
    var xs, ys := InputsX(board, p.profile, after.history), InputsY(board, p.profile, after.history);
    AtMostOnePress(before.isOpen, after.history[BUTTON_MENU], Socd.Parse(p.xMode, xs), Socd.Parse(p.yMode, ys), p.now,
                   p.locked, board.hold);
    if Presses(GateOf(board, after.history, before.isOpen, p).ops) > 0 {
      var b := SteeringIsFresh(board, after.history, before.isOpen, p);
      RunIsPast(board, polls[..n]);
      if !before.history[b].state {
        assert b in GoDown(before.history, after.history);
      } else {
        HeldSinceBefore(board, polls, b);
      }
    }
  }

  lemma HeldSinceBefore(board: Board, polls: seq<Poll>, b: nat)
    requires InOrder(polls) && polls != [] && b < COUNT
    requires Run(board, polls[..|polls| - 1]).history[b].state && Run(board, polls).history[b].state
    requires Run(board, polls).history[b].tick == polls[|polls| - 1].now
    ensures Repeats(Nows(polls), board.period, |polls| - 1)
  {
    RunIsPast(board, polls[..|polls| - 1]);
  }

  /** In any run the menu is steered at most once per debounced press of a direction button, plus once for
      every poll in the same tick as the one before, not counting ticks before the first period is over. */
  lemma {:induction false} HeldDirectionsDoNotRepeat(board: Board, polls: seq<Poll>)
    requires InOrder(polls)
    ensures Presses(Run(board, polls).log) <= DirectionPresses(board, polls) + RepeatedTicks(board, polls)
  {
    if polls != [] {
      var n := |polls| - 1;
      HeldDirectionsDoNotRepeat(board, polls[..n]);
      PollPresses(board, polls);
      var s, p := Run(board, polls[..n]), polls[n];
      var ops := GateOf(board, Run(board, polls).history, s.isOpen, p).ops;
      PressesConcat(s.log + [Menu.SetLock(p.locked)], ops);
      PressesConcat(s.log, [Menu.SetLock(p.locked)]);
      PressesOfOne(Menu.SetLock(p.locked));
    }
  }

  lemma {:induction false} NoRepeatedTicks(board: Board, polls: seq<Poll>)
    requires forall i :: 0 < i < |polls| ==> !Repeats(Nows(polls), board.period, i)
    ensures RepeatedTicks(board, polls) == 0
  {
    if polls != [] {
      var n := |polls| - 1;
      forall i | 0 < i < n ensures !Repeats(Nows(polls[..n]), board.period, i) {
        assert !Repeats(Nows(polls), board.period, i);
      }
      NoRepeatedTicks(board, polls[..n]);
    }
  }

  lemma UnfoldRun(board: Board, polls: seq<Poll>, n: nat)
    requires n < |polls|
    ensures Run(board, polls[..n + 1]) == Step(board, Run(board, polls[..n]), polls[n])
    ensures DirectionPresses(board, polls[..n + 1])
            == DirectionPresses(board, polls[..n])
               + |GoDown(Run(board, polls[..n]).history, Run(board, polls[..n + 1]).history)|
  {
    assert polls[..n + 1][..n] == polls[..n];
  }

  // Opening and closing

  /** The menu is open after `log`, if opening and closing alternate and directions come only in between. */
  function Bracket(log: seq<Menu.Op>): Option<bool> {
    if log == [] then Some(false)
    else
      match Bracket(log[..|log| - 1])
      case None => None
      case Some(open) =>
        match log[|log| - 1]
        case Open => if open then None else Some(true)
        case Close => if open then Some(false) else None
        case Press(_) => if open then Some(true) else None
        case SetLock(_) => Some(open)
  }

  lemma BracketSnoc(log: seq<Menu.Op>, op: Menu.Op)
    requires Bracket(log).Some?
    ensures var open := Bracket(log).value;
      Bracket(log + [op]) == match op
                             case Open => if open then None else Some(true)
                             case Close => if open then Some(false) else None
                             case Press(_) => if open then Some(true) else None
                             case SetLock(_) => Some(open)
  {
    assert (log + [op])[..|log|] == log;
  }

  lemma GateBrackets(log: seq<Menu.Op>, menu: Debounce.Button, x: Socd.Axis, y: Socd.Axis, now: nat, locked: bool,
                     hold: nat)
    requires Bracket(log).Some? && (menu.state ==> 1 < menu.tick)
    ensures var g := ParseMenu(Bracket(log).value, menu, x, y, now, locked, hold);
            Bracket(log + g.ops) == Some(g.isOpen)
  {
    hide Bracket;
    var isOpen := Bracket(log).value;
    var g := ParseMenu(isOpen, menu, x, y, now, locked, hold);
    var steering := Steering(x, y, now);
    assert log + [] == log;
    BracketSnoc(log, Menu.Close);
    BracketSnoc(log, Menu.Open);
    if g.handled {
      var opening := if isOpen then [] else [Menu.Open];
      assert log + g.ops == log + opening + steering;
      assert Bracket(log + opening) == Some(true);
      if steering == [] {
        assert log + opening + [] == log + opening;
      } else {
        assert steering == [steering[0]];
        BracketSnoc(log + opening, steering[0]);
      }
    }
  }

  /** In any run `menu_open` and `menu_close` alternate, and every direction falls in between. */
  lemma {:induction false} OpenAndCloseAlternate(board: Board, polls: seq<Poll>)
    requires InOrder(polls)
    ensures Bracket(Run(board, polls).log) == Some(Run(board, polls).isOpen)
  {
    if polls != [] {
      var n := |polls| - 1;
      OpenAndCloseAlternate(board, polls[..n]);
      RunIsPast(board, polls);
      var s, t, p := Run(board, polls[..n]), Run(board, polls), polls[n];
      var log := s.log + [Menu.SetLock(p.locked)];
      BracketSnoc(s.log, Menu.SetLock(p.locked));
      if board.hasMenu {
        GateBrackets(log, t.history[BUTTON_MENU], Socd.Parse(p.xMode, InputsX(board, p.profile, t.history)),
                     Socd.Parse(p.yMode, InputsY(board, p.profile, t.history)), p.now, p.locked, board.hold);
      } else {
        assert log + [] == log;
      }
    }
  }

  lemma {:induction false} BracketedIsDisciplined(locked: bool, log: seq<Menu.Op>)
    requires Bracket(log).Some?
    ensures Menu.Disciplined(Menu.Initial(locked), log)
    ensures var s := Menu.Run(Menu.Initial(locked), log);
            s.Some? && Menu.Inv(s.value) && s.value.shown == Bracket(log).value
  {
    if log != [] {
      var n := |log| - 1;
      BracketedIsDisciplined(locked, log[..n]);
      Menu.RunsAreSafe(locked, log);
      var before := Menu.Run(Menu.Initial(locked), log[..n]).value;
      StepShows(before, log[n]);
    }
  }

  lemma PushShows(s: Menu.State, item: Menu.Item)
    requires Menu.Push(s, item).Some?
    ensures Menu.Push(s, item).value.shown == s.shown
  {
  }

  lemma MoveShows(s: Menu.State, dir: Menu.Direction)
    requires Menu.Move(s, dir).Some?
    ensures Menu.Move(s, dir).value.shown == s.shown
  {
    if dir == Menu.Right {
      PushShows(s, s.items[s.selected]);
    }
    hide Menu.Push, Menu.Items;
  }

  lemma StepShows(s: Menu.State, op: Menu.Op)
    requires Menu.Inv(s) && Menu.Step(s, op).Some?
    ensures Menu.Step(s, op).value.shown == if op.Open? then true else if op.Close? then false else s.shown
  {
    if op.Press? {
      MoveShows(s, op.dir);
    }
    hide Menu.Inv, Menu.Move, Menu.Push, Menu.PopAll;
  }

  /**
   * Whatever the player does: the polls drive the menu without ever reading out of range or overflowing its
   * stack, and it is on the screen exactly when the gate has it open.
   */
  lemma MenuIsDrivenSafely(board: Board, polls: seq<Poll>, locked: bool)
    requires InOrder(polls)
    ensures var s := Menu.Run(Menu.Initial(locked), Run(board, polls).log);
            s.Some? && Menu.Inv(s.value) && s.value.shown == Run(board, polls).isOpen
  {
    OpenAndCloseAlternate(board, polls);
    BracketedIsDisciplined(locked, Run(board, polls).log);
  }

  // The last direction wins

  /** The tick of the poll in which a button last went down; zero if it never did. */
  function PressTime(board: Board, polls: seq<Poll>, b: nat): nat
    requires b < COUNT
  {
    if polls == [] then 0
    else
      var before := polls[..|polls| - 1];
      if !Run(board, before).history[b].state && Run(board, polls).history[b].state then polls[|polls| - 1].now
      else PressTime(board, before, b)
  }

  /** The tick in the history of a held button is the time of its last press. */
  lemma {:induction false} HeldTickIsPressTime(board: Board, polls: seq<Poll>, b: nat)
    requires b < COUNT && Run(board, polls).history[b].state
    ensures Run(board, polls).history[b].tick == PressTime(board, polls, b)
  {
    var before := polls[..|polls| - 1];
    if Run(board, before).history[b].state {
      HeldTickIsPressTime(board, before, b);
    }
  }

  /** The first thumb button that is held, if the profile has them override the x axis. */
  function HeldThumb(board: Board, h: History): Option<nat> {
    if board.hasThumbLeft && h[THUMB_LEFT].state then Some(THUMB_LEFT)
    else if board.hasThumbRight && h[THUMB_RIGHT].state then Some(THUMB_RIGHT)
    else None
  }

  /** Thumb buttons override what is listed before them, the left one first, or do not matter if none is held. */
  lemma ThumbsOverride(board: Board, h: History, left: Socd.Kind, right: Socd.Kind, mode: Socd.Mode, a: seq<Socd.Input>)
    requires forall x :: x in a ==> !x.overrides
    ensures Socd.Parse(mode, a + Thumbs(board, h, left, right)) ==
      match HeldThumb(board, h)
      case None => Socd.Parse(mode, a)
      case Some(b) => Socd.Axis((if b == THUMB_LEFT then left else right).Value(), h[b].tick)
  {
    var thumbs := Thumbs(board, h, left, right);
    if HeldThumb(board, h).None? {
      Socd.InactiveDoNotMatter(mode, a, thumbs);
    } else {
      Socd.OverrideConcat(a, thumbs);
      Socd.OverrideIsFirst(thumbs, if thumbs[0].active then 0 else 1);
    }
  }

  /** The side of the x axis that is held and was pressed last; right wins ties. */
  function LastSideX(board: Board, polls: seq<Poll>): int {
    var h := Run(board, polls).history;
    var left, right := h[STICK_LEFT].state, h[STICK_RIGHT].state;
    if right && (left ==> PressTime(board, polls, STICK_LEFT) <= PressTime(board, polls, STICK_RIGHT)) then 1
    else if left then -1
    else 0
  }

  /** The same for the y axis, where two buttons may point up; down wins ties. */
  function LastSideY(board: Board, polls: seq<Poll>): int {
    var h := Run(board, polls).history;
    var up, extra := h[STICK_UP].state, board.hasW && h[BUTTON_W].state;
    var d := PressTime(board, polls, STICK_DOWN);
    if h[STICK_DOWN].state && (up ==> PressTime(board, polls, STICK_UP) <= d)
       && (extra ==> PressTime(board, polls, BUTTON_W) <= d) then 1
    else if up || extra then -1
    else 0
  }

  /** With `LastWins`, after any run and with any profile, the x axis points to the held side that was pressed last,
      unless the profile lets a thumb button override it. */
  lemma LastPressedWins(board: Board, profile: Profile, polls: seq<Poll>)
    ensures var h := Run(board, polls).history; var thumb := HeldThumb(board, h);
      Socd.Parse(Socd.LastWins, InputsX(board, profile, h)).value
      == if profile == Default || thumb.None? then LastSideX(board, polls)
         else if thumb.value == THUMB_LEFT then -1 else 1
  {
    var h := Run(board, polls).history;
    forall b: nat | b < COUNT && h[b].state ensures h[b].tick == PressTime(board, polls, b) {
      HeldTickIsPressTime(board, polls, b);
    }
    var sides := [Pushes(h, STICK_LEFT, Socd.Negative, false), Pushes(h, STICK_RIGHT, Socd.Positive, false)];
    hide Socd.Parse, Thumbs, Run, PressTime, HeldThumb;
    TwoInputs(sides[0], sides[1]);
    if profile == Default {
      assert InputsX(board, profile, h) == sides;
    } else {
      ThumbsOverride(board, h, Socd.Negative, Socd.Positive, Socd.LastWins, sides);
    }
  }

  lemma TwoInputs(left: Socd.Input, right: Socd.Input)
    requires left.kind == Socd.Negative && right.kind == Socd.Positive && !left.overrides && !right.overrides
    ensures Socd.Parse(Socd.LastWins, [left, right]).value
            == if right.active && (!left.active || left.tick <= right.tick) then 1 else if left.active then -1 else 0
  {
    var inputs := [left, right];
    assert left == inputs[0] && right == inputs[1];
    Socd.NewestIsUnique(inputs, Socd.Positive, if right.active then Some(right.tick) else None);
    Socd.NewestIsUnique(inputs, Socd.Negative, if left.active then Some(left.tick) else None);
    Socd.NewestIsUnique(inputs, Socd.Centre, None);
  }

  lemma DefaultY(board: Board, polls: seq<Poll>)
    ensures Socd.Parse(Socd.LastWins, InputsY(board, Default, Run(board, polls).history)).value
            == LastSideY(board, polls)
  {
    var h := Run(board, polls).history;
    forall b: nat | b < COUNT && h[b].state ensures h[b].tick == PressTime(board, polls, b) {
      HeldTickIsPressTime(board, polls, b);
    }
    hide Socd.Parse, Run, PressTime;
    var up, down := Pushes(h, STICK_UP, Socd.Negative, false), Pushes(h, STICK_DOWN, Socd.Positive, false);
    if board.hasW {
      ThreeInputs(up, down, Pushes(h, BUTTON_W, Socd.Negative, false));
      assert InputsY(board, Default, h) == [up, down, Pushes(h, BUTTON_W, Socd.Negative, false)];
    } else {
      TwoInputs(up, down);
      assert InputsY(board, Default, h) == [up, down];
    }
  }

  /** The same for the y axis; the profiles differ in where a thumb button makes it point. */
  lemma LastPressedWinsOnY(board: Board, profile: Profile, polls: seq<Poll>)
    ensures var h := Run(board, polls).history;
      Socd.Parse(Socd.LastWins, InputsY(board, profile, h)).value
      == if profile == Default || HeldThumb(board, h).None? then LastSideY(board, polls)
         else if profile == Dashblock then 0 else -1
  {
    var h := Run(board, polls).history;
    DefaultY(board, polls);
    var sides := InputsY(board, Default, h);
    var kind := if profile == Dashblock then Socd.Centre else Socd.Negative;
    hide Socd.Parse, Thumbs, Run, LastSideY, HeldThumb, InputsY;
    if profile != Default {
      ThumbsComeLast(board, profile, h);
      ThumbsOverride(board, h, kind, kind, Socd.LastWins, sides);
    }
  }

  lemma ThumbsComeLast(board: Board, profile: Profile, h: History)
    requires profile != Default
    ensures forall x :: x in InputsY(board, Default, h) ==> !x.overrides
    ensures var kind := if profile == Dashblock then Socd.Centre else Socd.Negative;
            InputsY(board, profile, h) == InputsY(board, Default, h) + Thumbs(board, h, kind, kind)
  {
    hide Thumbs;
  }

  lemma ThreeInputs(up: Socd.Input, down: Socd.Input, extra: Socd.Input)
    requires up.kind == extra.kind == Socd.Negative && down.kind == Socd.Positive
    requires !up.overrides && !down.overrides && !extra.overrides
    ensures Socd.Parse(Socd.LastWins, [up, down, extra]).value
            == if down.active && (up.active ==> up.tick <= down.tick) && (extra.active ==> extra.tick <= down.tick)
               then 1
               else if up.active || extra.active then -1 else 0
  {
    var inputs := [up, down, extra];
    assert up == inputs[0] && down == inputs[1] && extra == inputs[2];
    var n := if !up.active then (if extra.active then Some(extra.tick) else None)
             else if extra.active then Some(Max(up.tick, extra.tick)) else Some(up.tick);
    Socd.NewestIsUnique(inputs, Socd.Positive, if down.active then Some(down.tick) else None);
    Socd.NewestIsUnique(inputs, Socd.Negative, n);
    Socd.NewestIsUnique(inputs, Socd.Centre, None);
  }

  // The lock

  /** The menu is open exactly while the debounced menu button is held, but opens on a locked controller only once the
      button has been held for long enough since it was pressed. */
  lemma OpensWhenHeldLongEnough(board: Board, polls: seq<Poll>)
    requires InOrder(polls) && polls != [] && board.hasMenu
    ensures var n := |polls| - 1;
      Run(board, polls).isOpen <==>
        && Run(board, polls).history[BUTTON_MENU].state
        && (Run(board, polls[..n]).isOpen || !polls[n].locked
            || PressTime(board, polls, BUTTON_MENU) + board.hold <= polls[n].now)
  {
    hide Socd.Parse, InputsX, InputsY;
    RunIsPast(board, polls);
    if Run(board, polls).history[BUTTON_MENU].state {
      HeldTickIsPressTime(board, polls, BUTTON_MENU);
    }
  }

  // Settings

  /** What the menu can change about the axes. */
  datatype Settings = Settings(profile: Profile, xMode: Socd.Mode, yMode: Socd.Mode)

  function ProfileOf(index: nat): Profile {
    match index
    case 0 => Default
    case 1 => Dashblock
    case _ => TigerKnee
  }

  function ModeOf(index: nat): Socd.Mode {
    match index
    case 0 => Socd.NeutralWins
    case 1 => Socd.LastWins
    case 2 => Socd.NegativeWins
    case _ => Socd.PositiveWins
  }

  function Apply(t: Settings, action: Option<Menu.Action>): Settings {
    match action
    case Some(UseProfile(index)) => t.(profile := ProfileOf(index))
    case Some(UseMode(forX, index)) => if forX then t.(xMode := ModeOf(index)) else t.(yMode := ModeOf(index))
    case _ => t
  }

  /** The settings after the calls of `ops` have reached a menu in state `s`. */
  function SettingsAfter(s: Menu.State, t: Settings, ops: seq<Menu.Op>): Settings {
    if ops == [] then t
    else
      var before := ops[..|ops| - 1];
      match Menu.Run(s, before)
      case None => t
      case Some(u) => Apply(SettingsAfter(s, t, before), Menu.Performed(u, ops[|ops| - 1]))
  }

  lemma SettingsOfOne(s: Menu.State, t: Settings, op: Menu.Op)
    ensures SettingsAfter(s, t, [op]) == Apply(t, Menu.Performed(s, op))
  {
    assert [op][..0] == [];
    assert Menu.Run(s, []) == Some(s);
  }

  lemma {:induction false} SettingsConcat(s: Menu.State, t: Settings, a: seq<Menu.Op>, b: seq<Menu.Op>)
    requires Menu.Run(s, a).Some? && Menu.Run(s, a + b).Some?
    ensures SettingsAfter(s, t, a + b) == SettingsAfter(Menu.Run(s, a).value, SettingsAfter(s, t, a), b)
  {
    hide Menu.Step, Apply, Menu.Performed;
    if b == [] {
      assert a + b == a;
    } else {
      var n := |b| - 1;
      assert (a + b)[..|a + b| - 1] == a + b[..n];
      SettingsConcat(s, t, a, b[..n]);
      Menu.RunConcat(s, a, b[..n]);
    }
  }

  // The closed loop

  /** What the player does. Everything else that a poll depends on follows from the polls before. */
  datatype Sample = Sample(raw: Raw, now: nat)

  const FIRST_SETTINGS := Settings(Default, Socd.NeutralWins, Socd.NegativeWins)

  /** The polls that a controller makes of samples, with the settings and the lock that the menu has left. */
  function Polls(board: Board, locked: bool, samples: seq<Sample>): (polls: seq<Poll>)
    ensures |polls| == |samples|
  {
    if samples == [] then []
    else
      var before, x := Polls(board, locked, samples[..|samples| - 1]), samples[|samples| - 1];
      before + [NextPoll(board, locked, Run(board, before), x)]
  }

  function NextPoll(board: Board, locked: bool, s: State, x: Sample): Poll {
    var t := SettingsAfter(Menu.Initial(locked), FIRST_SETTINGS, s.log);
    var held := DebounceAll(s.history, x.raw, x.now, board.period)[MODE_LOCK].state;
    Poll(x.raw, x.now, t.profile, t.xMode, t.yMode,
         if board.hasLockSwitch then held else Menu.Run(Menu.Initial(locked), s.log).GetOr(Menu.Initial(locked)).locked)
  }

  /** A board with a lock switch is locked while the switch is, after debouncing; without one the menu decides. */
  lemma LockOfPoll(board: Board, locked: bool, samples: seq<Sample>)
    requires samples != []
    ensures var n := |samples| - 1;
      var before, polls := Polls(board, locked, samples[..n]), Polls(board, locked, samples);
      && (board.hasLockSwitch ==> polls[n].locked == Run(board, polls).history[MODE_LOCK].state)
      && (!board.hasLockSwitch && Menu.Run(Menu.Initial(locked), Run(board, before).log).Some? ==>
            polls[n].locked == Menu.Run(Menu.Initial(locked), Run(board, before).log).value.locked)
  {
    hide GateOf, SettingsAfter;
    var n := |samples| - 1;
    var before, polls := Polls(board, locked, samples[..n]), Polls(board, locked, samples);
    assert polls[..n] == before && polls[n] == NextPoll(board, locked, Run(board, before), samples[n]);
  }

  /** What a controller that was fresh, and has polled `samples` since, consists of. */
  ghost predicate Reached(board: Board, locked: bool, samples: seq<Sample>, h: History, isOpen: bool, menu: Menu.State,
                          t: Settings)
  {
    var s := Run(board, Polls(board, locked, samples));
    && s.history == h && s.isOpen == isOpen && Menu.Run(Menu.Initial(locked), s.log) == Some(menu)
    && t == SettingsAfter(Menu.Initial(locked), FIRST_SETTINGS, s.log)
  }

  lemma ReachedNext(board: Board, locked: bool, samples: seq<Sample>, h: History, isOpen: bool, menu: Menu.State,
                    t: Settings, x: Sample, p: Poll, menu': Menu.State, t': Settings)
    requires Reached(board, locked, samples, h, isOpen, menu, t)
    requires var h' := DebounceAll(h, x.raw, x.now, board.period);
      && p == Poll(x.raw, x.now, t.profile, t.xMode, t.yMode,
                   if board.hasLockSwitch then h'[MODE_LOCK].state else menu.locked)
      && var ops := [Menu.SetLock(p.locked)] + GateOf(board, h', isOpen, p).ops;
         Menu.Run(menu, ops) == Some(menu') && t' == SettingsAfter(menu, t, ops)
    ensures var h' := DebounceAll(h, x.raw, x.now, board.period);
            Reached(board, locked, samples + [x], h', GateOf(board, h', isOpen, p).isOpen, menu', t')
  {
    hide Menu.Run, SettingsAfter, GateOf;
    var polls := Polls(board, locked, samples);
    var s, all := Run(board, polls), samples + [x];
    assert all[..|samples|] == samples;
    assert Polls(board, locked, all) == polls + [p];
    assert (polls + [p])[..|polls|] == polls;
    var h' := DebounceAll(h, x.raw, x.now, board.period);
    var ops := [Menu.SetLock(p.locked)] + GateOf(board, h', isOpen, p).ops;
    assert s.log + [Menu.SetLock(p.locked)] + GateOf(board, h', isOpen, p).ops == s.log + ops;
    Menu.RunConcat(Menu.Initial(locked), s.log, ops);
    SettingsConcat(Menu.Initial(locked), FIRST_SETTINGS, s.log, ops);
  }

  // The controller

  lemma LockKeepsInv(s: Menu.State, locked: bool)
    requires Menu.Inv(s)
    ensures Menu.Inv(s.(locked := locked)) && Menu.Run(s, [Menu.SetLock(locked)]) == Some(s.(locked := locked))
  {
    Menu.RunOne(s, Menu.SetLock(locked));
    Menu.StepKeepsInv(s, Menu.SetLock(locked));
  }

  /** The static buffer that the profiles list their inputs in has 32 slots with a display and 2 without, where only
      the default profile exists; the latter are enough exactly if the board has no extra up button. */
  lemma BufferIsLargeEnough(board: Board, profile: Profile, h: History)
    ensures |InputsX(board, profile, h)| <= 32 && |InputsY(board, profile, h)| <= 32
    ensures |InputsX(board, Default, h)| <= 2
    ensures |InputsY(board, Default, h)| <= 2 <==> !board.hasW
  {
  }

  class Controller {
    const board: Board
    const history: array<Debounce.Button>
    const buffer: array<Socd.Input>
    const screen: Menu.Screen
    var menuOpened: bool
    var profile: Profile
    var xMode: Socd.Mode
    var yMode: Socd.Mode

    ghost predicate Valid()
      reads this, history, buffer, screen, screen.stack
    {
      && history.Length == COUNT && buffer.Length == 32
      && screen.Valid() && Menu.Inv(screen.GetState()) && screen.shown == menuOpened
    }

    ghost function Current(): Settings
      reads this`profile, this`xMode, this`yMode
    {
      Settings(profile, xMode, yMode)
    }

    /** All that is left of the samples polled so far. */
    ghost predicate HasPolled(locked: bool, samples: seq<Sample>)
      requires Valid()
      reads this, history, buffer, screen, screen.stack
    {
      Reached(board, locked, samples, history[..], menuOpened, screen.GetState(), Current())
    }

    constructor (board: Board, locked: bool)
      ensures Valid() && HasPolled(locked, [])
      ensures Valid() && this.board == board && history[..] == Start().history && !menuOpened
      ensures screen.GetState() == Menu.Initial(locked)
      ensures fresh(history) && fresh(buffer) && fresh(screen) && fresh(screen.stack)
    {
      this.board := board;
      history := new Debounce.Button[COUNT](_ => Debounce.RELEASED);
      buffer := new Socd.Input[32](_ => Socd.Input(false, 0, Socd.Centre, false));
      screen := new Menu.Screen(locked);
      menuOpened, profile, xMode, yMode := false, Default, Socd.NeutralWins, Socd.NegativeWins;
      new;
      Menu.RunsAreSafe(locked, []);
    }

    /** Lists the inputs of the x axis in the buffer; `raw` has been debounced already. */
    method SocdX(raw: array<bool>) returns (n: nat)
      requires Valid() && raw.Length == COUNT && forall i :: 0 <= i < COUNT ==> raw[i] == history[i].state
      modifies buffer
      ensures n <= buffer.Length && buffer[..n] == InputsX(board, profile, history[..])
    {
      hide Menu.Inv, Thumbs, Menu.Screen.GetState;
      buffer[0] := Socd.Input(raw[STICK_LEFT], history[STICK_LEFT].tick, Socd.Negative, false);
      buffer[1] := Socd.Input(raw[STICK_RIGHT], history[STICK_RIGHT].tick, Socd.Positive, false);
      n := 2;
      if profile != Default {
        n := AddThumbs(raw, n, Socd.Negative, Socd.Positive);
      }
    }

    method SocdY(raw: array<bool>) returns (n: nat)
      requires Valid() && raw.Length == COUNT && forall i :: 0 <= i < COUNT ==> raw[i] == history[i].state
      modifies buffer
      ensures n <= buffer.Length && buffer[..n] == InputsY(board, profile, history[..])
    {
      hide Menu.Inv, Thumbs, Menu.Screen.GetState;
      buffer[0] := Socd.Input(raw[STICK_UP], history[STICK_UP].tick, Socd.Negative, false);
      buffer[1] := Socd.Input(raw[STICK_DOWN], history[STICK_DOWN].tick, Socd.Positive, false);
      n := 2;
      if board.hasW {
        buffer[n] := Socd.Input(raw[BUTTON_W], history[BUTTON_W].tick, Socd.Negative, false);
        n := n + 1;
      }
      match profile
      case Default =>
      case Dashblock => n := AddThumbs(raw, n, Socd.Centre, Socd.Centre);
      case TigerKnee => n := AddThumbs(raw, n, Socd.Negative, Socd.Negative);
    }

    method AddThumbs(raw: array<bool>, from: nat, left: Socd.Kind, right: Socd.Kind) returns (n: nat)
      requires Valid() && raw.Length == COUNT && forall i :: 0 <= i < COUNT ==> raw[i] == history[i].state
      requires from + 2 <= buffer.Length
      modifies buffer
      ensures n <= buffer.Length && buffer[..n] == old(buffer[..from]) + Thumbs(board, history[..], left, right)
    {
      n := from;
      if board.hasThumbLeft {
        buffer[n] := Socd.Input(raw[THUMB_LEFT], history[THUMB_LEFT].tick, left, true);
        n := n + 1;
      }
      if board.hasThumbRight {
        buffer[n] := Socd.Input(raw[THUMB_RIGHT], history[THUMB_RIGHT].tick, right, true);
        n := n + 1;
      }
    }

    /** `input_profile_parse_menu`, which makes the calls that `ParseMenu` lists. */
    method SteerMenu(menu: Debounce.Button, x: Socd.Axis, y: Socd.Axis, now: nat) returns (handled: bool)
      requires Valid() && (menu.state ==> 1 < menu.tick <= now)
      modifies this`menuOpened, this`profile, this`xMode, this`yMode, screen, screen.stack
      ensures Valid()
      ensures var g := ParseMenu(old(menuOpened), menu, x, y, now, old(screen.locked), board.hold);
        && handled == g.handled && menuOpened == g.isOpen
        && Menu.Run(old(screen.GetState()), g.ops) == Some(screen.GetState())
        && Current() == SettingsAfter(old(screen.GetState()), old(Current()), g.ops)
    {
      hide Menu.Inv, Menu.Step, Menu.PopAll;
      ghost var s0 := screen.GetState();
      if !menu.state {
        if menuOpened {
          CloseScreen();
          menuOpened := false;
          SettingsOfOne(s0, Current(), Menu.Close);
        }
        return false;
      }
      if screen.locked {
        if now - menu.tick < board.hold {
          return false;
        } else if 1 < menu.tick {
          EnsureOpen();
        }
      } else {
        EnsureOpen();
      }
      ghost var ops := if old(menuOpened) then [] else [Menu.Open];
      ghost var t0 := Current();
      if ops != [] {
        SettingsOfOne(s0, t0, Menu.Open);
      }
      Menu.RunConcat(s0, ops, Steering(x, y, now));
      Steer(x, y, now);
      SettingsConcat(s0, t0, ops, Steering(x, y, now));
      return true;
    }

    method EnsureOpen()
      requires Valid()
      modifies this`menuOpened, screen, screen.stack
      ensures Valid() && menuOpened
      ensures Menu.Run(old(screen.GetState()), if old(menuOpened) then [] else [Menu.Open]) == Some(screen.GetState())
    {
      hide Menu.Inv, Menu.Step, Menu.PopAll;
      if !menuOpened {
        menuOpened := true;
        OpenScreen();
      }
    }

    /** Passes on at most one direction, that of the x axis first. */
    method Steer(x: Socd.Axis, y: Socd.Axis, now: nat)
      requires Valid() && menuOpened
      modifies this`profile, this`xMode, this`yMode, screen, screen.stack
      ensures Valid()
      ensures Menu.Run(old(screen.GetState()), Steering(x, y, now)) == Some(screen.GetState())
      ensures Current() == SettingsAfter(old(screen.GetState()), old(Current()), Steering(x, y, now))
    {
      hide Menu.Inv, Menu.Step, Menu.PopAll;
      if x.value != 0 && x.tick == now {
        PressOnScreen(if x.value == -1 then Menu.Left else Menu.Right);
        return;
      }
      if y.value != 0 && y.tick == now {
        PressOnScreen(if y.value == -1 then Menu.Up else Menu.Down);
      }
    }

    method CloseScreen()
      requires screen.Valid() && Menu.Inv(screen.GetState())
      modifies screen, screen.stack
      ensures screen.Valid() && Menu.Inv(screen.GetState()) && !screen.shown
      ensures Menu.Run(old(screen.GetState()), [Menu.Close]) == Some(screen.GetState())
    {
      Menu.StepKeepsInv(screen.GetState(), Menu.Close);
      StepShows(screen.GetState(), Menu.Close);
      Menu.RunOne(screen.GetState(), Menu.Close);
      screen.CloseMenu();
    }

    method PressOnScreen(dir: Menu.Direction)
      requires screen.Valid() && Menu.Inv(screen.GetState()) && screen.shown
      modifies this`profile, this`xMode, this`yMode, screen, screen.stack
      ensures screen.Valid() && Menu.Inv(screen.GetState()) && screen.shown
      ensures Menu.Run(old(screen.GetState()), [Menu.Press(dir)]) == Some(screen.GetState())
      ensures Current() == SettingsAfter(old(screen.GetState()), old(Current()), [Menu.Press(dir)])
    {
      SettingsOfOne(screen.GetState(), Current(), Menu.Press(dir));
      Menu.RunOne(screen.GetState(), Menu.Press(dir));
      Menu.PressKeepsInv(screen.GetState(), dir);
      MoveShows(screen.GetState(), dir);
      var done := screen.Input(dir);
      if done.Some? {
        Perform(done.value);
      }
    }

    /** What an item does outside of the menu. */
    method Perform(action: Menu.Action)
      modifies this`profile, this`xMode, this`yMode
      ensures Current() == Apply(old(Current()), Some(action))
    {
      match action
      case UseProfile(index) => profile := ProfileOf(index);
      case UseMode(forX, index) =>
        if forX {
          xMode := ModeOf(index);
        } else {
          yMode := ModeOf(index);
        }
      case _ =>
    }

    method OpenScreen()
      requires screen.Valid() && Menu.Inv(screen.GetState())
      modifies screen, screen.stack
      ensures screen.Valid() && Menu.Inv(screen.GetState()) && screen.shown
      ensures Menu.Run(old(screen.GetState()), [Menu.Open]) == Some(screen.GetState())
    {
      Menu.StepKeepsInv(screen.GetState(), Menu.Open);
      StepShows(screen.GetState(), Menu.Open);
      Menu.RunOne(screen.GetState(), Menu.Open);
      screen.OpenMenu();
    }

    method ResolveAxes(raw: array<bool>) returns (x: Socd.Axis, y: Socd.Axis)
      requires Valid() && raw.Length == COUNT && forall i :: 0 <= i < COUNT ==> raw[i] == history[i].state
      modifies buffer
      ensures x == Socd.Parse(xMode, InputsX(board, profile, history[..]))
      ensures y == Socd.Parse(yMode, InputsY(board, profile, history[..]))
    {
      hide Menu.Inv, InputsX, InputsY, Socd.Parse;
      var n := SocdX(raw);
      x := Socd.InputSocdParse(xMode, buffer[..n]);
      n := SocdY(raw);
      y := Socd.InputSocdParse(yMode, buffer[..n]);
    }

    /** The part of `input_parse` between the raw sample and the report: returns whether the menu took the axes. */
    method InputParse(raw: array<bool>, now: nat) returns (handled: bool, x: Socd.Axis, y: Socd.Axis)
      requires Valid() && Past(board, history[..], now)
      requires raw.Length == COUNT
      modifies this`menuOpened, this`profile, this`xMode, this`yMode, raw, history, buffer, screen, screen.stack
      ensures Valid() && Past(board, history[..], now)
      ensures history[..] == DebounceAll(old(history[..]), old(raw[..]), now, board.period)
      ensures x == Socd.Parse(old(xMode), InputsX(board, old(profile), history[..]))
      ensures y == Socd.Parse(old(yMode), InputsY(board, old(profile), history[..]))
      ensures var p := old(ThisPoll(raw[..], now));
        var g := GateOf(board, history[..], old(menuOpened), p);
        && handled == g.handled && menuOpened == g.isOpen
        && Menu.Run(old(screen.GetState()), [Menu.SetLock(p.locked)] + g.ops) == Some(screen.GetState())
        && Current() == SettingsAfter(old(screen.GetState()), old(Current()), [Menu.SetLock(p.locked)] + g.ops)
    {
      hide Menu.Inv, ParseMenu, InputsX, InputsY, Socd.Parse;
      ghost var s0, t := screen.GetState(), Current();
      ghost var p := old(ThisPoll(raw[..], now));
      DebounceAndLock(raw, now);
      x, y := ResolveAxes(raw);
      handled := false;
      if board.hasMenu {
        handled := SteerMenu(history[BUTTON_MENU], x, y, now);
      }
      ghost var ops := GateOf(board, history[..], old(menuOpened), p).ops;
      Menu.RunConcat(s0, [Menu.SetLock(p.locked)], ops);
      SettingsOfOne(s0, t, Menu.SetLock(p.locked));
      SettingsConcat(s0, t, [Menu.SetLock(p.locked)], ops);
    }

    /** Debounces all buttons, and sets the lock by its switch if the board has one. */
    method DebounceAndLock(raw: array<bool>, now: nat)
      requires Valid() && Past(board, history[..], now) && raw.Length == COUNT
      modifies raw, history, screen
      ensures Valid() && Past(board, history[..], now)
      ensures history[..] == DebounceAll(old(history[..]), old(raw[..]), now, board.period)
      ensures forall i :: 0 <= i < COUNT ==> raw[i] == history[i].state
      ensures var p := old(ThisPoll(raw[..], now));
        && screen.GetState() == old(screen.GetState()).(locked := p.locked)
        && Menu.Run(old(screen.GetState()), [Menu.SetLock(p.locked)]) == Some(screen.GetState())
    {
      hide Menu.Inv;
      Debounce.DebounceAll(raw, history, now, board.period);
      assert history[..] == DebounceAll(old(history[..]), old(raw[..]), now, board.period);
      LockKeepsInv(screen.GetState(), if board.hasLockSwitch then raw[MODE_LOCK] else screen.locked);
      if board.hasLockSwitch {
        screen.locked := raw[MODE_LOCK];
      }
    }

    /** The poll that the next sample makes. */
    ghost function ThisPoll(raw: Raw, now: nat): Poll
      requires Valid()
      reads this, history, buffer, screen, screen.stack
    {
      var h := DebounceAll(history[..], raw, now, board.period);
      Poll(raw, now, profile, xMode, yMode, if board.hasLockSwitch then h[MODE_LOCK].state else screen.locked)
    }

    /** A controller in use is in the state that the runs of polls lead to. */
    method PollOnce(raw: array<bool>, now: nat, ghost locked: bool, ghost samples: seq<Sample>)
      returns (handled: bool, x: Socd.Axis, y: Socd.Axis)
      requires Valid() && HasPolled(locked, samples) && raw.Length == COUNT && Past(board, history[..], now)
      modifies this`menuOpened, this`profile, this`xMode, this`yMode, raw, history, buffer, screen, screen.stack
      ensures Valid() && Past(board, history[..], now)
      ensures HasPolled(locked, samples + [Sample(old(raw[..]), now)])
    {
      hide Menu.Inv, Past, GateOf, Reached, Menu.Run, SettingsAfter;
      ghost var p, s0, t0, h0, open0 := ThisPoll(raw[..], now), screen.GetState(), Current(), history[..], menuOpened;
      ghost var sample := Sample(raw[..], now);
      handled, x, y := InputParse(raw, now);
      ReachedNext(board, locked, samples, h0, open0, s0, t0, sample, p, screen.GetState(), Current());
    }
  }
}
