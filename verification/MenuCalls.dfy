/** Which calls of the menu the buttons cause, after any run of polls. */
module MenuCalls {
  import opened Options
  import opened Buttons
  import opened Pipeline
  import Debounce
  import Menu
  import Socd

  /** Of the buttons that can push an axis, exactly those in `held` are down, after debouncing. */
  ghost predicate OnlyHeld(h: History, held: set<nat>) {
    forall d :: d in DIRECTIONS && d < COUNT ==> (h[d].state <==> d in held)
  }

  // The axes, for every profile and every mode

  lemma CentredX(board: Board, profile: Profile, mode: Socd.Mode, h: History, held: set<nat>)
    requires OnlyHeld(h, held) && held <= {STICK_UP, STICK_DOWN, BUTTON_W}
    ensures Socd.Parse(mode, InputsX(board, profile, h)).value == 0
  {
    Socd.NeitherSide(mode, InputsX(board, profile, h));
  }

  lemma PushedX(board: Board, profile: Profile, mode: Socd.Mode, h: History, held: set<nat>, b: nat)
    requires OnlyHeld(h, held) && held <= {b, STICK_UP, STICK_DOWN, BUTTON_W} && b in held
    requires b == STICK_LEFT || b == STICK_RIGHT
    ensures Socd.Parse(mode, InputsX(board, profile, h))
            == Socd.Axis(if b == STICK_RIGHT then 1 else -1, h[b].tick)
  {
    var inputs := InputsX(board, profile, h);
    var x := inputs[if b == STICK_RIGHT then 1 else 0];
    assert x in inputs && x.active && x.tick == h[b].tick;
    assert forall y :: y in inputs && y.active ==> y == x;
    Socd.OneSideWins(mode, inputs, b == STICK_RIGHT, h[b].tick);
  }

  lemma PushedY(board: Board, profile: Profile, mode: Socd.Mode, h: History, held: set<nat>, b: nat)
    requires OnlyHeld(h, held) && held <= {b, STICK_LEFT, STICK_RIGHT} && b in held
    requires b == STICK_UP || b == STICK_DOWN || (b == BUTTON_W && board.hasW)
    ensures Socd.Parse(mode, InputsY(board, profile, h))
            == Socd.Axis(if b == STICK_DOWN then 1 else -1, h[b].tick)
  {
    var inputs := InputsY(board, profile, h);
    var x := inputs[if b == STICK_UP then 0 else if b == STICK_DOWN then 1 else 2];
    assert x in inputs && x.active && x.tick == h[b].tick;
    assert forall y :: y in inputs && y.active ==> y == x;
    Socd.OneSideWins(mode, inputs, b == STICK_DOWN, h[b].tick);
  }

  // The gate

  /** The last poll finds the menu button held, and if the controller is locked then for long enough. */
  ghost predicate InMenu(board: Board, polls: seq<Poll>)
    requires polls != []
  {
    var p := polls[|polls| - 1];
    && board.hasMenu && Run(board, polls).history[BUTTON_MENU].state
    && (p.locked ==> PressTime(board, polls, BUTTON_MENU) + board.hold <= p.now)
  }

  /** The calls that the last poll adds to the log, after that of the lock. */
  ghost function Added(board: Board, polls: seq<Poll>): seq<Menu.Op>
    requires polls != []
  {
    var before, log := Run(board, polls[..|polls| - 1]).log, Run(board, polls).log;
    if |before| < |log| then log[|before| + 1..] else []
  }

  lemma LogGrows(board: Board, polls: seq<Poll>)
    requires polls != []
    ensures var n := |polls| - 1;
      && Run(board, polls).log == Run(board, polls[..n]).log + [Menu.SetLock(polls[n].locked)] + Added(board, polls)
      && Added(board, polls)
         == GateOf(board, Run(board, polls).history, Run(board, polls[..n]).isOpen, polls[n]).ops
  {
    var n := |polls| - 1;
    var before := Run(board, polls[..n]);
    var ops := GateOf(board, Run(board, polls).history, before.isOpen, polls[n]).ops;
    hide GateOf;
    assert Run(board, polls).log == before.log + [Menu.SetLock(polls[n].locked)] + ops;
  }

  /** Opening or closing, if the menu was in the other state before. */
  function Turn(before: bool, after: bool): seq<Menu.Op> {
    if !before && after then [Menu.Open] else if before && !after then [Menu.Close] else []
  }

  /**
   * What a poll calls: opening or closing, whenever the menu changes between the two, and after that at most one
   * direction, and that only in the menu. The game sees the axes if and only if the poll is not in the menu.
   */
  lemma WhatAPollCalls(board: Board, polls: seq<Poll>)
    requires InOrder(polls) && polls != []
    ensures var n := |polls| - 1;
      var turn := Turn(Run(board, polls[..n]).isOpen, Run(board, polls).isOpen);
      && (Added(board, polls) == turn
          || (InMenu(board, polls) && exists d :: Added(board, polls) == turn + [Menu.Press(d)]))
      && (GateOf(board, Run(board, polls).history, Run(board, polls[..n]).isOpen, polls[n]).handled
          <==> InMenu(board, polls))
  {
    hide Socd.Parse, InputsX, InputsY, Past, Added;
    var n := |polls| - 1;
    HeldMenuTick(board, polls);
    LogGrows(board, polls);
    var s, t, p := Run(board, polls[..n]), Run(board, polls), polls[n];
    var x := Socd.Parse(p.xMode, InputsX(board, p.profile, t.history));
    var y := Socd.Parse(p.yMode, InputsY(board, p.profile, t.history));
    var turn := Turn(s.isOpen, t.isOpen);
    assert turn + [] == turn;
    if InMenu(board, polls) {
      var steering := Steering(x, y, p.now);
      if steering != [] {
        assert steering == [Menu.Press(steering[0].dir)];
        assert Added(board, polls) == turn + [Menu.Press(steering[0].dir)];
      }
    }
  }

  lemma HeldMenuTick(board: Board, polls: seq<Poll>)
    requires InOrder(polls) && polls != []
    ensures Run(board, polls).history[BUTTON_MENU].state ==>
      && 1 < Run(board, polls).history[BUTTON_MENU].tick
      && Run(board, polls).history[BUTTON_MENU].tick == PressTime(board, polls, BUTTON_MENU)
  {
    RunIsPast(board, polls);
    if Run(board, polls).history[BUTTON_MENU].state {
      HeldTickIsPressTime(board, polls, BUTTON_MENU);
    }
  }

  /** Button `b` goes down, after debouncing, in the last poll. */
  ghost predicate GoesDown(board: Board, polls: seq<Poll>, b: nat)
    requires polls != [] && b < COUNT
  {
    !Run(board, polls[..|polls| - 1]).history[b].state && Run(board, polls).history[b].state
  }

  lemma DownTick(board: Board, polls: seq<Poll>, b: nat)
    requires polls != [] && b < COUNT && GoesDown(board, polls, b)
    ensures Run(board, polls).history[b].tick == polls[|polls| - 1].now
  {
    hide GateOf;
  }

  /** In the menu, with these answers of the axes, the poll calls what its gate does. */
  lemma AddedInMenu(board: Board, polls: seq<Poll>, x: Socd.Axis, y: Socd.Axis)
    requires InOrder(polls) && polls != [] && InMenu(board, polls)
    requires var p, h := polls[|polls| - 1], Run(board, polls).history;
      && x == Socd.Parse(p.xMode, InputsX(board, p.profile, h))
      && y == Socd.Parse(p.yMode, InputsY(board, p.profile, h))
    ensures var p, before := polls[|polls| - 1], Run(board, polls[..|polls| - 1]).isOpen;
      && (x.value == -1 && x.tick == p.now ==> Added(board, polls) == Turn(before, true) + [Menu.Press(Menu.Left)])
      && (x.value == 1 && x.tick == p.now ==> Added(board, polls) == Turn(before, true) + [Menu.Press(Menu.Right)])
      && (x.value == 0 && y.value == -1 && y.tick == p.now ==>
            Added(board, polls) == Turn(before, true) + [Menu.Press(Menu.Up)])
      && (x.value == 0 && y.value == 1 && y.tick == p.now ==>
            Added(board, polls) == Turn(before, true) + [Menu.Press(Menu.Down)])
  {
    hide Socd.Parse, InputsX, InputsY, Past, Added;
    HeldMenuTick(board, polls);
    LogGrows(board, polls);
  }

  /** In the menu, a direction button that goes down alone causes exactly the call of its direction. */
  lemma PressCalls(board: Board, polls: seq<Poll>, b: nat)
    requires InOrder(polls) && polls != [] && InMenu(board, polls)
    requires b in {STICK_LEFT, STICK_RIGHT, STICK_UP, STICK_DOWN} || (b == BUTTON_W && board.hasW)
    requires GoesDown(board, polls, b) && OnlyHeld(Run(board, polls).history, {b})
    ensures var turn := Turn(Run(board, polls[..|polls| - 1]).isOpen, true);
      && (b == STICK_LEFT ==> Added(board, polls) == turn + [Menu.Press(Menu.Left)])
      && (b == STICK_RIGHT ==> Added(board, polls) == turn + [Menu.Press(Menu.Right)])
      && (b == STICK_UP || b == BUTTON_W ==> Added(board, polls) == turn + [Menu.Press(Menu.Up)])
      && (b == STICK_DOWN ==> Added(board, polls) == turn + [Menu.Press(Menu.Down)])
  {
    hide Socd.Parse, InputsX, InputsY, Run, Added, InMenu;
    var p, h := polls[|polls| - 1], Run(board, polls).history;
    DownTick(board, polls, b);
    if b == STICK_LEFT || b == STICK_RIGHT {
      PushedX(board, p.profile, p.xMode, h, {b}, b);
    } else {
      CentredX(board, p.profile, p.xMode, h, {b});
      PushedY(board, p.profile, p.yMode, h, {b}, b);
    }
    AddedInMenu(board, polls, Socd.Parse(p.xMode, InputsX(board, p.profile, h)),
                Socd.Parse(p.yMode, InputsY(board, p.profile, h)));
  }

  /** If buttons of both axes go down in the same poll, that of the x axis is called and the other one is lost. */
  lemma XGoesFirst(board: Board, polls: seq<Poll>, side: nat, other: nat)
    requires InOrder(polls) && polls != [] && InMenu(board, polls)
    requires side in {STICK_LEFT, STICK_RIGHT} && other in {STICK_UP, STICK_DOWN}
    requires GoesDown(board, polls, side) && OnlyHeld(Run(board, polls).history, {side, other})
    ensures Added(board, polls) == Turn(Run(board, polls[..|polls| - 1]).isOpen, true)
                                   + [Menu.Press(if side == STICK_LEFT then Menu.Left else Menu.Right)]
  {
    hide Socd.Parse, InputsX, InputsY, Run, Added, InMenu;
    var p, h := polls[|polls| - 1], Run(board, polls).history;
    DownTick(board, polls, side);
    PushedX(board, p.profile, p.xMode, h, {side, other}, side);
    AddedInMenu(board, polls, Socd.Parse(p.xMode, InputsX(board, p.profile, h)),
                Socd.Parse(p.yMode, InputsY(board, p.profile, h)));
  }
}
