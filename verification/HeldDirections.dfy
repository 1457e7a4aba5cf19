/**
 * When a direction that is held steers the menu again, on a controller whose menu sets the profile, the SOCD modes
 * and the lock by itself.
 */
module HeldDirections {
  import opened Options
  import opened Buttons
  import opened Pipeline
  import Debounce
  import Menu
  import Socd

  function Ticks(xs: seq<Sample>): (nows: seq<nat>)
    ensures |nows| == |xs| && forall i :: 0 <= i < |xs| ==> nows[i] == xs[i].now
  {
    seq(|xs|, i requires 0 <= i < |xs| => xs[i].now)
  }

  /** Time does not go back. */
  ghost predicate Ascending(nows: seq<nat>) {
    forall i :: 0 < i < |nows| ==> nows[i - 1] <= nows[i]
  }

  lemma {:induction false} PollsKeepTicks(board: Board, locked: bool, xs: seq<Sample>)
    ensures Nows(Polls(board, locked, xs)) == Ticks(xs)
  {
    hide Run, NextPoll;
    if xs != [] {
      var n := |xs| - 1;
      PollsKeepTicks(board, locked, xs[..n]);
      assert NextPoll(board, locked, Run(board, Polls(board, locked, xs[..n])), xs[n]).now == xs[n].now by {
        NextPollKeepsTick(board, locked, Run(board, Polls(board, locked, xs[..n])), xs[n]);
      }
      var polls := Polls(board, locked, xs);
      forall i | 0 <= i < |xs| ensures polls[i].now == xs[i].now {
        if i < n {
          assert polls[i] == Polls(board, locked, xs[..n])[i];
          assert Nows(Polls(board, locked, xs[..n]))[i] == Ticks(xs[..n])[i];
        }
      }
    }
  }

  lemma NextPollKeepsTick(board: Board, locked: bool, s: State, x: Sample)
    ensures NextPoll(board, locked, s, x).now == x.now
  {
  }

  // Calls that leave the settings and the lock alone

  predicate QuietOp(op: Menu.Op) {
    op == Menu.SetLock(false) || op.Open? || op.Close? || op == Menu.Press(Menu.Down)
  }

  ghost predicate Quiet(log: seq<Menu.Op>) {
    forall op :: op in log ==> QuietOp(op)
  }

  lemma QuietStep(s: Menu.State, op: Menu.Op)
    requires Menu.Inv(s) && QuietOp(op) && !s.locked && Menu.Step(s, op).Some?
    ensures !Menu.Step(s, op).value.locked && Menu.Performed(s, op) == None
  {
    Menu.PopAllEmpties(s);
    hide Menu.Items, Menu.Inv;
  }

  lemma {:induction false} QuietKeepsSettings(log: seq<Menu.Op>)
    requires Quiet(log) && Bracket(log).Some?
    ensures var s := Menu.Run(Menu.Initial(false), log); s.Some? && !s.value.locked
    ensures SettingsAfter(Menu.Initial(false), FIRST_SETTINGS, log) == FIRST_SETTINGS
  {
    BracketedIsDisciplined(false, log);
    if log != [] {
      var n := |log| - 1;
      assert log == log[..n] + [log[n]];
      QuietKeepsSettings(log[..n]);
      BracketedIsDisciplined(false, log[..n]);
      QuietStep(Menu.Run(Menu.Initial(false), log[..n]).value, log[n]);
      hide Menu.Step, Menu.Inv, Menu.Performed, Bracket;
    }
  }

  // Only the menu button and down

  predicate OnlyMenuAndDown(raw: Raw) {
    forall i :: 0 <= i < COUNT && i != BUTTON_MENU && i != STICK_DOWN ==> !raw[i]
  }

  ghost predicate Calm(h: History) {
    forall i :: 0 <= i < COUNT && i != BUTTON_MENU && i != STICK_DOWN ==> h[i] == Debounce.RELEASED
  }

  /** The poll that a controller makes whose settings nobody has changed. */
  function AsPoll(x: Sample): Poll {
    Poll(x.raw, x.now, Default, Socd.NeutralWins, Socd.NegativeWins, false)
  }

  function AsPolls(xs: seq<Sample>): (polls: seq<Poll>)
    ensures |polls| == |xs| && forall i :: 0 <= i < |xs| ==> polls[i] == AsPoll(xs[i])
    ensures Nows(polls) == Ticks(xs)
  {
    seq(|xs|, i requires 0 <= i < |xs| => AsPoll(xs[i]))
  }

  lemma CalmX(board: Board, h: History)
    requires Calm(h)
    ensures Socd.Parse(Socd.NeutralWins, InputsX(board, Default, h)).value == 0
  {
    var inputs := InputsX(board, Default, h);
    assert [] + inputs == inputs;
    Socd.InactiveDoNotMatter(Socd.NeutralWins, [], inputs);
  }

  lemma CalmY(board: Board, h: History)
    requires Calm(h)
    ensures Socd.Parse(Socd.NegativeWins, InputsY(board, Default, h))
            == if h[STICK_DOWN].state then Socd.Axis(1, h[STICK_DOWN].tick) else Socd.Axis(0, 0)
  {
    var inputs, down := InputsY(board, Default, h), Pushes(h, STICK_DOWN, Socd.Positive, false);
    assert down == inputs[1];
    assert forall x :: x in inputs ==> x == down || !x.active;
    Socd.NewestIsUnique(inputs, Socd.Positive, if down.active then Some(down.tick) else None);
    Socd.NewestIsUnique(inputs, Socd.Negative, None);
    Socd.NewestIsUnique(inputs, Socd.Centre, None);
  }

  lemma CalmGate(board: Board, h: History, isOpen: bool, p: Poll)
    requires Calm(h) && p == AsPoll(Sample(p.raw, p.now))
    ensures Quiet(GateOf(board, h, isOpen, p).ops)
    ensures board.hasMenu && h[BUTTON_MENU].state && h[STICK_DOWN] == Debounce.Button(true, p.now) ==>
              GateOf(board, h, isOpen, p)
              == Gate(true, (if isOpen then [] else [Menu.Open]) + [Menu.Press(Menu.Down)], true)
  {
    CalmX(board, h);
    CalmY(board, h);
    hide Socd.Parse, InputsX, InputsY;
  }

  lemma CalmStep(board: Board, s: State, x: Sample)
    requires Calm(s.history) && Quiet(s.log) && OnlyMenuAndDown(x.raw)
    ensures var t := Step(board, s, AsPoll(x)); Calm(t.history) && Quiet(t.log)
    ensures !DebounceAll(s.history, x.raw, x.now, board.period)[MODE_LOCK].state
  {
    var h := DebounceAll(s.history, x.raw, x.now, board.period);
    assert Calm(h);
    CalmGate(board, h, s.isOpen, AsPoll(x));
    hide GateOf;
  }

  lemma StartIsCalm()
    ensures Calm(Start().history) && Quiet(Start().log)
  {
  }

  /** A calm controller still has its first settings, and is not locked. */
  lemma CalmPoll(board: Board, s: State, x: Sample)
    requires Calm(s.history) && Quiet(s.log) && Bracket(s.log).Some? && OnlyMenuAndDown(x.raw)
    ensures NextPoll(board, false, s, x) == AsPoll(x)
  {
    hide SettingsAfter, Menu.Run, Bracket, GateOf;
    QuietKeepsSettings(s.log);
    CalmStep(board, s, x);
  }

  lemma {:induction false} LoopStaysCalm(board: Board, xs: seq<Sample>)
    requires (forall x :: x in xs ==> OnlyMenuAndDown(x.raw)) && InOrder(AsPolls(xs))
    ensures Polls(board, false, xs) == AsPolls(xs)
    ensures Calm(Run(board, AsPolls(xs)).history) && Quiet(Run(board, AsPolls(xs)).log)
  {
    hide Calm, Quiet, Bracket, OnlyMenuAndDown, NextPoll, AsPoll, Step;
    if xs != [] {
      var n := |xs| - 1;
      var before := AsPolls(xs[..n]);
      assert AsPolls(xs) == before + [AsPoll(xs[n])] && AsPolls(xs)[..n] == before;
      assert InOrder(before) by {
        assert forall i :: 0 <= i < n ==> before[i] == AsPolls(xs)[i];
      }
      LoopStaysCalm(board, xs[..n]);
      OpenAndCloseAlternate(board, before);
      CalmPoll(board, Run(board, before), xs[n]);
      CalmStep(board, Run(board, before), xs[n]);
    } else {
      StartIsCalm();
      assert AsPolls(xs) == [];
    }
  }

  // A late press

  function MenuAndDown(): Raw {
    Only(BUTTON_MENU)[STICK_DOWN := true]
  }

  /** Nothing is held before sample `from`, and from then on the menu button and down are. */
  function LatePress(nows: seq<nat>, from: nat): (xs: seq<Sample>)
    ensures Ticks(xs) == nows
  {
    seq(|nows|, k requires 0 <= k < |nows| => Sample(if k < from then AllUp() else MenuAndDown(), nows[k]))
  }

  lemma LatePressIsQuiet(board: Board, nows: seq<nat>, from: nat)
    requires Ascending(nows)
    ensures Polls(board, false, LatePress(nows, from)) == AsPolls(LatePress(nows, from))
  {
    var xs := LatePress(nows, from);
    forall x | x in xs ensures OnlyMenuAndDown(x.raw) {
      var i :| 0 <= i < |xs| && xs[i] == x;
      assert x.raw == if i < from then AllUp() else MenuAndDown();
    }
    assert InOrder(AsPolls(xs)) by {
      forall i | 0 < i < |xs| ensures AsPolls(xs)[i - 1].now <= AsPolls(xs)[i].now {
        assert nows[i - 1] <= nows[i];
      }
    }
    LoopStaysCalm(board, xs);
  }

  lemma {:induction false} NothingHeld(board: Board, nows: seq<nat>, from: nat, n: nat)
    requires n <= from && n <= |nows|
    ensures var polls := AsPolls(LatePress(nows, from))[..n];
      Run(board, polls).history == Start().history && DirectionPresses(board, polls) == 0
  {
    hide Step, GoDown;
    var polls := AsPolls(LatePress(nows, from));
    if n == 0 {
      hide LatePress, AsPolls;
      assert polls[..0] == [];
    } else {
      assert polls[n - 1].raw == AllUp();
      hide Run, DirectionPresses, LatePress, AsPolls;
      NothingHeld(board, nows, from, n - 1);
      UnfoldRun(board, polls, n - 1);
      NothingGoesDown(board, Run(board, polls[..n - 1]), polls[n - 1]);
    }
  }

  lemma NothingGoesDown(board: Board, s: State, p: Poll)
    requires s.history == Start().history && p.raw == AllUp()
    ensures Step(board, s, p).history == s.history && GoDown(s.history, s.history) == {}
  {
    hide GateOf;
    assert DebounceAll(s.history, p.raw, p.now, board.period) == s.history;
  }

  ghost predicate BothHeld(h: History, since: nat) {
    Calm(h) && h[BUTTON_MENU] == h[STICK_DOWN] == Debounce.Button(true, since)
  }

  lemma BothGoDown(board: Board, s: State, p: Poll)
    requires s.history == Start().history && p.raw == MenuAndDown() && board.period <= p.now
    ensures BothHeld(Step(board, s, p).history, p.now)
    ensures GoDown(s.history, Step(board, s, p).history) == {STICK_DOWN}
  {
    hide GateOf;
    assert BothHeld(DebounceAll(s.history, p.raw, p.now, board.period), p.now);
  }

  lemma BothStayDown(board: Board, s: State, p: Poll, since: nat)
    requires BothHeld(s.history, since) && p.raw == MenuAndDown()
    ensures Step(board, s, p).history == s.history
    ensures Presses(Step(board, s, p).log) >= Presses(s.log)
  {
    hide GateOf, Presses;
    var h := DebounceAll(s.history, p.raw, p.now, board.period);
    assert h == s.history;
    PressesConcat(s.log + [Menu.SetLock(p.locked)], GateOf(board, h, s.isOpen, p).ops);
    PressesConcat(s.log, [Menu.SetLock(p.locked)]);
  }

  lemma SteersDown(board: Board, s: State, p: Poll)
    requires board.hasMenu && p == AsPoll(Sample(p.raw, p.now))
    requires BothHeld(DebounceAll(s.history, p.raw, p.now, board.period), p.now)
    ensures Presses(Step(board, s, p).log) == Presses(s.log) + 1
  {
    var h := DebounceAll(s.history, p.raw, p.now, board.period);
    CalmGate(board, h, s.isOpen, p);
    assert Presses([]) == 0;
    hide GateOf, Presses;
    var opening := if s.isOpen then [] else [Menu.Open];
    PressesOfOne(Menu.Press(Menu.Down));
    PressesOfOne(Menu.Open);
    PressesOfOne(Menu.SetLock(false));
    PressesConcat(opening, [Menu.Press(Menu.Down)]);
    PressesConcat(s.log, [Menu.SetLock(false)]);
    PressesConcat(s.log + [Menu.SetLock(false)], opening + [Menu.Press(Menu.Down)]);
  }

  lemma SteersTwice(board: Board, s: State, p: Poll)
    requires board.hasMenu && s.history == Start().history && board.period <= p.now
    requires p == AsPoll(Sample(MenuAndDown(), p.now))
    ensures Presses(Step(board, Step(board, s, p), p).log) >= 2
  {
    BothGoDown(board, s, p);
    BothStayDown(board, Step(board, s, p), p, p.now);
    hide GateOf, Presses, MenuAndDown;
    SteersDown(board, s, p);
    SteersDown(board, Step(board, s, p), p);
  }

  lemma {:induction false} HeldIsSteeredTwice(board: Board, nows: seq<nat>, i: nat, n: nat)
    requires board.hasMenu && Repeats(nows, board.period, i) && i < n <= |nows|
    ensures var polls := AsPolls(LatePress(nows, i - 1))[..n];
      && BothHeld(Run(board, polls).history, nows[i])
      && DirectionPresses(board, polls) == 1 && Presses(Run(board, polls).log) >= 2
  {
    hide GateOf, Run, DirectionPresses, Presses, Step, BothHeld;
    var polls := AsPolls(LatePress(nows, i - 1));
    UnfoldRun(board, polls, n - 1);
    if n == i + 1 {
      var s0, p := Run(board, polls[..i - 1]), polls[i];
      NothingHeld(board, nows, i - 1, i - 1);
      UnfoldRun(board, polls, i - 1);
      BothGoDown(board, s0, p);
      BothStayDown(board, Run(board, polls[..i]), p, nows[i]);
      SteersTwice(board, s0, p);
      assert polls[i - 1] == p;
    } else {
      HeldIsSteeredTwice(board, nows, i, n - 1);
      BothStayDown(board, Run(board, polls[..n - 1]), polls[n - 1], nows[i]);
    }
    assert forall h: History :: GoDown(h, h) == {};
  }

  /** Where two polls share a tick, holding the menu button and down from the first of them on steers the menu at least
      twice with one press. */
  lemma SteeredTwice(board: Board, nows: seq<nat>, i: nat) returns (xs: seq<Sample>)
    requires board.hasMenu && 0 < i < |nows| && Repeats(nows, board.period, i) && Ascending(nows)
    ensures Ticks(xs) == nows
    ensures var polls := Polls(board, false, xs);
      DirectionPresses(board, polls) == 1 && Presses(Run(board, polls).log) >= 2
  {
    hide *;
    xs := LatePress(nows, i - 1);
    LatePressIsQuiet(board, nows, i - 1);
    HeldIsSteeredTwice(board, nows, i, |nows|);
    assert AsPolls(xs)[..|nows|] == AsPolls(xs);
  }

  /** Whatever the player does at these ticks, a direction that is held never steers the menu again. */
  ghost predicate NeverAgain(board: Board, nows: seq<nat>) {
    forall xs: seq<Sample> :: Ticks(xs) == nows ==>
      Presses(Run(board, Polls(board, false, xs)).log) <= DirectionPresses(board, Polls(board, false, xs))
  }

  /** When a held direction cannot repeat: exactly if no two polls share a tick, once the first period is over. */
  lemma RepeatsExactlyInOneTick(board: Board, nows: seq<nat>)
    requires board.hasMenu && Ascending(nows)
    ensures NeverAgain(board, nows) <==> forall i :: 0 < i < |nows| ==> !Repeats(nows, board.period, i)
  {
    hide Run, Presses, DirectionPresses, RepeatedTicks, Polls;
    if i: nat :| Repeats(nows, board.period, i) {
      var xs := SteeredTwice(board, nows, i);
    } else {
      forall xs: seq<Sample> | Ticks(xs) == nows
        ensures Presses(Run(board, Polls(board, false, xs)).log) <= DirectionPresses(board, Polls(board, false, xs))
      {
        var polls := Polls(board, false, xs);
        PollsKeepTicks(board, false, xs);
        forall i | 0 < i < |polls| ensures polls[i - 1].now <= polls[i].now {
          assert Nows(polls)[i - 1] <= Nows(polls)[i];
        }
        HeldDirectionsDoNotRepeat(board, polls);
        NoRepeatedTicks(board, polls);
      }
    }
  }
}
