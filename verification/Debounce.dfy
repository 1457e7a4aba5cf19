/** Debouncing: a button may change its reported state only once every so many ticks. */
module Debounce {
  import opened Buttons

  /** The reported state of a button and the tick at which it entered it. */
  datatype Button = Button(state: bool, tick: nat)

  const RELEASED := Button(false, 0)

  /** Ticks between changes. */
  type Period = t: nat | t > 1 witness 2

  function Next(b: Button, raw: bool, now: nat, period: Period): Button {
    if raw == b.state || now < b.tick + period then b else Button(raw, now)
  }

  datatype Sample = Sample(raw: bool, now: nat)

  function Run(b: Button, samples: seq<Sample>, period: Period): Button {
    if samples == [] then b
    else
      var n := |samples| - 1;
      Next(Run(b, samples[..n], period), samples[n].raw, samples[n].now, period)
  }

  /** Poll times never go back, and are not before the history that they extend. */
  ghost predicate InOrder(b: Button, samples: seq<Sample>) {
    forall i :: 0 <= i < |samples| ==> b.tick <= samples[i].now && (i > 0 ==> samples[i - 1].now <= samples[i].now)
  }

  function Transitions(b: Button, samples: seq<Sample>, period: Period): nat {
    if samples == [] then 0
    else
      var n := |samples| - 1;
      var before := Run(b, samples[..n], period);
      Transitions(b, samples[..n], period)
      + if Next(before, samples[n].raw, samples[n].now, period) != before then 1 else 0
  }

  /** Whether poll `i` changes what is reported. */
  predicate ChangesAt(b: Button, samples: seq<Sample>, i: nat, period: Period)
    requires i < |samples|
  {
    Run(b, samples[..i], period).state != Run(b, samples[..i + 1], period).state
  }

  lemma {:induction false} TickSinceChange(b: Button, samples: seq<Sample>, i: nat, period: Period)
    requires InOrder(b, samples) && i < |samples| && ChangesAt(b, samples, i, period)
    ensures samples[i].now <= Run(b, samples, period).tick
  {
    var n := |samples| - 1;
    if i < n {
      assert samples[..n][..i] == samples[..i] && samples[..n][..i + 1] == samples[..i + 1];
      TickSinceChange(b, samples[..n], i, period);
    } else {
      assert samples[..i + 1] == samples && samples[..i + 1][..i] == samples[..i];
    }
  }

  /** Any two changes of what is reported are at least a period apart. */
  lemma ChangesAreApart(b: Button, samples: seq<Sample>, i: nat, j: nat, period: Period)
    requires InOrder(b, samples) && i < j < |samples|
    requires ChangesAt(b, samples, i, period) && ChangesAt(b, samples, j, period)
    ensures samples[i].now + period <= samples[j].now
  {
    assert samples[..j][..i] == samples[..i] && samples[..j][..i + 1] == samples[..i + 1];
    TickSinceChange(b, samples[..j], i, period);
    assert samples[..j + 1][..j] == samples[..j];
  }

  /** The tick in the history is one of a poll, or the one that the history started with. */
  lemma {:induction false} TickIsPast(b: Button, samples: seq<Sample>, period: Period)
    requires InOrder(b, samples)
    ensures b.tick <= Run(b, samples, period).tick
    ensures samples != [] ==> Run(b, samples, period).tick <= samples[|samples| - 1].now
  {
    if samples != [] {
      TickIsPast(b, samples[..|samples| - 1], period);
    }
  }

  /** `n` periods, one after the other. */
  function Periods(n: nat, period: Period): nat {
    if n == 0 then 0 else Periods(n - 1, period) + period
  }

  lemma {:induction false} PeriodsIsProduct(n: nat, period: Period)
    ensures Periods(n, period) == n * period
  {
    if n > 0 {
      PeriodsIsProduct(n - 1, period);
      assert n * period == (n - 1) * period + period;
    }
  }

  /** Changes are at least a period apart, the first of them from the last one before. */
  lemma {:induction false} TransitionsTakeTime(b: Button, samples: seq<Sample>, period: Period)
    requires InOrder(b, samples)
    ensures b.tick + Periods(Transitions(b, samples, period), period) <= Run(b, samples, period).tick
  {
    if samples != [] {
      TransitionsTakeTime(b, samples[..|samples| - 1], period);
    }
  }

  /** The changes in any stretch of polls, but for the first, fit into it a period each. */
  lemma FewTransitionsInAWindow(b: Button, samples: seq<Sample>, from: nat, period: Period)
    requires InOrder(b, samples) && from < |samples|
    ensures var n := Transitions(Run(b, samples[..from], period), samples[from..], period);
      n > 0 ==> samples[from].now + (n - 1) * period <= samples[|samples| - 1].now
  {
    WindowInOrder(b, samples, from, period);
    hide Run, Transitions, Periods;
    var start, window := Run(b, samples[..from], period), samples[from..];
    LaterTransitionsTakeTime(start, window, period);
    var n := Transitions(start, window, period);
    if n > 0 {
      PeriodsIsProduct(n - 1, period);
    }
  }

  lemma WindowInOrder(b: Button, samples: seq<Sample>, from: nat, period: Period)
    requires InOrder(b, samples) && from <= |samples|
    ensures InOrder(Run(b, samples[..from], period), samples[from..])
  {
    TickIsPast(b, samples[..from], period);
    forall i | from <= i < |samples| ensures Run(b, samples[..from], period).tick <= samples[i].now {
      Ordered(samples, if from > 0 then from - 1 else 0, i);
    }
  }

  lemma {:induction false} Ordered(samples: seq<Sample>, i: nat, j: nat)
    requires i <= j < |samples|
    requires forall k :: 0 < k < |samples| ==> samples[k - 1].now <= samples[k].now
    ensures samples[i].now <= samples[j].now
    decreases j
  {
    if i < j {
      Ordered(samples, i, j - 1);
    }
  }

  /** The change with which a window begins may come at once; each further one takes a period. */
  lemma {:induction false} LaterTransitionsTakeTime(b: Button, window: seq<Sample>, period: Period)
    requires window != [] && InOrder(b, window)
    ensures var n := Transitions(b, window, period);
      n > 0 ==> window[0].now + Periods(n - 1, period) <= Run(b, window, period).tick <= window[|window| - 1].now
  {
    var m := |window| - 1;
    Ordered(window, 0, m);
    if m > 0 {
      LaterTransitionsTakeTime(b, window[..m], period);
    } else {
      assert window[..m] == [];
    }
  }

  /** An input that is held is reported by the first poll that is a period after the last change. */
  lemma {:induction false} SteadyIsReported(b: Button, samples: seq<Sample>, raw: bool, period: Period)
    requires InOrder(b, samples) && samples != []
    requires forall i :: 0 <= i < |samples| ==> samples[i].raw == raw
    requires b.tick + period <= samples[|samples| - 1].now
    ensures Run(b, samples, period).state == raw
  {
    SteadyIsKept(b, samples[..|samples| - 1], raw, period);
  }

  lemma {:induction false} SteadyIsKept(b: Button, samples: seq<Sample>, raw: bool, period: Period)
    requires forall i :: 0 <= i < |samples| ==> samples[i].raw == raw
    ensures Run(b, samples, period) == b || Run(b, samples, period).state == raw
  {
    if samples != [] {
      SteadyIsKept(b, samples[..|samples| - 1], raw, period);
    }
  }

  // Presses

  /** What the last sample says, or what is reported if there is none. */
  function Latest(b: Button, samples: seq<Sample>): bool {
    if samples == [] then b.state else samples[|samples| - 1].raw
  }

  /** How often the raw input goes down. */
  function Presses(b: Button, samples: seq<Sample>): nat {
    if samples == [] then 0
    else
      var n := |samples| - 1;
      Presses(b, samples[..n]) + if samples[n].raw && !Latest(b, samples[..n]) then 1 else 0
  }

  /** How often the reported state goes down. */
  function ReportedPresses(b: Button, samples: seq<Sample>, period: Period): nat {
    if samples == [] then 0
    else
      var n := |samples| - 1;
      ReportedPresses(b, samples[..n], period)
      + if Run(b, samples, period).state && !Run(b, samples[..n], period).state then 1 else 0
  }

  /** How often the raw input changes before what it was is reported. */
  function Missed(b: Button, samples: seq<Sample>, period: Period): nat {
    if samples == [] then 0
    else
      var n := |samples| - 1;
      var before := Latest(b, samples[..n]);
      Missed(b, samples[..n], period)
      + if samples[n].raw != before && Run(b, samples[..n], period).state != before then 1 else 0
  }

  /** Each press is reported, or lost because it or the release before it was too short, or still to be reported. */
  lemma {:induction false} PressesReportedOrMissed(b: Button, samples: seq<Sample>, period: Period)
    ensures Presses(b, samples)
            == ReportedPresses(b, samples, period) + Missed(b, samples, period)
               + if Latest(b, samples) && !Run(b, samples, period).state then 1 else 0
  {
    if samples != [] {
      PressesReportedOrMissed(b, samples[..|samples| - 1], period);
    }
  }

  /** Poll `j` finds its raw value reported already, or comes late enough to report it: a period after the last
      change. */
  predicate InTime(b: Button, samples: seq<Sample>, j: nat, period: Period)
    requires j < |samples|
  {
    var before := Run(b, samples[..j], period);
    before.state == samples[j].raw || before.tick + period <= samples[j].now
  }

  /** If the raw input changes after poll `j`, that poll is in time. */
  predicate CaughtUpAt(b: Button, samples: seq<Sample>, j: nat, period: Period)
    requires j + 1 < |samples|
  {
    samples[j].raw != samples[j + 1].raw ==> InTime(b, samples, j, period)
  }

  /** The last poll before every change of the raw input is in time, and so is the last of all if it is down. */
  ghost predicate CatchesUp(b: Button, samples: seq<Sample>, period: Period) {
    && (forall j :: 0 <= j < |samples| - 1 ==> CaughtUpAt(b, samples, j, period))
    && (samples != [] && samples[|samples| - 1].raw ==> InTime(b, samples, |samples| - 1, period))
  }

  lemma InTimeIsReported(b: Button, samples: seq<Sample>, j: nat, period: Period)
    requires j < |samples|
    ensures InTime(b, samples, j, period) <==> Run(b, samples[..j + 1], period).state == samples[j].raw
  {
    assert samples[..j + 1][..j] == samples[..j];
  }

  lemma CaughtUpBefore(b: Button, samples: seq<Sample>, n: nat, j: nat, period: Period)
    requires j + 1 < n <= |samples|
    ensures CaughtUpAt(b, samples[..n], j, period) <==> CaughtUpAt(b, samples, j, period)
  {
    assert samples[..n][..j] == samples[..j];
  }

  lemma {:induction false} NothingMissed(b: Button, samples: seq<Sample>, period: Period)
    ensures Missed(b, samples, period) == 0
            <==> forall j :: 0 <= j < |samples| - 1 ==> CaughtUpAt(b, samples, j, period)
  {
    if samples != [] {
      var n := |samples| - 1;
      NothingMissed(b, samples[..n], period);
      forall j | 0 <= j < n - 1
        ensures CaughtUpAt(b, samples[..n], j, period) <==> CaughtUpAt(b, samples, j, period)
      {
        CaughtUpBefore(b, samples, n, j, period);
      }
      if n > 0 {
        InTimeIsReported(b, samples, n - 1, period);
        assert samples[..n - 1 + 1] == samples[..n] && Latest(b, samples[..n]) == samples[n - 1].raw;
        assert CaughtUpAt(b, samples, n - 1, period) <==>
          samples[n - 1].raw != samples[n].raw ==> Run(b, samples[..n], period).state == samples[n - 1].raw;
        hide InTime, Run, CaughtUpAt;
        assert (forall j :: 0 <= j < n ==> CaughtUpAt(b, samples, j, period)) <==>
          CaughtUpAt(b, samples, n - 1, period) && forall j :: 0 <= j < n - 1 ==> CaughtUpAt(b, samples, j, period);
      }
    }
  }

  /** No press is lost if and only if the polls always catch up with the raw input before it changes. */
  lemma EveryPressIsReported(b: Button, samples: seq<Sample>, period: Period)
    ensures ReportedPresses(b, samples, period) <= Presses(b, samples)
    ensures ReportedPresses(b, samples, period) == Presses(b, samples) <==> CatchesUp(b, samples, period)
  {
    PressesReportedOrMissed(b, samples, period);
    NothingMissed(b, samples, period);
    if samples != [] {
      InTimeIsReported(b, samples, |samples| - 1, period);
      assert samples[..|samples|] == samples;
    }
  }

  /** `input_debounce`: what it returns is always what it stores. */
  method InputDebounce(current: bool, history: array<Button>, i: nat, now: nat, period: Period) returns (value: bool)
    requires i < history.Length && history[i].tick <= now
    modifies history
    ensures history[..] == old(history[..])[i := Next(old(history[i]), current, now, period)]
    ensures value == history[i].state
  {
    if current == history[i].state {
      return current;
    }
    var duration := now - history[i].tick;
    if duration < period {
      return !current;
    }
    history[i] := Button(current, now);
    return current;
  }

  /** The first loop of `input_parse`: every button is debounced on its own. */
  method DebounceAll(raw: array<bool>, history: array<Button>, now: nat, period: Period)
    requires raw.Length == COUNT && history.Length == COUNT
    requires forall i :: 0 <= i < COUNT ==> history[i].tick <= now
    modifies raw, history
    ensures forall i :: 0 <= i < COUNT ==>
      history[i] == Next(old(history[i]), old(raw[i]), now, period) && raw[i] == history[i].state
  {
    for i := 0 to COUNT
      invariant forall j :: i <= j < COUNT ==> raw[j] == old(raw[j]) && history[j] == old(history[j])
      invariant forall j :: 0 <= j < i ==>
        history[j] == Next(old(history[j]), old(raw[j]), now, period) && raw[j] == history[j].state
    {
      raw[i] := InputDebounce(raw[i], history, i, now, period);
    }
  }
}
