/**
 * What of a macro gets through the debouncing: its samples are raw input, so entries that are polled too close
 * together are lost.
 */
module MacroInput {
  import opened Buttons
  import opened Options
  import opened Playback
  import opened GundamCamera
  import Debounce

  /** The samples of button `b` that a macro answers to polls. Polls after its end read the real buttons. */
  function Polled(p: Player, nows: seq<nat>, b: nat): seq<Debounce.Sample>
    requires b < COUNT
  {
    if nows == [] then []
    else
      var n := |nows| - 1;
      var answer := Answer(Polls(p, nows[..n]), nows[n]);
      Polled(p, nows[..n], b) + if answer.Some? then [Debounce.Sample(answer.value[b], nows[n])] else []
  }

  lemma PolledSnoc(p: Player, nows: seq<nat>, now: nat, b: nat)
    requires b < COUNT
    ensures var q := Polls(p, nows);
      && Polls(p, nows + [now]) == Poll(q, now)
      && Polled(p, nows + [now], b)
         == Polled(p, nows, b) + if q.rest != [] then [Debounce.Sample(Poll(q, now).input[b], now)] else []
  {
    assert (nows + [now])[..|nows|] == nows;
  }

  lemma {:induction false} PolledAreSamples(p: Player, nows: seq<nat>, b: nat)
    requires b < COUNT
    ensures var polled, samples := Polled(p, nows, b), Samples(Answers(p, nows));
      |polled| == |samples| && forall i :: 0 <= i < |polled| ==> polled[i].raw == samples[i][b]
  {
    if nows != [] {
      var n := |nows| - 1;
      PolledAreSamples(p, nows[..n], b);
      SamplesSnoc(Answers(p, nows[..n]), Answer(Polls(p, nows[..n]), nows[n]));
    }
  }

  lemma {:induction false} SameCount(h: Debounce.Button, polled: seq<Debounce.Sample>, samples: seq<Raw>, b: nat)
    requires b < COUNT && |polled| == |samples| && forall i :: 0 <= i < |polled| ==> polled[i].raw == samples[i][b]
    ensures Debounce.Presses(h, polled) == Presses(h.state, samples, b)
  {
    if polled != [] {
      SameCount(h, polled[..|polled| - 1], samples[..|samples| - 1], b);
    }
  }

  lemma CameraPolled(offset: Offset, frame: nat, now: int, input: Raw, h: Debounce.Button, nows: seq<nat>, b: nat)
    requires b < COUNT && PlaysToTheEnd(offset, frame, now, nows)
    ensures Debounce.Presses(h, Polled(CameraPlayer(offset, frame, now, input), nows, b))
            == MacroPressCount(h.state, input, now, offset, nows[0], b)
  {
    hide PlaysToTheEnd, Debounce.Presses, Presses, Polled, Samples, Answers;
    var p := CameraPlayer(offset, frame, now, input);
    PolledAreSamples(p, nows, b);
    SameCount(h, Polled(p, nows, b), Samples(Answers(p, nows)), b);
    MacroPressesRaw(input, now, offset, frame, nows, b, h.state);
  }

  /**
   * What is reported of a camera macro that is polled to its end, whatever is reported when it starts: never more
   * presses than the raw input has, and all of them if and only if the polls catch up with each change before the next
   * one.
   */
  lemma CameraReachesTheReport(offset: Offset, frame: nat, now: int, input: Raw, h: Debounce.Button, nows: seq<nat>,
                               b: nat, period: Debounce.Period)
    requires b < COUNT && PlaysToTheEnd(offset, frame, now, nows)
    ensures var samples, count := Polled(CameraPlayer(offset, frame, now, input), nows, b),
                                  MacroPressCount(h.state, input, now, offset, nows[0], b);
      && Debounce.ReportedPresses(h, samples, period) <= count
      && (Debounce.ReportedPresses(h, samples, period) == count <==> Debounce.CatchesUp(h, samples, period))
  {
    hide Debounce.CatchesUp, PlaysToTheEnd;
    CameraPolled(offset, frame, now, input, h, nows, b);
    Debounce.EveryPressIsReported(h, Polled(CameraPlayer(offset, frame, now, input), nows, b), period);
  }

  /** As many presses are reported as the camera has to move if and only if the polls catch up and the first of them
      does not find the stick where it is reported to be already. */
  lemma AllMovesAreReported(offset: Offset, frame: nat, now: int, input: Raw, h: Debounce.Button, nows: seq<nat>,
                            period: Debounce.Period)
    requires offset != 0 && PlaysToTheEnd(offset, frame, now, nows)
    ensures var b := Direction(offset); var samples := Polled(CameraPlayer(offset, frame, now, input), nows, b);
      Debounce.ReportedPresses(h, samples, period) == Magnitude(offset) <==>
        Debounce.CatchesUp(h, samples, period) && !(h.state && FirstDown(input, now, offset, nows[0], b))
  {
    hide Debounce.CatchesUp, PlaysToTheEnd, Debounce.ReportedPresses;
    CameraReachesTheReport(offset, frame, now, input, h, nows, Direction(offset), period);
  }

  // Prompt polls

  /** The polls follow each other, and the activation, within `gap` ticks. */
  ghost predicate Prompt(t0: int, nows: seq<nat>, gap: nat) {
    forall j :: 0 <= j < |nows| ==> Before(t0, nows, j) <= nows[j] <= Before(t0, nows, j) + gap
  }

  function Before(t0: int, nows: seq<nat>, j: nat): int
    requires j < |nows|
  {
    if j == 0 then t0 else nows[j - 1]
  }

  /** Every entry but the last lasts long enough for the debouncing, even if it is polled late. */
  ghost predicate Unhurried(es: seq<Entry>, gap: nat, period: Debounce.Period) {
    forall i :: 0 <= i < |es| - 1 ==> gap + period <= es[i].delay
  }

  /** The poll in the tick of the activation finds what the last macro left, too soon to be reported, and the first
      entry takes it back. */
  predicate StaleMissed(es: seq<Entry>, t0: int, input: Raw, h: Debounce.Button, first: int, b: nat,
                        period: Debounce.Period)
    requires b < COUNT && es != []
  {
    first <= t0 && input[b] != h.state && t0 < h.tick + period && es[0].state[b] == h.state
  }

  /** The time of the last poll, or of the activation. */
  function Last(t0: int, nows: seq<nat>): int {
    if nows == [] then t0 else nows[|nows| - 1]
  }

  /** Nothing is applied yet: all polls so far were in the tick of the activation. */
  ghost predicate NotStarted(t0: int, input: Raw, h: Debounce.Button, nows: seq<nat>, b: nat, period: Debounce.Period,
                             r: Debounce.Button, latest: bool)
    requires b < COUNT
  {
    if nows == [] then r == h && latest == h.state
    else nows[0] == nows[|nows| - 1] == t0 && latest == input[b] && r == Debounce.Next(h, input[b], t0, period)
  }

  /** After a poll at `prev`, with entry `k` not overdue: the entry before it is reported, or it is too soon for that
      but will not be when `k` is due. */
  ghost predicate OnTime(es: seq<Entry>, t0: int, b: nat, period: Debounce.Period, prev: int, k: nat,
                         r: Debounce.Button, latest: bool)
    requires b < COUNT && 0 < k < |es|
  {
    && prev <= Due(es, t0, k) && r.tick <= prev
    && (r.state == latest || (r.tick <= Due(es, t0, k - 1) && prev < r.tick + period))
  }

  /** With `k` entries applied, no change was missed but a stale one. */
  ghost predicate Accounted(es: seq<Entry>, t0: int, input: Raw, h: Debounce.Button, nows: seq<nat>, b: nat,
                            period: Debounce.Period, k: nat, r: Debounce.Button, latest: bool, missed: nat)
    requires b < COUNT && k <= |es| && k <= |nows|
  {
    if k == 0 then missed == 0 && (es != [] ==> NotStarted(t0, input, h, nows, b, period, r, latest))
    else
      && missed == (if StaleMissed(es, t0, input, h, nows[0], b, period) then 1 else 0)
      && latest == es[k - 1].state[b] && (k < |es| ==> OnTime(es, t0, b, period, Last(t0, nows), k, r, latest))
  }

  lemma FirstApplied(es: seq<Entry>, t0: int, input: Raw, h: Debounce.Button, nows: seq<nat>, now: nat, gap: nat,
                     b: nat, period: Debounce.Period, r: Debounce.Button, latest: bool)
    requires b < COUNT && es != [] && Unhurried(es, gap, period) && h.tick <= t0 < now <= t0 + gap
    requires NotStarted(t0, input, h, nows, b, period, r, latest)
    ensures var raw := es[0].state[b];
      Accounted(es, t0, input, h, nows + [now], b, period, 1, Debounce.Next(r, raw, now, period), raw,
                if raw != latest && r.state != latest then 1 else 0)
  {
    var all := nows + [now];
    assert Last(t0, all) == now && all[0] == if nows == [] then now else nows[0];
    if |es| > 1 {
      assert Due(es, t0, 1) == t0 + es[0].delay && Due(es, t0, 0) == t0;
    }
  }

  lemma NextApplied(es: seq<Entry>, t0: int, input: Raw, h: Debounce.Button, nows: seq<nat>, now: nat, gap: nat, b: nat,
                    period: Debounce.Period, k: nat, r: Debounce.Button, latest: bool, missed: nat)
    requires b < COUNT && 0 < k < |es| && k <= |nows| && Unhurried(es, gap, period)
    requires Accounted(es, t0, input, h, nows, b, period, k, r, latest, missed)
    requires Due(es, t0, k) < now <= Last(t0, nows) + gap
    ensures r.state == latest
    ensures var raw := es[k].state[b];
      Accounted(es, t0, input, h, nows + [now], b, period, k + 1, Debounce.Next(r, raw, now, period), raw, missed)
  {
    assert Due(es, t0, k) == Due(es, t0, k - 1) + es[k - 1].delay;
    if k + 1 < |es| {
      assert Due(es, t0, k + 1) == Due(es, t0, k) + es[k].delay;
    }
  }

  lemma ShownAgain(es: seq<Entry>, t0: int, input: Raw, h: Debounce.Button, nows: seq<nat>, now: nat, b: nat,
                   period: Debounce.Period, k: nat, r: Debounce.Button, latest: bool, missed: nat)
    requires b < COUNT && k < |es| && k <= |nows| && h.tick <= t0
    requires Accounted(es, t0, input, h, nows, b, period, k, r, latest, missed)
    requires Last(t0, nows) <= now <= Due(es, t0, k)
    ensures var raw := Shown(es, input, k)[b];
      && !(raw != latest && r.state != latest)
      && Accounted(es, t0, input, h, nows + [now], b, period, k, Debounce.Next(r, raw, now, period), raw, missed)
  {
  }

  /** What is missed of any macro, after any polls. */
  ghost predicate AllAccounted(es: seq<Entry>, t0: int, input: Raw, h: Debounce.Button, nows: seq<nat>, b: nat,
                               period: Debounce.Period)
    requires b < COUNT
  {
    var polled := Polled(Player(es, t0, input), nows, b);
    Accounted(es, t0, input, h, nows, b, period, Applied(es, t0, nows), Debounce.Run(h, polled, period),
              Debounce.Latest(h, polled), Debounce.Missed(h, polled, period))
  }

  /** If entries last a period longer than polls are apart, no change of the raw input is missed but a stale one. */
  lemma {:induction false} PromptPollsMissNothing(es: seq<Entry>, t0: int, gap: nat, input: Raw, h: Debounce.Button,
                                                  nows: seq<nat>, b: nat, period: Debounce.Period)
    requires b < COUNT && Unhurried(es, gap, period) && Prompt(t0, nows, gap) && h.tick <= t0
    ensures AllAccounted(es, t0, input, h, nows, b, period)
  {
    if nows == [] {
      assert Applied(es, t0, []) == 0 && Polled(Player(es, t0, input), [], b) == [];
    } else {
      var n := |nows| - 1;
      var before, now := nows[..n], nows[n];
      assert Prompt(t0, before, gap) by {
        forall j | 0 <= j < n ensures Before(t0, before, j) <= before[j] <= Before(t0, before, j) + gap {
          assert Before(t0, before, j) == Before(t0, nows, j);
        }
      }
      PromptPollsMissNothing(es, t0, gap, input, h, before, b, period);
      assert Before(t0, nows, n) == Last(t0, before);
      assert nows == before + [now];
      hide Prompt;
      PollAccounted(es, t0, gap, input, h, before, now, b, period);
    }
  }

  lemma PollAccounted(es: seq<Entry>, t0: int, gap: nat, input: Raw, h: Debounce.Button, nows: seq<nat>, now: nat,
                      b: nat, period: Debounce.Period)
    requires b < COUNT && Unhurried(es, gap, period) && AllAccounted(es, t0, input, h, nows, b, period)
    requires Last(t0, nows) <= now <= Last(t0, nows) + gap && h.tick <= t0
    ensures AllAccounted(es, t0, input, h, nows + [now], b, period)
  {
    hide Applied, Polled, Debounce.Run, Debounce.Missed, Debounce.Latest, Unhurried;
    PollEffect(es, t0, input, nows, now, b);
    var k, polled := Applied(es, t0, nows), Polled(Player(es, t0, input), nows, b);
    var r, latest := Debounce.Run(h, polled, period), Debounce.Latest(h, polled);
    var missed := Debounce.Missed(h, polled, period);
    if k < |es| {
      var k' := if Due(es, t0, k) < now then k + 1 else k;
      SampleAdds(h, polled, Debounce.Sample(Shown(es, input, k')[b], now), period);
      if k == k' {
        ShownAgain(es, t0, input, h, nows, now, b, period, k, r, latest, missed);
      } else if k == 0 {
        FirstApplied(es, t0, input, h, nows, now, gap, b, period, r, latest);
      } else {
        NextApplied(es, t0, input, h, nows, now, gap, b, period, k, r, latest, missed);
      }
    } else {
      assert polled + [] == polled;
    }
  }

  /** What one more poll adds. */
  lemma PollEffect(es: seq<Entry>, t0: int, input: Raw, nows: seq<nat>, now: nat, b: nat)
    requires b < COUNT
    ensures var p, all, k := Player(es, t0, input), nows + [now], Applied(es, t0, nows);
      var k' := if k < |es| && Due(es, t0, k) < now then k + 1 else k;
      && Applied(es, t0, all) == k' && Last(t0, all) == now
      && Polled(p, all, b)
         == Polled(p, nows, b) + if k < |es| then [Debounce.Sample(Shown(es, input, k')[b], now)] else []
  {
    assert (nows + [now])[..|nows|] == nows;
    Fidelity(es, t0, input, nows);
    PolledSnoc(Player(es, t0, input), nows, now, b);
  }

  lemma SampleAdds(h: Debounce.Button, polled: seq<Debounce.Sample>, x: Debounce.Sample, period: Debounce.Period)
    ensures var r, latest, all := Debounce.Run(h, polled, period), Debounce.Latest(h, polled), polled + [x];
      && Debounce.Run(h, all, period) == Debounce.Next(r, x.raw, x.now, period) && Debounce.Latest(h, all) == x.raw
      && Debounce.Missed(h, all, period)
         == Debounce.Missed(h, polled, period) + if x.raw != latest && r.state != latest then 1 else 0
  {
    assert (polled + [x])[..|polled|] == polled;
  }

  /** The stick is reported in the direction of the camera, and still is when the first step is applied. */
  predicate HeldOver(h: Debounce.Button, input: Raw, now: int, offset: Offset, first: int, period: Debounce.Period) {
    h.state && (now < first || input[Direction(offset)] || now < h.tick + period)
  }

  /** The poll in the tick of the activation reports a press that the last macro left. */
  predicate StaleReported(h: Debounce.Button, input: Raw, now: int, first: int, b: nat, period: Debounce.Period)
    requires b < COUNT
  {
    first <= now && input[b] && !h.state && h.tick + period <= now
  }

  /**
   * If the polls are never more than `gap` ticks apart, where a frame is a debounce period longer than that, then
   * exactly the moves of the camera are reported, but for the first if the stick is held over; and of any other button
   * at most a stale press.
   */
  lemma PromptPollsMoveTheCamera(offset: Offset, frame: nat, now: int, gap: nat, input: Raw, h: Debounce.Button,
                                 nows: seq<nat>, b: nat, period: Debounce.Period)
    requires b < COUNT && PlaysToTheEnd(offset, frame, now, nows)
    requires gap + period <= frame && Prompt(now, nows, gap) && h.tick <= now
    ensures Debounce.ReportedPresses(h, Polled(CameraPlayer(offset, frame, now, input), nows, b), period)
            == if offset != 0 && b == Direction(offset) then
                 Magnitude(offset) - if HeldOver(h, input, now, offset, nows[0], period) then 1 else 0
               else if StaleReported(h, input, now, nows[0], b, period) then 1 else 0
  {
    var es := Macro(Direction(offset), Magnitude(offset), frame);
    var polled := Polled(CameraPlayer(offset, frame, now, input), nows, b);
    CameraPolled(offset, frame, now, input, h, nows, b);
    MacroIsUnhurried(Direction(offset), Magnitude(offset), frame, gap, period);
    PromptPollsMissNothing(es, now, gap, input, h, nows, b, period);
    Debounce.PressesReportedOrMissed(h, polled, period);
    FirstEntry(Direction(offset), Magnitude(offset), frame);
    hide Unhurried, Prompt, Applied, Polled, Steps, Debounce.Presses, Debounce.ReportedPresses, Debounce.Missed;
    assert es[|es| - 1].state == AllUp();
  }

  lemma {:induction false} MacroIsUnhurried(button: nat, count: nat, frame: nat, gap: nat, period: Debounce.Period)
    requires button < COUNT && gap + period <= frame
    ensures forall e :: e in Steps(button, count, frame) ==> e.delay == frame
    ensures Unhurried(Macro(button, count, frame), gap, period)
  {
    if count > 0 {
      MacroIsUnhurried(button, count - 1, frame, gap, period);
    }
    var steps := Steps(button, count, frame);
    forall i | 0 <= i < |Macro(button, count, frame)| - 1 ensures gap + period <= Macro(button, count, frame)[i].delay {
      assert steps[i] in steps;
    }
  }

  /** A camera macro of one move, polled promptly while the stick is held in its direction: nothing is reported. */
  lemma HeldStickLosesTheMove(input: Raw)
    ensures var nows, h := [10001, 10900, 11100, 11900, 12200], Debounce.Button(true, 9000);
      && PlaysToTheEnd(1, 1093, 10000, nows) && Prompt(10000, nows, 1093 - 164)
      && Debounce.ReportedPresses(h, Polled(CameraPlayer(1, 1093, 10000, input), nows, STICK_UP), 164) == 0
  {
    var nows: seq<nat> := [10001, 10900, 11100, 11900, 12200];
    OneMovePlays(nows);
    PromptPollsMoveTheCamera(1, 1093, 10000, 1093 - 164, input, Debounce.Button(true, 9000), nows, STICK_UP, 164);
  }

  lemma OneMovePlays(nows: seq<nat>)
    requires nows == [10001, 10900, 11100, 11900, 12200]
    ensures PlaysToTheEnd(1, 1093, 10000, nows)
  {
    var down, up := Entry(Only(STICK_UP), 1093), Entry(AllUp(), 1093);
    var es := Macro(STICK_UP, 1, 1093);
    assert Steps(STICK_UP, 0, 1093) == [];
    assert es == [down, up, Entry(AllUp(), 0)];
    hide Macro, Steps, Only, AllUp;
    assert Due(es, 10000, 1) == 11093 && Due(es, 10000, 2) == 12186;
    assert nows[..1][..0] == [] && nows[..2][..1] == nows[..1] && nows[..3][..2] == nows[..2];
    assert nows[..4][..3] == nows[..3] && nows[..5][..4] == nows[..4] && nows[..5] == nows;
    assert Applied(es, 10000, nows[..1]) == 1;
    assert Applied(es, 10000, nows[..2]) == 1;
    assert Applied(es, 10000, nows[..3]) == 2;
    assert Applied(es, 10000, nows[..4]) == 2;
  }

  // Late polls

  /** After the polls at `nows` the player is `q`, and `r` is reported, after `n` presses. */
  ghost predicate Reached(p: Player, b: nat, period: Debounce.Period, nows: seq<nat>, q: Player, r: Debounce.Button,
                          n: nat)
    requires b < COUNT
  {
    var polled := Polled(p, nows, b);
    && Polls(p, nows) == q && Debounce.Run(Debounce.RELEASED, polled, period) == r
    && Debounce.ReportedPresses(Debounce.RELEASED, polled, period) == n
  }

  lemma ReachedNext(p: Player, b: nat, period: Debounce.Period, nows: seq<nat>, q: Player, r: Debounce.Button, n: nat,
                    now: nat)
    requires b < COUNT && Reached(p, b, period, nows, q, r, n) && q.rest != [] && q.nextTick < now
    ensures var s := Debounce.Next(r, q.rest[0].state[b], now, period);
      Reached(p, b, period, nows + [now], Player(q.rest[1..], q.nextTick + q.rest[0].delay, q.rest[0].state), s,
              n + if s.state && !r.state then 1 else 0)
  {
    PolledSnoc(p, nows, now, b);
    var polled := Polled(p, nows, b);
    var x := Debounce.Sample(q.rest[0].state[b], now);
    assert (polled + [x])[..|polled|] == polled;
  }

  /** The raw input of a macro of two moves, polled once in time and then late: it plays to the end, and one of the
      moves is lost. */
  lemma LatePollsLoseAPress(input: Raw)
    ensures var nows := [10001, 20000, 20033, 20066, 20099];
      && PlaysToTheEnd(2, 1093, 10000, nows)
      && Debounce.ReportedPresses(Debounce.RELEASED, Polled(CameraPlayer(2, 1093, 10000, input), nows, STICK_UP), 164)
         == 1
  {
    var p, b := CameraPlayer(2, 1093, 10000, input), STICK_UP;
    var down, up, end := Entry(Only(b), 1093), Entry(AllUp(), 1093), Entry(AllUp(), 0);
    MacroOfTwo(b, 1093);
    assert Reached(p, b, 164, [], p, Debounce.RELEASED, 0);
    LatePolls(p, b, input);
    assert [] + [10001] + [20000] + [20033] + [20066] + [20099] == [10001, 20000, 20033, 20066, 20099] by {
      hide *;
    }
    OverWhenEmpty(2, 1093, 10000, input, [10001, 20000, 20033, 20066, 20099]);
  }

  lemma LatePolls(p: Player, b: nat, input: Raw)
    requires b < COUNT && Reached(p, b, 164, [], p, Debounce.RELEASED, 0)
    requires var down, up := Entry(Only(b), 1093), Entry(AllUp(), 1093);
      p == Player([down, up, down, up, Entry(AllUp(), 0)], 10000, input)
    ensures exists q, r ::
      Reached(p, b, 164, [] + [10001] + [20000] + [20033] + [20066] + [20099], q, r, 1) && q.rest == []
  {
    var down, up, end := Entry(Only(b), 1093), Entry(AllUp(), 1093), Entry(AllUp(), 0);
    var q := Player([up, down, up, end], 11093, down.state);
    assert down.state[b] && !up.state[b] && !end.state[b];
    hide Reached, Only, AllUp;
    assert p.rest[1..] == q.rest;
    ReachedNext(p, b, 164, [], p, Debounce.RELEASED, 0, 10001);
    assert Reached(p, b, 164, [] + [10001], q, Debounce.Button(true, 10001), 1);
    LastFour(p, b, [] + [10001], q, down, up, end);
  }

  /** Too soon after the first release to be reported, the second press passes. */
  lemma LastFour(p: Player, b: nat, n1: seq<nat>, q: Player, down: Entry, up: Entry, end: Entry)
    requires b < COUNT && Reached(p, b, 164, n1, q, Debounce.Button(true, 10001), 1)
    requires down.state[b] && !up.state[b] && !end.state[b] && down.delay == up.delay == 1093
    requires q.rest == [up, down, up, end] && q.nextTick == 11093
    ensures exists q', r :: Reached(p, b, 164, n1 + [20000] + [20033] + [20066] + [20099], q', r, 1) && q'.rest == []
  {
    hide Reached;
    var r := Debounce.Button(false, 20000);
    var q2, q3 := Player([down, up, end], 12186, up.state), Player([up, end], 13279, down.state);
    var n2 := n1 + [20000];
    ReachedNext(p, b, 164, n1, q, Debounce.Button(true, 10001), 1, 20000);
    assert Reached(p, b, 164, n2, q2, r, 1);
    ReachedNext(p, b, 164, n2, q2, r, 1, 20033);
    assert Reached(p, b, 164, n2 + [20033], q3, r, 1);
    LastTwo(p, b, n2 + [20033], q3, r, up, end);
  }

  lemma LastTwo(p: Player, b: nat, n3: seq<nat>, q: Player, r: Debounce.Button, up: Entry, end: Entry)
    requires b < COUNT && Reached(p, b, 164, n3, q, r, 1) && !r.state && !up.state[b] && !end.state[b]
    requires q.rest == [up, end] && q.nextTick == 13279 && up.delay == 1093
    ensures exists q' :: Reached(p, b, 164, n3 + [20066] + [20099], q', r, 1) && q'.rest == []
  {
    hide Reached;
    var q4, q5 := Player([end], 14372, up.state), Player([], 14372 + end.delay, end.state);
    ReachedNext(p, b, 164, n3, q, r, 1, 20066);
    assert q.rest[1..] == q4.rest && q4.rest[1..] == q5.rest;
    assert Reached(p, b, 164, n3 + [20066], q4, r, 1);
    ReachedNext(p, b, 164, n3 + [20066], q4, r, 1, 20099);
    assert Reached(p, b, 164, n3 + [20066] + [20099], q5, r, 1);
  }

  lemma MacroOfTwo(button: nat, frame: nat)
    requires button < COUNT
    ensures var down, up := Entry(Only(button), frame), Entry(AllUp(), frame);
            Macro(button, 2, frame) == [down, up, down, up, Entry(AllUp(), 0)]
  {
    var down, up := Entry(Only(button), frame), Entry(AllUp(), frame);
    assert Steps(button, 0, frame) == [];
    assert Steps(button, 1, frame) == [down, up];
    assert Steps(button, 2, frame) == [down, up, down, up];
  }

  lemma OverWhenEmpty(offset: Offset, frame: nat, now: int, input: Raw, nows: seq<nat>)
    requires Polls(CameraPlayer(offset, frame, now, input), nows).rest == []
    ensures PlaysToTheEnd(offset, frame, now, nows)
  {
    Fidelity(Macro(Direction(offset), Magnitude(offset), frame), now, input, nows);
  }
}
