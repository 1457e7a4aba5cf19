/** Timed playback of a macro: what polling a queued chain yields, for any poll times. */
module Playback {
  import opened Options
  import opened Buttons

  datatype Entry = Entry(state: Raw, delay: nat)

  /** `rest` has not been applied yet; `input` is what was applied last, perhaps from an earlier macro. */
  datatype Player = Player(rest: seq<Entry>, nextTick: int, input: Raw)

  function Poll(p: Player, now: int): Player {
    if p.rest != [] && p.nextTick < now then
      Player(p.rest[1..], p.nextTick + p.rest[0].delay, p.rest[0].state)
    else p
  }

  /** What a poll answers; nothing once the macro is over, even in the poll right after its last entry. */
  function Answer(p: Player, now: int): Option<Raw> {
    if p.rest == [] then None else Some(Poll(p, now).input)
  }

  function Polls(p: Player, nows: seq<int>): Player {
    if nows == [] then p else Poll(Polls(p, nows[..|nows| - 1]), nows[|nows| - 1])
  }

  function Answers(p: Player, nows: seq<int>): (r: seq<Option<Raw>>)
    ensures |r| == |nows|
  {
    if nows == [] then []
    else Answers(p, nows[..|nows| - 1]) + [Answer(Polls(p, nows[..|nows| - 1]), nows[|nows| - 1])]
  }

  /** The earliest tick entry `i` may be applied after: the activation plus all delays before it. */
  function Due(es: seq<Entry>, t0: int, i: nat): int
    requires i <= |es|
  {
    if i == 0 then t0 else Due(es, t0, i - 1) + es[i - 1].delay
  }

  /** How many entries are applied after polls at `nows`: at most one per poll, in order, each at the first
      poll that is both after its predecessor's and strictly later than its due time. */
  function Applied(es: seq<Entry>, t0: int, nows: seq<int>): (k: nat)
    ensures k <= |es| && k <= |nows|
  {
    if nows == [] then 0
    else
      var k := Applied(es, t0, nows[..|nows| - 1]);
      if k < |es| && Due(es, t0, k) < nows[|nows| - 1] then k + 1 else k
  }

  function Shown(es: seq<Entry>, input: Raw, k: nat): Raw
    requires k <= |es|
  {
    if k == 0 then input else es[k - 1].state
  }

  /** The player is determined by the number of entries applied, and by nothing else of the past. */
  lemma {:induction false} Fidelity(es: seq<Entry>, t0: int, input: Raw, nows: seq<int>)
    ensures var k := Applied(es, t0, nows);
      Polls(Player(es, t0, input), nows) == Player(es[k..], Due(es, t0, k), Shown(es, input, k))
  {
    if nows == [] {
      assert es[0..] == es;
    } else {
      Fidelity(es, t0, input, nows[..|nows| - 1]);
    }
  }

  /** Poll `j` applies and answers the next entry if it is due, and otherwise repeats the last one applied. */
  lemma {:induction false} EachAnswer(es: seq<Entry>, t0: int, input: Raw, nows: seq<int>, j: nat)
    requires j < |nows|
    ensures var k, k' := Applied(es, t0, nows[..j]), Applied(es, t0, nows[..j + 1]);
      && (k' == k + 1 <==> k < |es| && Due(es, t0, k) < nows[j]) && (k' == k || k' == k + 1)
      && Answers(Player(es, t0, input), nows)[j] == if k < |es| then Some(Shown(es, input, k')) else None
  {
    var n := |nows| - 1;
    assert nows[..j + 1][..j] == nows[..j];
    if j < n {
      assert nows[..n][..j] == nows[..j] && nows[..n][..j + 1] == nows[..j + 1];
      EachAnswer(es, t0, input, nows[..n], j);
    } else {
      assert nows[..j + 1] == nows;
      Fidelity(es, t0, input, nows[..j]);
    }
  }

  lemma {:induction false} AppliedGrows(es: seq<Entry>, t0: int, nows: seq<int>, j: nat)
    requires j <= |nows|
    ensures Applied(es, t0, nows[..j]) <= Applied(es, t0, nows)
  {
    var n := |nows| - 1;
    if j <= n {
      assert nows[..n][..j] == nows[..j];
      AppliedGrows(es, t0, nows[..n], j);
    } else {
      assert nows[..j] == nows;
    }
  }

  ghost predicate AppliesAt(es: seq<Entry>, t0: int, nows: seq<int>, i: nat, j: nat) {
    j < |nows| && Applied(es, t0, nows[..j]) == i && Applied(es, t0, nows[..j + 1]) == i + 1
  }

  lemma AppliesAtOnce(es: seq<Entry>, t0: int, nows: seq<int>, i: nat, j: nat, j': nat)
    requires AppliesAt(es, t0, nows, i, j) && j < j'
    ensures !AppliesAt(es, t0, nows, i, j')
  {
    if j' < |nows| {
      assert nows[..j'][..j + 1] == nows[..j + 1];
      AppliedGrows(es, t0, nows[..j'], j + 1);
    }
  }

  lemma {:induction false} SomePollApplies(es: seq<Entry>, t0: int, nows: seq<int>, i: nat) returns (j: nat)
    requires i < Applied(es, t0, nows)
    ensures AppliesAt(es, t0, nows, i, j)
  {
    var n := |nows| - 1;
    if i < Applied(es, t0, nows[..n]) {
      j := SomePollApplies(es, t0, nows[..n], i);
      assert nows[..n][..j] == nows[..j] && nows[..n][..j + 1] == nows[..j + 1];
    } else {
      j := n;
      assert nows[..n + 1] == nows;
    }
  }

  /** Every entry that is applied is applied by exactly one poll, which is late enough and answers it. */
  lemma EachEntryOnce(es: seq<Entry>, t0: int, input: Raw, nows: seq<int>, i: nat) returns (j: nat)
    requires i < Applied(es, t0, nows)
    ensures AppliesAt(es, t0, nows, i, j) && forall j': nat :: AppliesAt(es, t0, nows, i, j') ==> j' == j
    ensures Due(es, t0, i) < nows[j] && Answers(Player(es, t0, input), nows)[j] == Some(es[i].state)
  {
    j := SomePollApplies(es, t0, nows, i);
    EachAnswer(es, t0, input, nows, j);
    forall j': nat | AppliesAt(es, t0, nows, i, j') ensures j' == j {
      if j < j' {
        AppliesAtOnce(es, t0, nows, i, j, j');
      } else if j' < j {
        AppliesAtOnce(es, t0, nows, i, j', j);
      }
    }
  }

  lemma {:induction false} DueGrows(es: seq<Entry>, t0: int, i: nat, j: nat)
    requires i <= j <= |es|
    ensures Due(es, t0, i) <= Due(es, t0, j)
    decreases j
  {
    if i < j {
      DueGrows(es, t0, i, j - 1);
    }
  }

  /** Once as many polls as there are entries have come after the last due time, the macro is over. */
  lemma {:induction false} PlaysOut(es: seq<Entry>, t0: int, nows: seq<int>, m: nat)
    requires m <= |nows| && (forall j :: m <= j < |nows| ==> es != [] ==> Due(es, t0, |es| - 1) < nows[j])
    ensures Applied(es, t0, nows) >= if |nows| - m <= |es| then |nows| - m else |es|
  {
    var n := |nows| - 1;
    if m <= n {
      PlaysOut(es, t0, nows[..n], m);
      var k := Applied(es, t0, nows[..n]);
      if k < |es| {
        DueGrows(es, t0, k, |es| - 1);
      }
    }
  }

  // Button presses that the host sees

  /** How often button `b` goes down in a sequence of samples, `down` before the first. */
  function Presses(down: bool, samples: seq<Raw>, b: nat): nat
    requires b < COUNT
  {
    if samples == [] then 0
    else
      var n := |samples| - 1;
      Presses(down, samples[..n], b)
      + if samples[n][b] && !(if n == 0 then down else samples[n - 1][b]) then 1 else 0
  }

  function Samples(answers: seq<Option<Raw>>): seq<Raw> {
    if answers == [] then []
    else
      var last := answers[|answers| - 1];
      Samples(answers[..|answers| - 1]) + if last.Some? then [last.value] else []
  }

  function States(es: seq<Entry>): (r: seq<Raw>)
    ensures |r| == |es| && forall i :: 0 <= i < |es| ==> r[i] == es[i].state
  {
    seq(|es|, i requires 0 <= i < |es| => es[i].state)
  }

  lemma PressesSnoc(down: bool, samples: seq<Raw>, x: Raw, b: nat)
    requires b < COUNT
    ensures var last := if samples == [] then down else samples[|samples| - 1][b];
      Presses(down, samples + [x], b) == Presses(down, samples, b) + if x[b] && !last then 1 else 0
  {
    assert (samples + [x])[..|samples|] == samples;
  }

  lemma SamplesSnoc(answers: seq<Option<Raw>>, a: Option<Raw>)
    ensures Samples(answers + [a]) == Samples(answers) + if a.Some? then [a.value] else []
  {
    assert (answers + [a])[..|answers|] == answers;
  }

  /** `samples` press button `b` as often as the first `k` entries do, and end with what those end with. */
  ghost predicate SamePresses(es: seq<Entry>, input: Raw, samples: seq<Raw>, k: nat, b: nat)
    requires b < COUNT && k <= |es|
  {
    && Presses(input[b], samples, b) == Presses(input[b], States(es[..k]), b)
    && (if samples == [] then k == 0 else samples[|samples| - 1] == Shown(es, input, k))
  }

  lemma ShowAgain(es: seq<Entry>, input: Raw, samples: seq<Raw>, k: nat, b: nat)
    requires b < COUNT && k <= |es| && SamePresses(es, input, samples, k, b)
    ensures SamePresses(es, input, samples + [Shown(es, input, k)], k, b)
  {
    hide Presses;
    PressesSnoc(input[b], samples, Shown(es, input, k), b);
  }

  lemma ShowNext(es: seq<Entry>, input: Raw, samples: seq<Raw>, k: nat, b: nat)
    requires b < COUNT && k < |es| && SamePresses(es, input, samples, k, b)
    ensures SamePresses(es, input, samples + [es[k].state], k + 1, b)
  {
    hide Presses;
    PressesSnoc(input[b], samples, es[k].state, b);
    assert States(es[..k + 1]) == States(es[..k]) + [es[k].state];
    PressesSnoc(input[b], States(es[..k]), es[k].state, b);
  }

  /** However often it is polled, a macro presses a button exactly as often as its entries applied so far do. */
  lemma {:induction false} PollingAddsNoPresses(es: seq<Entry>, t0: int, input: Raw, nows: seq<int>, b: nat)
    requires b < COUNT
    ensures SamePresses(es, input, Samples(Answers(Player(es, t0, input), nows)), Applied(es, t0, nows), b)
  {
    hide Presses, Due;
    if nows != [] {
      var n := |nows| - 1;
      var p, k := Player(es, t0, input), Applied(es, t0, nows[..n]);
      var samples := Samples(Answers(p, nows[..n]));
      PollingAddsNoPresses(es, t0, input, nows[..n], b);
      Fidelity(es, t0, input, nows[..n]);
      SamplesSnoc(Answers(p, nows[..n]), Answer(Polls(p, nows[..n]), nows[n]));
      if k == |es| {
        assert samples + [] == samples;
      } else if Due(es, t0, k) < nows[n] {
        ShowNext(es, input, samples, k, b);
      } else {
        ShowAgain(es, input, samples, k, b);
      }
    }
  }

  /** The first sample is already the first entry unless that poll was in the tick of the activation or before. */
  lemma {:induction false} FirstSample(es: seq<Entry>, t0: int, input: Raw, nows: seq<int>)
    requires es != [] && nows != []
    ensures var samples := Samples(Answers(Player(es, t0, input), nows));
      samples != [] && samples[0] == if t0 < nows[0] then es[0].state else input
  {
    var n := |nows| - 1;
    var p := Player(es, t0, input);
    SamplesSnoc(Answers(p, nows[..n]), Answer(Polls(p, nows[..n]), nows[n]));
    if n > 0 {
      FirstSample(es, t0, input, nows[..n]);
    } else {
      assert Samples([]) == [];
    }
  }

  /** Starting with the button up makes a press of a first sample that is down. */
  lemma {:induction false} PressesFromUp(samples: seq<Raw>, b: nat)
    requires b < COUNT
    ensures Presses(false, samples, b)
            == Presses(true, samples, b) + if samples != [] && samples[0][b] then 1 else 0
  {
    if samples != [] {
      PressesFromUp(samples[..|samples| - 1], b);
    }
  }
}
