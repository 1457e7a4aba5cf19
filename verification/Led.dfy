/** Flashing lights, and setting a light in a way that can be undone. */
module Led {
  import opened Arithmetic
  import opened Options

  const WRAP: nat := 0x1_0000_0000

  /** What reaches the pin. */
  datatype PinOp = Drive(value: bool) | Toggle

  /** `pending`: the timer of this light is running. `trace` is all that ever reached its pin. */
  datatype State = State(initialized: bool, on: bool, flashing: bool, pending: bool, counter: nat,
                         duration: nat, interval: nat, trace: seq<PinOp>)

  /** Sets the light, unconditionally or only if the counter is still what it was; starts to flash; the timer fires. */
  datatype Op = Set(value: bool, expected: Option<nat>) | Flash(duration: nat, interval: nat) | Timer

  function Emit(s: State, op: PinOp): State {
    if s.initialized then s.(trace := s.trace + [op]) else s
  }

  function Schedule(s: State): State {
    if s.initialized then s.(pending := true) else s
  }

  /** `led_update` */
  function Update(s: State): State {
    if !s.flashing then Emit(s, Drive(s.on))
    else if s.interval > s.duration then Emit(s, Drive(s.on)).(interval := 0, duration := 0, flashing := false)
    else Schedule(Emit(s, Toggle).(duration := s.duration - s.interval))
  }

  predicate Refused(s: State, op: Op) {
    op.Set? && op.expected.Some? && op.expected.value != s.counter
  }

  function Step(s: State, op: Op): State {
    match op
    case Set(value, expected) =>
      if Refused(s, op) then s
      else
        var t := s.(on := value);
        var u := if t.flashing then t else Update(t);
        if expected.Some? then u else u.(counter := (u.counter + 1) % WRAP)
    case Flash(duration, interval) => Schedule(s.(flashing := true, duration := duration, interval := interval))
    case Timer => if s.pending then Update(s.(pending := false)) else s
  }

  function Run(s: State, ops: seq<Op>): State {
    if ops == [] then s else Step(Run(s, ops[..|ops| - 1]), ops[|ops| - 1])
  }

  function Dark(initialized: bool): State {
    State(initialized, false, false, false, 0, 0, 0, [])
  }

  /** The level of a pin that starts low. */
  function Level(trace: seq<PinOp>): bool {
    if trace == [] then false
    else
      match trace[|trace| - 1]
      case Drive(value) => value
      case Toggle => !Level(trace[..|trace| - 1])
  }

  lemma LevelSnoc(trace: seq<PinOp>, op: PinOp)
    ensures Level(trace + [op]) == if op.Drive? then op.value else !Level(trace)
  {
    assert (trace + [op])[..|trace|] == trace;
  }

  ghost predicate Inv(s: State) {
    && s.counter < WRAP
    && (s.pending <==> s.flashing && s.initialized)
    && (s.initialized && !s.flashing ==> Level(s.trace) == s.on)
  }

  lemma {:induction false} InitializedStays(s: State, ops: seq<Op>)
    ensures Run(s, ops).initialized == s.initialized
  {
    if ops != [] {
      InitializedStays(s, ops[..|ops| - 1]);
    }
  }

  /** The last setting that was not refused. */
  function LastSet(s: State, ops: seq<Op>): bool {
    if ops == [] then s.on
    else
      var op, before := ops[|ops| - 1], ops[..|ops| - 1];
      if op.Set? && !Refused(Run(s, before), op) then op.value else LastSet(s, before)
  }

  /** Whenever a light does not flash, it shows what it was last set to; conditional settings that came too late do not
      count. */
  lemma {:induction false} SteadyShowsSetting(initialized: bool, ops: seq<Op>)
    ensures var t := Run(Dark(initialized), ops);
      Inv(t) && t.on == LastSet(Dark(initialized), ops)
      && (initialized && !t.flashing ==> Level(t.trace) == LastSet(Dark(initialized), ops))
  {
    InitializedStays(Dark(initialized), ops);
    if ops != [] {
      var s := Run(Dark(initialized), ops[..|ops| - 1]);
      SteadyShowsSetting(initialized, ops[..|ops| - 1]);
      forall op ensures Level(s.trace + [op]) == if op.Drive? then op.value else !Level(s.trace) {
        LevelSnoc(s.trace, op);
      }
    }
  }

  // Flashing

  function Count(ops: seq<Op>): nat {
    if ops == [] then 0 else Count(ops[..|ops| - 1]) + if ops[|ops| - 1].Timer? then 1 else 0
  }

  function Toggles(trace: seq<PinOp>): nat {
    if trace == [] then 0 else Toggles(trace[..|trace| - 1]) + if trace[|trace| - 1].Toggle? then 1 else 0
  }

  lemma TogglesSnoc(trace: seq<PinOp>, op: PinOp)
    ensures Toggles(trace + [op]) == Toggles(trace) + if op.Toggle? then 1 else 0
  {
    assert (trace + [op])[..|trace|] == trace;
  }

  /** A flash of `d` ticks at an interval of `i`, after the timer has fired `n` times. */
  ghost predicate Flashing(s: State, t: State, d: nat, i: nat, n: nat) {
    && t.initialized && t.flashing && t.pending && t.interval == i
    && d == t.duration + n * i && Toggles(t.trace) == Toggles(s.trace) + n
  }

  /** A flash is over: the light toggled `q` times since `s`. */
  ghost predicate Steady(s: State, t: State, q: nat) {
    && t.initialized && !t.flashing && !t.pending && Level(t.trace) == t.on
    && Toggles(t.trace) == Toggles(s.trace) + q
  }

  lemma NextFlash(s: State, t: State, d: nat, i: nat, n: nat)
    requires Flashing(s, t, d, i, n) && i <= t.duration
    ensures Flashing(s, Step(t, Timer), d, i, n + 1)
  {
    TogglesSnoc(t.trace, Toggle);
    assert (n + 1) * i == n * i + i;
  }

  /** While it flashes, setting the light does not disturb it. */
  lemma SetWhileFlashing(s: State, t: State, d: nat, i: nat, n: nat, op: Op)
    requires Flashing(s, t, d, i, n) && op.Set?
    ensures Flashing(s, Step(t, op), d, i, n)
  {
  }

  /** The time that is left after `n` intervals is enough for another if and only if `n < d / i`. */
  lemma FitsIffQuotient(rest: nat, d: nat, i: nat, n: nat)
    requires i > 0 && d == rest + n * i
    ensures i <= rest <==> n < d / i
  {
    var q := d / i;
    assert q * i <= d < q * i + i;
    if n < q {
      MulGap(n, q, i);
    } else if q < n {
      MulGap(q, n, i);
    }
  }

  lemma StaysSteady(s: State, t: State, q: nat, op: Op)
    requires Inv(t) && Steady(s, t, q) && !op.Flash?
    ensures Steady(s, Step(t, op), q)
  {
    if op.Set? {
      LevelSnoc(t.trace, Drive(op.value));
      TogglesSnoc(t.trace, Drive(op.value));
    }
  }

  lemma FlashStarts(s: State, d: nat, i: nat)
    requires Inv(s) && s.initialized
    ensures var t := Step(s, Flash(d, i)); Inv(t) && Flashing(s, t, d, i, 0)
  {
  }

  lemma FlashIsOver(s: State, t: State, d: nat, i: nat, n: nat)
    requires Flashing(s, t, d, i, n) && i > t.duration
    ensures Steady(s, Step(t, Timer), n)
  {
    LevelSnoc(t.trace, Drive(t.on));
    TogglesSnoc(t.trace, Drive(t.on));
  }

  lemma FlashStep(s: State, t: State, d: nat, i: nat, n: nat, op: Op)
    requires i > 0 && Inv(t) && !op.Flash?
    requires if n <= d / i then Flashing(s, t, d, i, n) else Steady(s, t, d / i)
    ensures var m := n + if op.Timer? then 1 else 0;
      if m <= d / i then Flashing(s, Step(t, op), d, i, m) else Steady(s, Step(t, op), d / i)
  {
    hide Step, Inv, Steady;
    if n > d / i {
      StaysSteady(s, t, d / i, op);
    } else if op.Set? {
      SetWhileFlashing(s, t, d, i, n, op);
    } else {
      FitsIffQuotient(t.duration, d, i, n);
      if n < d / i {
        NextFlash(s, t, d, i, n);
      } else {
        FlashIsOver(s, t, d, i, n);
      }
    }
  }

  /**
   * A flash toggles the light exactly `duration / interval` times, whatever it is set to meanwhile; the timer
   * event after that ends it, and the light shows what it was last set to.
   */
  lemma {:induction false} FlashEnds(s: State, d: nat, i: nat, ops: seq<Op>)
    requires Inv(s) && s.initialized && i > 0 && forall op :: op in ops ==> !op.Flash?
    ensures var n, t := Count(ops), Run(Step(s, Flash(d, i)), ops);
      Inv(t) && if n <= d / i then Flashing(s, t, d, i, n) else Steady(s, t, d / i)
  {
    hide Step, Inv, Flashing, Steady;
    FlashStarts(s, d, i);
    if ops != [] {
      var m := |ops| - 1;
      FlashEnds(s, d, i, ops[..m]);
      var n, t, op := Count(ops[..m]), Run(Step(s, Flash(d, i)), ops[..m]), ops[m];
      assert op in ops;
      assert Count(ops) == n + if op.Timer? then 1 else 0;
      assert Run(Step(s, Flash(d, i)), ops) == Step(t, op);
      hide *;
      StepKeepsInv(t, op);
      FlashStep(s, t, d, i, n, op);
    }
  }

  lemma StepKeepsInv(s: State, op: Op)
    requires Inv(s)
    ensures Inv(Step(s, op))
  {
    forall p ensures Level(s.trace + [p]) == if p.Drive? then p.value else !Level(s.trace) {
      LevelSnoc(s.trace, p);
    }
  }

  /** A flash with no interval never ends. */
  lemma {:induction false} ZeroIntervalNeverEnds(s: State, d: nat, ops: seq<Op>)
    requires s.initialized && forall op :: op in ops ==> !op.Flash?
    ensures Flashing(s, Run(Step(s, Flash(d, 0)), ops), d, 0, Count(ops))
  {
    if ops != [] {
      var m := |ops| - 1;
      ZeroIntervalNeverEnds(s, d, ops[..m]);
      var t := Run(Step(s, Flash(d, 0)), ops[..m]);
      assert ops[m] in ops;
      if ops[m].Timer? {
        NextFlash(s, t, d, 0, Count(ops[..m]));
      } else {
        SetWhileFlashing(s, t, d, 0, Count(ops[..m]), ops[m]);
      }
    }
  }

  // Undoing

  function UnconditionalSets(ops: seq<Op>): nat {
    if ops == [] then 0
    else
      UnconditionalSets(ops[..|ops| - 1])
      + if ops[|ops| - 1].Set? && ops[|ops| - 1].expected.None? then 1 else 0
  }

  lemma StepCounts(s: State, op: Op)
    requires s.counter < WRAP
    ensures Step(s, op).counter == (s.counter + if op.Set? && op.expected.None? then 1 else 0) % WRAP
  {
  }

  lemma {:induction false} CounterCounts(s: State, ops: seq<Op>)
    requires s.counter < WRAP
    ensures Run(s, ops).counter == (s.counter + UnconditionalSets(ops)) % WRAP
  {
    if ops != [] {
      var n := |ops| - 1;
      CounterCounts(s, ops[..n]);
      StepCounts(Run(s, ops[..n]), ops[n]);
      hide Step;
    }
  }

  /**
   * A setting that is conditional on the counter that an earlier one returned takes effect if and only if the number
   * of unconditional settings in between is a multiple of 2^32, so none in practice.
   */
  lemma UndoOnlyIfUntouched(s: State, value: bool, ops: seq<Op>, undo: bool)
    requires s.counter < WRAP
    ensures var t := Step(s, Set(value, None));
      Refused(Run(t, ops), Set(undo, Some(t.counter))) <==> UnconditionalSets(ops) % WRAP != 0
  {
    var t := Step(s, Set(value, None));
    var k := UnconditionalSets(ops);
    assert t.counter < WRAP;
    CounterCounts(t, ops);
    hide Run, Step, UnconditionalSets;
    BackToTheStart(t.counter, k);
  }

  lemma BackToTheStart(c: nat, k: nat)
    requires c < WRAP
    ensures (c + k) % WRAP == c <==> k % WRAP == 0
  {
  }

  class Light {
    var initialized: bool
    var on: bool
    var flashing: bool
    var pending: bool
    var counter: nat
    var duration: nat
    var interval: nat
    // Stands for the device: everything that was written to the pin.
    ghost var trace: seq<PinOp>

    ghost function GetState(): State
      reads this
    {
      State(initialized, on, flashing, pending, counter, duration, interval, trace)
    }

    constructor (initialized: bool)
      ensures GetState() == Dark(initialized)
    {
      this.initialized := initialized;
      on, flashing, pending, counter, duration, interval, trace := false, false, false, 0, 0, 0, [];
    }

    method ScheduleUpdate()
      modifies this`pending
      ensures GetState() == Schedule(old(GetState()))
    {
      if initialized {
        pending := true;
      }
    }

    ghost method Write(op: PinOp)
      modifies this`trace
      ensures GetState() == Emit(old(GetState()), op)
    {
      if initialized {
        trace := trace + [op];
      }
    }

    /** `led_update` */
    method LedUpdate()
      modifies this
      ensures GetState() == Update(old(GetState()))
    {
      if flashing {
        if interval > duration {
          Write(Drive(on));
          interval, duration := 0, 0;
          flashing := false;
        } else {
          Write(Toggle);
          duration := duration - interval;
          ScheduleUpdate();
        }
      } else {
        Write(Drive(on));
      }
    }

    method TimerFires()
      requires pending
      modifies this
      ensures GetState() == Step(old(GetState()), Timer)
    {
      pending := false;
      LedUpdate();
    }

    /** `led_set`: returns the counter to expect. */
    method LedSet(value: bool, expected: Option<nat>) returns (c: nat)
      modifies this
      ensures GetState() == Step(old(GetState()), Set(value, expected))
      ensures c == counter
    {
      if expected.Some? && expected.value != counter {
        return counter;
      }
      on := value;
      if !flashing {
        LedUpdate();
      }
      if expected.Some? {
        return expected.value;
      }
      counter := (counter + 1) % WRAP;
      return counter;
    }

    method LedFlash(durationTicks: nat, intervalTicks: nat)
      modifies this
      ensures GetState() == Step(old(GetState()), Flash(durationTicks, intervalTicks))
    {
      flashing := true;
      duration := durationTicks;
      interval := intervalTicks;
      ScheduleUpdate();
    }
  }
}
