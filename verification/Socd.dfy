/** Resolving simultaneous opposing cardinal directions. */
module Socd {
  import opened Arithmetic
  import opened Options

  datatype Kind = Positive | Centre | Negative
  {
    function Value(): int {
      match this
      case Positive => 1
      case Centre => 0
      case Negative => -1
    }

    function Mirror(): Kind {
      match this
      case Positive => Negative
      case Centre => Centre
      case Negative => Positive
    }
  }

  datatype Mode = NeutralWins | LastWins | NegativeWins | PositiveWins
  {
    function Mirror(): Mode {
      match this
      case NegativeWins => PositiveWins
      case PositiveWins => NegativeWins
      case _ => this
    }
  }

  /** A button that pushes an axis, with the tick at which it entered its state. */
  datatype Input = Input(active: bool, tick: nat, kind: Kind, overrides: bool)

  datatype Axis = Axis(value: int, tick: nat)

  // The closed form

  /** The first active override, if any. */
  function Override(inputs: seq<Input>): (r: Option<Input>)
    ensures r.None? <==> forall x :: x in inputs ==> !(x.active && x.overrides)
    ensures r.Some? ==> r.value in inputs && r.value.active && r.value.overrides
  {
    if inputs == [] then None
    else if inputs[0].active && inputs[0].overrides then Some(inputs[0])
    else Override(inputs[1..])
  }

  /** `r` is the newest tick among the active inputs of one kind. */
  ghost predicate IsNewest(inputs: seq<Input>, kind: Kind, r: Option<nat>) {
    match r
    case None => forall x :: x in inputs && x.kind == kind ==> !x.active
    case Some(t) =>
      && (exists x :: x in inputs && x.active && x.kind == kind && x.tick == t)
      && forall x :: x in inputs && x.active && x.kind == kind ==> x.tick <= t
  }

  function Newest(inputs: seq<Input>, kind: Kind): (r: Option<nat>)
    ensures IsNewest(inputs, kind, r)
  {
    if inputs == [] then None
    else
      var r, x := Newest(inputs[..|inputs| - 1], kind), inputs[|inputs| - 1];
      if x.active && x.kind == kind && (r.None? || r.value < x.tick) then
        assert x in inputs;
        Some(x.tick)
      else
        assert inputs == inputs[..|inputs| - 1] + [x];
        r
  }

  lemma NewestIsUnique(inputs: seq<Input>, kind: Kind, r: Option<nat>)
    requires IsNewest(inputs, kind, r)
    ensures Newest(inputs, kind) == r
  {
    assert IsNewest(inputs, kind, Newest(inputs, kind));
  }

  /** The newest tick per kind decides; in `LastWins` a later kind must be strictly newer to win. */
  function Resolve(mode: Mode, p: Option<nat>, c: Option<nat>, n: Option<nat>): Axis {
    match mode
    case NeutralWins => Axis((if p.Some? then 1 else 0) - (if n.Some? then 1 else 0), Max(p.GetOr(0), n.GetOr(0)))
    case PositiveWins =>
      if p.Some? then Axis(1, p.value) else if n.Some? then Axis(-1, n.value) else Axis(0, 0)
    case NegativeWins =>
      if n.Some? then Axis(-1, n.value) else if p.Some? then Axis(1, p.value) else Axis(0, 0)
    case LastWins =>
      if p.Some? && (c.Some? ==> c.value <= p.value) && (n.Some? ==> n.value <= p.value) then Axis(1, p.value)
      else if c.Some? && (n.Some? ==> n.value <= c.value) then Axis(0, c.value)
      else if n.Some? then Axis(-1, n.value)
      else Axis(0, 0)
  }

  function Parse(mode: Mode, inputs: seq<Input>): Axis {
    match Override(inputs)
    case Some(x) => Axis(x.kind.Value(), x.tick)
    case None => Resolve(mode, Newest(inputs, Positive), Newest(inputs, Centre), Newest(inputs, Negative))
  }

  /** A deflected axis carries the tick of an active input. */
  lemma TickOfAnInput(mode: Mode, inputs: seq<Input>) returns (x: Input)
    requires Parse(mode, inputs).value != 0
    ensures x in inputs && x.active && x.tick == Parse(mode, inputs).tick
  {
    var r := Parse(mode, inputs);
    if Override(inputs).Some? {
      x := Override(inputs).value;
    } else {
      var kind := if r.value > 0 then Positive else Negative;
      assert IsNewest(inputs, kind, Some(r.tick));
      x :| x in inputs && x.active && x.kind == kind && x.tick == r.tick;
    }
  }

  lemma {:induction false} OverrideIsFirst(inputs: seq<Input>, i: nat)
    requires i < |inputs| && inputs[i].active && inputs[i].overrides
    requires forall j :: 0 <= j < i ==> !(inputs[j].active && inputs[j].overrides)
    ensures Override(inputs) == Some(inputs[i])
  {
    if i > 0 {
      OverrideIsFirst(inputs[1..], i - 1);
    }
  }

  lemma NewestSnoc(inputs: seq<Input>, i: nat, kind: Kind)
    requires i < |inputs|
    ensures var r, x := Newest(inputs[..i], kind), inputs[i];
      Newest(inputs[..i + 1], kind)
      == if x.active && x.kind == kind && (r.None? || r.value < x.tick) then Some(x.tick) else r
  {
    assert inputs[..i + 1][..i] == inputs[..i];
  }

  /** `input_socd_parse` */
  method InputSocdParse(mode: Mode, inputs: seq<Input>) returns (r: Axis)
    ensures r == Parse(mode, inputs)
  {
    hide Newest, IsNewest, Override, Resolve;
    var p: Option<nat>, c: Option<nat>, n: Option<nat> := None, None, None;
    NewestOfNone();
    assert inputs[..0] == [];
    for i := 0 to |inputs|
      invariant forall j :: 0 <= j < i ==> !(inputs[j].active && inputs[j].overrides)
      invariant p == Newest(inputs[..i], Positive) && c == Newest(inputs[..i], Centre)
      invariant n == Newest(inputs[..i], Negative)
    {
      var input := inputs[i];
      if input.active && input.overrides {
        OverrideIsFirst(inputs, i);
        return Axis(input.kind.Value(), input.tick);
      }
      NewestSnoc(inputs, i, Positive);
      NewestSnoc(inputs, i, Centre);
      NewestSnoc(inputs, i, Negative);
      if input.active {
        match input.kind {
          case Positive => p := if p.None? || p.value < input.tick then Some(input.tick) else p;
          case Centre => c := if c.None? || c.value < input.tick then Some(input.tick) else c;
          case Negative => n := if n.None? || n.value < input.tick then Some(input.tick) else n;
        }
      }
    }
    assert inputs[..|inputs|] == inputs;
    r := ResolveNewest(mode, p, c, n);
  }

  lemma NewestOfNone()
    ensures forall kind :: Newest([], kind) == None
  {
  }

  /** The switch with which `input_socd_parse` ends. */
  method ResolveNewest(mode: Mode, p: Option<nat>, c: Option<nat>, n: Option<nat>) returns (r: Axis)
    ensures r == Resolve(mode, p, c, n)
  {
    match mode {
      case NeutralWins =>
        r := Axis((if p.Some? then 1 else 0) - (if n.Some? then 1 else 0), Max(p.GetOr(0), n.GetOr(0)));
      case PositiveWins =>
        if p.Some? { r := Axis(1, p.value); } else if n.Some? { r := Axis(-1, n.value); } else { r := Axis(0, 0); }
      case NegativeWins =>
        if n.Some? { r := Axis(-1, n.value); } else if p.Some? { r := Axis(1, p.value); } else { r := Axis(0, 0); }
      case LastWins =>
        var tick: Option<nat>, value: Option<int> := None, None;
        if p.Some? { tick, value := p, Some(1); }
        if c.Some? && (tick.None? || tick.value < c.value) { tick, value := c, Some(0); }
        if n.Some? && (tick.None? || tick.value < n.value) { tick, value := n, Some(-1); }
        r := Axis(value.GetOr(0), tick.GetOr(0));
    }
  }

  // What the answer means

  predicate HasActive(inputs: seq<Input>, kind: Kind) {
    exists x :: x in inputs && x.active && x.kind == kind
  }

  predicate NoOverride(inputs: seq<Input>) {
    forall x :: x in inputs ==> !(x.active && x.overrides)
  }

  /** `tick` is that of the last active input of this kind. */
  ghost predicate LastOf(inputs: seq<Input>, kind: Kind, tick: nat) {
    && (exists x :: x in inputs && x.active && x.kind == kind && x.tick == tick)
    && forall x :: x in inputs && x.active && x.kind == kind ==> x.tick <= tick
  }

  lemma NewestOfActive(inputs: seq<Input>, kind: Kind, tick: nat)
    requires LastOf(inputs, kind, tick)
    ensures Newest(inputs, kind) == Some(tick)
  {
    NewestIsUnique(inputs, kind, Some(tick));
  }

  lemma NewestOfInactive(inputs: seq<Input>, kind: Kind)
    requires !HasActive(inputs, kind)
    ensures Newest(inputs, kind) == None
  {
    NewestIsUnique(inputs, kind, None);
  }

  /** With one side active, the axis points there in every mode, and carries the tick of the last input of that side.
      In `LastWins` a centre that is later prevents it, or one at the same time if the side is negative. */
  lemma OneSideWins(mode: Mode, inputs: seq<Input>, positive: bool, tick: nat)
    requires NoOverride(inputs)
    requires LastOf(inputs, if positive then Positive else Negative, tick)
    requires !HasActive(inputs, if positive then Negative else Positive)
    requires mode == LastWins ==> forall x :: x in inputs && x.active && x.kind == Centre ==>
                                              if positive then x.tick <= tick else x.tick < tick
    ensures Parse(mode, inputs) == Axis(if positive then 1 else -1, tick)
  {
    NewestOfActive(inputs, if positive then Positive else Negative, tick);
    NewestOfInactive(inputs, if positive then Negative else Positive);
    hide Override;
    assert IsNewest(inputs, Centre, Newest(inputs, Centre));
  }

  /** With both sides active, the mode decides. */
  lemma BothSides(mode: Mode, inputs: seq<Input>, p: nat, n: nat)
    requires NoOverride(inputs) && LastOf(inputs, Positive, p) && LastOf(inputs, Negative, n)
    ensures mode == NeutralWins ==> Parse(mode, inputs) == Axis(0, if p < n then n else p)
    ensures mode == PositiveWins ==> Parse(mode, inputs) == Axis(1, p)
    ensures mode == NegativeWins ==> Parse(mode, inputs) == Axis(-1, n)
    ensures mode == LastWins && !HasActive(inputs, Centre) ==>
              Parse(mode, inputs) == if n <= p then Axis(1, p) else Axis(-1, n)
  {
    NewestOfActive(inputs, Positive, p);
    NewestOfActive(inputs, Negative, n);
    if !HasActive(inputs, Centre) {
      NewestOfInactive(inputs, Centre);
    }
    hide Override;
  }

  /** With neither side active the axis is centred; the tick is that of an active centre in `LastWins`, and else 0. */
  lemma NeitherSide(mode: Mode, inputs: seq<Input>)
    requires NoOverride(inputs) && !HasActive(inputs, Positive) && !HasActive(inputs, Negative)
    ensures Parse(mode, inputs).value == 0
    ensures mode != LastWins || !HasActive(inputs, Centre) ==> Parse(mode, inputs).tick == 0
    ensures forall t: nat :: mode == LastWins && LastOf(inputs, Centre, t) ==> Parse(mode, inputs).tick == t
  {
    NewestOfInactive(inputs, Positive);
    NewestOfInactive(inputs, Negative);
    if !HasActive(inputs, Centre) {
      NewestOfInactive(inputs, Centre);
    }
    forall t: nat | LastOf(inputs, Centre, t) ensures Newest(inputs, Centre) == Some(t) {
      NewestOfActive(inputs, Centre, t);
    }
    hide Override;
  }

  /** In `LastWins` the kind of the last active input decides; of those at the same tick positive comes before centre
      before negative. */
  lemma LastDecides(inputs: seq<Input>, kind: Kind, tick: nat)
    requires NoOverride(inputs) && LastOf(inputs, kind, tick)
    requires forall x :: x in inputs && x.active ==> x.tick <= tick
    requires forall x :: x in inputs && x.active && x.tick == tick ==>
                           x.kind == kind || kind == Positive || (kind == Centre && x.kind == Negative)
    ensures Parse(LastWins, inputs)
            == Axis(if kind == Positive then 1 else if kind == Centre then 0 else -1, tick)
  {
    NewestOfActive(inputs, kind, tick);
    hide Override;
    assert IsNewest(inputs, Positive, Newest(inputs, Positive));
    assert IsNewest(inputs, Centre, Newest(inputs, Centre));
    assert IsNewest(inputs, Negative, Newest(inputs, Negative));
  }

  /** An active override decides in every mode: the first listed. */
  lemma OverrideDecides(mode: Mode, inputs: seq<Input>, i: nat)
    requires i < |inputs| && inputs[i].active && inputs[i].overrides
    requires forall j :: 0 <= j < i ==> !(inputs[j].active && inputs[j].overrides)
    ensures Parse(mode, inputs).tick == inputs[i].tick
    ensures Parse(mode, inputs).value
            == if inputs[i].kind == Positive then 1 else if inputs[i].kind == Negative then -1 else 0
  {
    OverrideIsFirst(inputs, i);
  }

  /** Without an active override the order in which a profile lists its inputs does not matter. */
  lemma OrderDoesNotMatter(mode: Mode, a: seq<Input>, b: seq<Input>)
    requires multiset(a) == multiset(b) && Override(a).None?
    ensures Parse(mode, a) == Parse(mode, b)
  {
    forall x: Input ensures x in a <==> x in b {
      assert x in a <==> x in multiset(a);
      assert x in b <==> x in multiset(b);
    }
    forall kind: Kind ensures Newest(b, kind) == Newest(a, kind) {
      NewestIsUnique(b, kind, Newest(a, kind));
    }
  }

  lemma {:induction false} OverrideConcat(a: seq<Input>, b: seq<Input>)
    ensures Override(a + b) == if Override(a).Some? then Override(a) else Override(b)
  {
    if a == [] {
      assert a + b == b;
    } else {
      assert (a + b)[1..] == a[1..] + b;
      OverrideConcat(a[1..], b);
    }
  }

  /** Inputs that are not active might as well not be listed. */
  lemma InactiveDoNotMatter(mode: Mode, a: seq<Input>, b: seq<Input>)
    requires forall x :: x in b ==> !x.active
    ensures Parse(mode, a + b) == Parse(mode, a)
  {
    hide Newest, Override;
    OverrideConcat(a, b);
    forall kind: Kind ensures Newest(a + b, kind) == Newest(a, kind) {
      assert IsNewest(a, kind, Newest(a, kind));
      NewestIsUnique(a + b, kind, Newest(a, kind));
    }
  }

  // Mirror images

  function MirrorAll(inputs: seq<Input>): (r: seq<Input>)
    ensures |r| == |inputs| && forall i :: 0 <= i < |inputs| ==> r[i] == inputs[i].(kind := inputs[i].kind.Mirror())
  {
    if inputs == [] then [] else [inputs[0].(kind := inputs[0].kind.Mirror())] + MirrorAll(inputs[1..])
  }

  lemma {:induction false} MirrorOverride(inputs: seq<Input>)
    ensures Override(MirrorAll(inputs)) == match Override(inputs)
                                           case None => None
                                           case Some(x) => Some(x.(kind := x.kind.Mirror()))
  {
    if inputs != [] {
      MirrorOverride(inputs[1..]);
      assert MirrorAll(inputs)[1..] == MirrorAll(inputs[1..]);
    }
  }

  lemma MirrorNewest(inputs: seq<Input>, kind: Kind)
    ensures Newest(MirrorAll(inputs), kind) == Newest(inputs, kind.Mirror())
  {
    hide Newest, MirrorAll;
    var r, mirrored := Newest(inputs, kind.Mirror()), MirrorAll(inputs);
    assert IsNewest(inputs, kind.Mirror(), r);
    if r.Some? {
      var x :| x in inputs && x.active && x.kind == kind.Mirror() && x.tick == r.value;
      var i :| 0 <= i < |inputs| && inputs[i] == x;
      assert mirrored[i] in mirrored;
    }
    forall y | y in mirrored && y.active && y.kind == kind ensures r.Some? && y.tick <= r.value {
      var i :| 0 <= i < |inputs| && mirrored[i] == y;
      assert inputs[i] in inputs;
    }
    NewestIsUnique(mirrored, kind, r);
  }

  /** Two kinds share the newest tick of all. */
  predicate TiedAtTheTop(p: Option<nat>, c: Option<nat>, n: Option<nat>) {
    var top := Max(p.GetOr(0), Max(c.GetOr(0), n.GetOr(0)));
    (p == Some(top) && c == Some(top)) || (p == Some(top) && n == Some(top)) || (c == Some(top) && n == Some(top))
  }

  lemma MirrorResolve(mode: Mode, p: Option<nat>, c: Option<nat>, n: Option<nat>)
    ensures var r, m := Resolve(mode, p, c, n), Resolve(mode.Mirror(), n, c, p);
      m == Axis(-r.value, r.tick) <==> mode != LastWins || !TiedAtTheTop(p, c, n)
  {
  }

  /**
   * Swapping the two directions, in the inputs and in the mode, negates the value and keeps the tick, except
   * exactly when `LastWins` has to break a tie: it prefers positive to neutral to negative.
   */
  lemma MirrorNegates(mode: Mode, inputs: seq<Input>)
    ensures var r, m := Parse(mode, inputs), Parse(mode.Mirror(), MirrorAll(inputs));
      m == Axis(-r.value, r.tick) <==>
        Override(inputs).Some? || mode != LastWins
        || !TiedAtTheTop(Newest(inputs, Positive), Newest(inputs, Centre), Newest(inputs, Negative))
  {
    hide Newest, IsNewest, Override, Resolve, TiedAtTheTop;
    MirrorResolve(mode, Newest(inputs, Positive), Newest(inputs, Centre), Newest(inputs, Negative));
    MirrorOverride(inputs);
    MirrorNewest(inputs, Positive);
    MirrorNewest(inputs, Centre);
    MirrorNewest(inputs, Negative);
  }
}
