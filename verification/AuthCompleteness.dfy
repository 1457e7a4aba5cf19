/**
 * The other half of `AuthInterleaving`: whatever the atomic protocol allows, the two threads can do. In particular
 * they refuse no part of a nonce that the protocol takes.
 */
module AuthCompleteness {
  import opened Bytes
  import opened Options
  import opened AuthSpec
  import opened AuthInterleaving

  /** Between two events: no part is being copied. */
  ghost predicate Ready(env: Env, s: System) {
    Inv(env, s) && !Stuck(s) && !s.usb.CopyingPart?
  }

  function OfHost(ev: Event): seq<Event> {
    if ev.NoncePart? || ev.ChunkSent? then [ev] else []
  }

  /** `actions` lead from `s` to `t`, and amount to the event `ev`. */
  ghost predicate Performs(env: Env, s: System, actions: seq<Action>, ev: Event, t: System) {
    && Exec(env, s, actions) == Some(t) && Ready(env, t)
    && Next(env, Abs(s), ev) == Some(Abs(t)) && Visible(t) == Visible(s) + OfHost(ev)
  }

  lemma {:induction false} ExecConcat(env: Env, s: System, a: seq<Action>, b: seq<Action>)
    requires Exec(env, s, a).Some?
    ensures Exec(env, s, a + b) == Exec(env, Exec(env, s, a).value, b)
  {
    hide Step;
    if b == [] {
      assert a + b == a;
    } else {
      var n := |b| - 1;
      assert (a + b)[..|a + b| - 1] == a + b[..n];
      ExecConcat(env, s, a, b[..n]);
    }
  }

  /** A part that is being copied can be completed, silently. */
  lemma {:induction false} FinishCopy(env: Env, s: System) returns (actions: seq<Action>, t: System)
    requires Inv(env, s) && s.usb.CopyingPart?
    ensures Exec(env, s, actions) == Some(t) && Ready(env, t) && Abs(t) == Abs(s) && Visible(t) == Visible(s)
    decreases if s.usb.copied < |s.usb.data| then |s.usb.data| - s.usb.copied else 0
  {
    CopyIsReceiving(env, s);
    hide Inv, Abs, Visible, Stuck;
    var a := if s.usb.copied < |s.usb.data| then CopyByte else SwapPart;
    StepRefines(env, s, a);
    var s1, rest := Step(env, s, a).value, [];
    t := s1;
    if a.CopyByte? {
      rest, t := FinishCopy(env, s1);
    } else {
      SwapIsReady(env, s);
    }
    ExecCons(env, s, a, rest);
    actions := [a] + rest;
  }

  lemma CopyIsReceiving(env: Env, s: System)
    requires Inv(env, s) && s.usb.CopyingPart?
    ensures s.auth.phase == ReceivingNonce && s.usb.copied <= |s.usb.data| && s.usb.part * 56 + |s.usb.data| <= 256
  {
  }

  lemma SwapIsReady(env: Env, s: System)
    requires Inv(env, s) && s.usb.CopyingPart? && s.usb.copied == |s.usb.data|
    ensures var t := Step(env, s, SwapPart).value; !Stuck(t) && !t.usb.CopyingPart?
  {
  }

  /** Outside of the receiving phase the threads can always bring about the next event. */
  lemma {:induction false} NextEvent(env: Env, s: System) returns (actions: seq<Action>, ev: Event, t: System)
    requires Ready(env, s) && s.auth.phase != ReceivingNonce
    ensures Performs(env, s, actions, ev, t)
    decreases Distance(env, s)
  {
    hide Inv, Abs, Visible, Distance;
    var a := Onward(env, s);
    OnwardDescends(env, s);
    StepRefines(env, s, a);
    OnwardCopiesNothing(env, s);
    var s1 := Step(env, s, a).value;
    var e := EventOf(s, a, s1);
    if e.Some? {
      assert [a] + [] == [a];
      ExecCons(env, s, a, []);
      assert Exec(env, s1, []) == Some(s1);
      actions, ev, t := [a], e.value, s1;
    } else {
      SamePhase(s, s1);
      var rest;
      rest, ev, t := NextEvent(env, s1);
      ExecCons(env, s, a, rest);
      actions := [a] + rest;
    }
  }

  lemma OnwardCopiesNothing(env: Env, s: System)
    requires Ready(env, s) && s.auth.phase != ReceivingNonce && Step(env, s, Onward(env, s)).Some?
    ensures !Step(env, s, Onward(env, s)).value.usb.CopyingPart?
  {
  }

  lemma SamePhase(s: System, t: System)
    requires !s.usb.CopyingPart? && !t.usb.CopyingPart? && Abs(t) == Abs(s)
    ensures s.auth.phase == t.auth.phase
  {
  }

  lemma OnlyOneEvent(env: Env, a: State, e1: Event, e2: Event)
    requires !a.Receiving? && Next(env, a, e1).Some? && Next(env, a, e2).Some?
    ensures e1 == e2
  {
  }

  /** Every part that the protocol takes is taken. */
  lemma PartIsTaken(env: Env, s: System, ev: Event) returns (actions: seq<Action>, t: System)
    requires Ready(env, s) && ev.NoncePart? && Next(env, Abs(s), ev).Some?
    ensures Performs(env, s, actions, ev, t)
  {
    var a := SetNonce(ev.id, ev.part, ev.data);
    var s1 := TakesPart(env, s, ev);
    StepRefines(env, s, a);
    hide Inv, Abs, Visible, Step, Next;
    var rest;
    rest, t := FinishCopy(env, s1);
    ExecCons(env, s, a, rest);
    actions := [a] + rest;
  }

  lemma TakesPart(env: Env, s: System, ev: Event) returns (t: System)
    requires Ready(env, s) && ev.NoncePart? && Next(env, Abs(s), ev).Some?
    ensures Step(env, s, SetNonce(ev.id, ev.part, ev.data)) == Some(t) && t.usb.CopyingPart?
    ensures EventOf(s, SetNonce(ev.id, ev.part, ev.data), t) == Some(ev)
  {
    t := Step(env, s, SetNonce(ev.id, ev.part, ev.data)).value;
  }

  lemma Perform(env: Env, s: System, ev: Event) returns (actions: seq<Action>, t: System)
    requires Ready(env, s) && Next(env, Abs(s), ev).Some?
    ensures Performs(env, s, actions, ev, t)
  {
    if s.auth.phase == ReceivingNonce {
      assert ev.NoncePart?;
      actions, t := PartIsTaken(env, s, ev);
    } else {
      var e;
      actions, e, t := NextEvent(env, s);
      OnlyOneEvent(env, Abs(s), e, ev);
    }
  }

  lemma StartIsReady(env: Env)
    ensures Ready(env, START) && Abs(START) == INIT && Visible(START) == []
  {
  }

  /** Every run of the atomic protocol is an interleaving, in which the host sees the same. */
  lemma {:induction false} EveryRunIsInterleaved(env: Env, log: seq<Event>) returns (actions: seq<Action>, s: System)
    requires Run(env, INIT, log).Some?
    ensures Exec(env, START, actions) == Some(s) && Ready(env, s)
    ensures Run(env, INIT, log) == Some(Abs(s)) && s.history == Visible(s) == Host(log)
  {
    hide Ready, Step, Abs, Next;
    if log == [] {
      StartIsReady(env);
      actions, s := [], START;
    } else {
      var n := |log| - 1;
      var before, more;
      before, s := EveryRunIsInterleaved(env, log[..n]);
      var s0 := s;
      more, s := Perform(env, s0, log[n]);
      ExecConcat(env, START, before, more);
      actions := before + more;
      NothingPending(env, s);
      HostSnoc(log);
    }
  }

  lemma NothingPending(env: Env, s: System)
    requires Ready(env, s)
    ensures s.history == Visible(s)
  {
    assert s.history + [] == s.history;
  }

  lemma HostSnoc(log: seq<Event>)
    requires log != []
    ensures Host(log) == Host(log[..|log| - 1]) + OfHost(log[|log| - 1])
  {
  }

  // When a part is taken

  function Finals(host: seq<Event>): nat {
    if host == [] then 0
    else
      var ev := host[|host| - 1];
      Finals(host[..|host| - 1]) + if ev.NoncePart? && ev.part == 4 then 1 else 0
  }

  function Chunks(host: seq<Event>): nat {
    if host == [] then 0 else Chunks(host[..|host| - 1]) + if host[|host| - 1].ChunkSent? then 1 else 0
  }

  /** The id that came with the last part 0; zero before any. */
  function CurrentId(host: seq<Event>): Byte {
    if host == [] then 0
    else
      var ev := host[|host| - 1];
      if ev.NoncePart? && ev.part == 0 then ev.id else CurrentId(host[..|host| - 1])
  }

  /** How many chunks are still to come. */
  function Owed(s: State): nat {
    match s
    case Receiving(_, _) => 0
    case Sending(_, _, _, k) => if k < 19 then 19 - k else 0
    case _ => 19
  }

  lemma CountersSnoc(host: seq<Event>, ev: Event)
    ensures Finals(host + [ev]) == Finals(host) + if ev.NoncePart? && ev.part == 4 then 1 else 0
    ensures Chunks(host + [ev]) == Chunks(host) + if ev.ChunkSent? then 1 else 0
    ensures CurrentId(host + [ev]) == if ev.NoncePart? && ev.part == 0 then ev.id else CurrentId(host)
  {
    assert (host + [ev])[..|host|] == host;
  }

  lemma {:induction false} StateFromCounters(env: Env, log: seq<Event>)
    requires Run(env, INIT, log).Some?
    ensures var s, host := Run(env, INIT, log).value, Host(log);
      && s.id == CurrentId(host) && 19 * Finals(host) == Chunks(host) + Owed(s)
      && (s.Receiving? <==> Owed(s) == 0)
  {
    if log != [] {
      var n := |log| - 1;
      StateFromCounters(env, log[..n]);
      HostSnoc(log);
      CountersSnoc(Host(log[..n]), log[n]);
      hide Finals, Chunks, CurrentId, Host;
      assert Host(log[..n]) + [] == Host(log[..n]);
    }
  }

  /**
   * A part is taken if and only if there is a key, the part number and length are right, every nonce completed so
   * far has been answered with 19 chunks, and the part either starts a nonce or carries the id of the last start.
   */
  lemma PartIsTakenIff(env: Env, log: seq<Event>, id: Byte, part: Byte, data: seq<Byte>)
    requires Run(env, INIT, log).Some?
    ensures Run(env, INIT, log + [NoncePart(id, part, data)]).Some? <==>
      && env.provisioned && part <= 4 && |data| == (if part == 4 then 32 else 56)
      && Chunks(Host(log)) == 19 * Finals(Host(log))
      && (part == 0 || id == CurrentId(Host(log)))
  {
    RunSnoc(env, INIT, log, NoncePart(id, part, data));
    StateFromCounters(env, log);
  }

  /** The same for the threads, whenever the USB thread is idle. */
  lemma ThreadTakesPartIff(env: Env, actions: seq<Action>, id: Byte, part: Byte, data: seq<Byte>)
    requires Exec(env, START, actions).Some? && Exec(env, START, actions).value.usb.UsbIdle?
    requires part <= 4 ==> |data| == if part == 4 then 32 else 56
    ensures var s := Exec(env, START, actions).value; var t := Step(env, s, SetNonce(id, part, data));
      && t.Some?
      && (t != Some(s) <==>
          && env.provisioned && part <= 4 && Chunks(s.history) == 19 * Finals(s.history)
          && (part == 0 || id == CurrentId(s.history)))
  {
    var s := Exec(env, START, actions).value;
    var log := ExecRefines(env, actions);
    StateFromCounters(env, log);
    assert s.history + [] == s.history;
    hide Run, Exec, Finals, Chunks, CurrentId, Inv, Host;
  }
}
