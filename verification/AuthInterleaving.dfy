/**
 * The USB thread and the signing worker, interleaved at every load, every compare-and-swap and every single
 * byte that moves into or out of the two shared buffers. There is one USB thread and one worker; the
 * compare-and-swap fails only on a different value.
 */
module AuthInterleaving {
  import opened Bytes
  import opened Options
  import opened AuthSpec

  /** Where the USB thread is. `cur` is the state word that it loaded. */
  datatype Usb =
    | UsbIdle
    | CopyingPart(id: Byte, part: Byte, data: seq<Byte>, cur: AuthState, copied: nat)
    | Submitting
    | HeaderWritten(header: AuthState)
    | ReadingChunk(header: AuthState, cur: AuthState, payload: seq<Byte>)

  /** Where the signing worker is. */
  datatype Worker =
    | WorkerIdle
    | Loading
    | Claiming(cur: AuthState)
    | Hashing(cur: AuthState, seen: seq<Byte>)
    | WritingSignature(cur: AuthState, digest: seq<Byte>)
    | Finishing(cur: AuthState)

  /**
   * `pending`: the signing job is in the work queue. `casFailed` and `misfired` latch the two error paths
   * that should be dead, and `overrun` an access past a buffer or the PANIC for want of signature parts.
   * `history` is what the host has seen succeed.
   */
  datatype System = System(auth: AuthState, nonce: Block, signature: Block, usb: Usb, worker: Worker,
                           pending: bool, casFailed: bool, misfired: bool, overrun: bool, history: seq<Event>)

  const START := System(RESET, Zeros(256), Zeros(256), UsbIdle, WorkerIdle, false, false, false, false, [])

  datatype Action =
    // USB thread: set_nonce up to its checks, each byte of its memcpy, its swap, its job submission
    | SetNonce(id: Byte, part: Byte, data: seq<Byte>)
    | CopyByte
    | SwapPart
    | Submit
    // USB thread: the header of 0xF1, get_next_signature_chunk up to its check, each byte copied, the swap
    | WriteHeader
    | LoadChunk
    | ReadByte
    | SwapChunk
    // Worker: sign_nonce, with the library free to scribble in the signature buffer until it is done
    | Wake
    | LoadJob
    | Claim
    | HashByte
    | HashDone(ok: bool)
    | WriteSignature(at: nat, value: Byte)
    | SignDone(ok: bool)
    | Finish

  function Swap(s: System, expected: AuthState, desired: AuthState): System {
    if s.auth == expected then s.(auth := desired) else s.(casFailed := true)
  }

  /** One step of one thread; `None` if that thread is not at that point. */
  ghost function Step(env: Env, s: System, a: Action): Option<System> {
    match a
    case SetNonce(id, part, data) =>
      if !s.usb.UsbIdle? || (part <= 4 && !Fits(part, data)) then None
      else if !env.provisioned || s.auth.phase != ReceivingNonce || part > 4
              || (part != 0 && id != s.auth.nonceId) then Some(s)
      else Some(s.(usb := CopyingPart(id, part, data, s.auth, 0)))
    case CopyByte =>
      if !s.usb.CopyingPart? || s.usb.copied >= |s.usb.data| then None
      else if s.usb.part * 56 + s.usb.copied >= 256 then Some(s.(overrun := true))
      else
        var k := s.usb.copied;
        Some(s.(nonce := s.nonce[s.usb.part * 56 + k := s.usb.data[k]], usb := s.usb.(copied := k + 1)))
    case SwapPart =>
      if !s.usb.CopyingPart? || s.usb.copied < |s.usb.data| then None
      else
        var u := s.usb;
        var t := Swap(s, u.cur, AfterPart(u.cur, u.id, u.part));
        Some(if s.auth != u.cur then t.(usb := UsbIdle)
             else t.(usb := if u.part == 4 then Submitting else UsbIdle,
                     history := s.history + [NoncePart(u.id, u.part, u.data)]))
    case Submit =>
      if !s.usb.Submitting? then None else Some(s.(usb := UsbIdle, pending := true))
    case WriteHeader =>
      if !s.usb.UsbIdle? then None
      else if s.auth.phase != SendingSignature then Some(s)
      else Some(s.(usb := HeaderWritten(s.auth)))
    case LoadChunk =>
      if !s.usb.HeaderWritten? then None
      else if s.auth.phase != SendingSignature then Some(s.(usb := UsbIdle))
      else Some(s.(usb := ReadingChunk(s.usb.header, s.auth, [])))
    case ReadByte =>
      if !s.usb.ReadingChunk? || |s.usb.payload| >= 56 then None
      else if s.usb.cur.nextPart >= CHUNKS then Some(s.(overrun := true))
      else
        var next := env.Blob(s.signature)[s.usb.cur.nextPart * 56 + |s.usb.payload|];
        Some(s.(usb := s.usb.(payload := s.usb.payload + [next])))
    case SwapChunk =>
      if !s.usb.ReadingChunk? || |s.usb.payload| < 56 then None
      else
        var u := s.usb;
        var t := Swap(s, u.cur, AfterChunk(u.cur)).(usb := UsbIdle);
        Some(if s.auth != u.cur then t
             else t.(history := s.history + [ChunkSent(u.header.nonceId, u.header.nextPart, u.payload)]))
    case Wake =>
      if !s.pending || !s.worker.WorkerIdle? then None else Some(s.(pending := false, worker := Loading))
    case LoadJob =>
      if !s.worker.Loading? then None
      else if s.auth.phase != WaitingToSign then Some(s.(worker := WorkerIdle, misfired := true))
      else Some(s.(worker := Claiming(s.auth)))
    case Claim =>
      if !s.worker.Claiming? then None
      else
        var cur := s.worker.cur;
        var next := cur.(phase := SigningNonce);
        Some(Swap(s, cur, next).(worker := if s.auth == cur then Hashing(next, []) else WorkerIdle))
    case HashByte =>
      if !s.worker.Hashing? || |s.worker.seen| >= 256 then None
      else Some(s.(worker := s.worker.(seen := s.worker.seen + [s.nonce[|s.worker.seen|]])))
    case HashDone(ok) =>
      if !s.worker.Hashing? || |s.worker.seen| != 256 then None
      else Some(s.(worker := if ok then WritingSignature(s.worker.cur, env.sha256(s.worker.seen)) else WorkerIdle))
    case WriteSignature(at, value) =>
      if !s.worker.WritingSignature? || at >= 256 then None
      else Some(s.(signature := s.signature[at := value]))
    case SignDone(ok) =>
      if !s.worker.WritingSignature? || (ok && s.signature != env.pssSign(s.worker.digest)) then None
      else Some(s.(worker := if ok then Finishing(s.worker.cur) else WorkerIdle))
    case Finish =>
      if !s.worker.Finishing? then None
      else
        var cur := s.worker.cur;
        Some(Swap(s, cur, cur.(phase := SendingSignature, nextPart := 0)).(worker := WorkerIdle))
  }

  /** Any interleaving of the two threads. */
  ghost function Exec(env: Env, s: System, actions: seq<Action>): Option<System> {
    if actions == [] then Some(s)
    else
      var n := |actions| - 1;
      match Exec(env, s, actions[..n])
      case None => None
      case Some(mid) => Step(env, mid, actions[n])
  }

  // The invariant

  ghost predicate Inv(env: Env, s: System) {
    && !s.casFailed && !s.misfired && !s.overrun
    && match s.auth.phase
       case ReceivingNonce =>
         && s.worker.WorkerIdle? && !s.pending
         && match s.usb {
              case UsbIdle => true
              case CopyingPart(id, part, data, cur, k) =>
                cur == s.auth && Fits(part, data) && k <= |data| && env.provisioned
                && (part == 0 || id == cur.nonceId)
                && s.nonce[part * 56..part * 56 + k] == data[..k]
              case _ => false
            }
       case WaitingToSign =>
         || (s.usb.Submitting? && s.worker.WorkerIdle? && !s.pending)
         || (s.usb.UsbIdle? && s.worker.WorkerIdle? && s.pending)
         || (s.usb.UsbIdle? && !s.pending && (s.worker.Loading? || s.worker == Claiming(s.auth)))
       case SigningNonce =>
         && s.usb.UsbIdle? && !s.pending
         && match s.worker {
              case WorkerIdle => true
              case Hashing(cur, seen) => cur == s.auth && |seen| <= 256 && seen == s.nonce[..|seen|]
              case WritingSignature(cur, digest) => cur == s.auth && digest == env.sha256(s.nonce)
              case Finishing(cur) => cur == s.auth && s.signature == env.Sign(s.nonce)
              case _ => false
            }
       case SendingSignature =>
         && s.worker.WorkerIdle? && !s.pending && s.auth.nextPart < CHUNKS && s.signature == env.Sign(s.nonce)
         && match s.usb {
              case UsbIdle => true
              case HeaderWritten(header) => header == s.auth
              case ReadingChunk(header, cur, payload) =>
                header == s.auth && cur == s.auth && |payload| <= 56
                && payload == env.Chunk(s.signature, s.auth.nextPart)[..|payload|]
              case _ => false
            }
  }

  // Refinement of the atomic protocol

  /** A part takes effect where `set_nonce` accepts it: nothing can stop it from there on. */
  ghost function Abs(s: System): State {
    if s.usb.CopyingPart? && Fits(s.usb.part, s.usb.data) then
      Abstract(AfterPart(s.usb.cur, s.usb.id, s.usb.part), Splice(s.nonce, s.usb.part * 56, s.usb.data), s.signature)
    else
      Abstract(s.auth, s.nonce, s.signature)
  }

  /** What the host has seen, with the part that is just being copied. */
  ghost function Visible(s: System): seq<Event> {
    s.history + if s.usb.CopyingPart? then [NoncePart(s.usb.id, s.usb.part, s.usb.data)] else []
  }

  /** The step from `s` to `t` keeps the invariant and is the atomic event `ev`, or none. */
  ghost predicate Refines(env: Env, s: System, t: System, ev: Option<Event>) {
    && Inv(env, t)
    && match ev
       case None => Abs(t) == Abs(s) && Visible(t) == Visible(s)
       case Some(e) =>
         && Next(env, Abs(s), e) == Some(Abs(t))
         && Visible(t) == Visible(s) + if e.NoncePart? || e.ChunkSent? then [e] else []
  }

  /** The event that a step stands for. */
  ghost function EventOf(s: System, a: Action, t: System): Option<Event> {
    if t == s then None
    else
      match a
      case SetNonce(id, part, data) => Some(NoncePart(id, part, data))
      case SwapChunk =>
        if s.usb.ReadingChunk? then
          Some(ChunkSent(s.usb.header.nonceId, s.usb.header.nextPart, s.usb.payload))
        else None
      case Claim => Some(SignStarted)
      case Finish => Some(SignFinished)
      case _ => None
  }

  lemma PartCopyRefines(env: Env, s: System)
    requires Inv(env, s) && Step(env, s, CopyByte).Some?
    ensures Refines(env, s, Step(env, s, CopyByte).value, None)
  {
    var t, u := Step(env, s, CopyByte).value, s.usb;
    assert s.auth.phase.ReceivingNonce?;
    var at, k := u.part * 56, u.copied;
    assert t.nonce[at..at + k + 1] == s.nonce[at..at + k] + [u.data[k]];
    assert u.data[..k + 1] == u.data[..k] + [u.data[k]];
    assert Splice(t.nonce, at, u.data) == Splice(s.nonce, at, u.data);
  }

  lemma PartSwapRefines(env: Env, s: System)
    requires Inv(env, s) && Step(env, s, SwapPart).Some?
    ensures Refines(env, s, Step(env, s, SwapPart).value, None)
  {
    var t, u := Step(env, s, SwapPart).value, s.usb;
    assert s.auth.phase.ReceivingNonce?;
    assert s.nonce[u.part * 56..u.part * 56 + |u.data|] == u.data;
    assert Splice(s.nonce, u.part * 56, u.data) == s.nonce;
  }

  lemma PartStepRefines(env: Env, s: System, a: Action)
    requires Inv(env, s) && Step(env, s, a).Some? && (a.SetNonce? || a.Submit?)
    ensures var t := Step(env, s, a).value; Refines(env, s, t, EventOf(s, a, t))
  {
  }

  lemma ChunkStepRefines(env: Env, s: System, a: Action)
    requires Inv(env, s) && Step(env, s, a).Some? && (a.WriteHeader? || a.LoadChunk? || a.ReadByte? || a.SwapChunk?)
    ensures var t := Step(env, s, a).value; Refines(env, s, t, EventOf(s, a, t))
  {
    if !a.WriteHeader? {
      assert s.auth.phase.SendingSignature?;
      var chunk := env.Chunk(s.signature, s.auth.nextPart);
      if a.ReadByte? {
        var k := |s.usb.payload|;
        assert chunk[..k + 1] == chunk[..k] + [chunk[k]];
      } else if a.SwapChunk? {
        assert chunk[..56] == chunk;
      }
    }
  }

  lemma WorkerStepRefines(env: Env, s: System, a: Action)
    requires Inv(env, s) && Step(env, s, a).Some?
    requires a.Wake? || a.LoadJob? || a.Claim? || a.HashByte? || a.HashDone?
             || a.WriteSignature? || a.SignDone? || a.Finish?
    ensures var t := Step(env, s, a).value; Refines(env, s, t, EventOf(s, a, t))
  {
    if a.HashByte? {
      var k := |s.worker.seen|;
      assert s.nonce[..k + 1] == s.nonce[..k] + [s.nonce[k]];
    } else if a.HashDone? {
      assert s.nonce[..256] == s.nonce;
    }
  }

  /** Each step of either thread is one event of the atomic protocol, or none. */
  lemma StepRefines(env: Env, s: System, a: Action)
    requires Inv(env, s) && Step(env, s, a).Some?
    ensures var t := Step(env, s, a).value; Refines(env, s, t, EventOf(s, a, t))
  {
    match a
    case CopyByte => PartCopyRefines(env, s);
    case SwapPart => PartSwapRefines(env, s);
    case SetNonce(_, _, _) => PartStepRefines(env, s, a);
    case Submit => PartStepRefines(env, s, a);
    case WriteHeader => ChunkStepRefines(env, s, a);
    case LoadChunk => ChunkStepRefines(env, s, a);
    case ReadByte => ChunkStepRefines(env, s, a);
    case SwapChunk => ChunkStepRefines(env, s, a);
    case _ => WorkerStepRefines(env, s, a);
  }

  /** Every interleaving is a run of the atomic protocol. */
  lemma {:induction false} ExecRefines(env: Env, actions: seq<Action>) returns (log: seq<Event>)
    requires Exec(env, START, actions).Some?
    ensures var s := Exec(env, START, actions).value;
      && Inv(env, s)
      && Run(env, INIT, log) == Some(Abs(s))
      && Host(log) == Visible(s)
  {
    log := [];
    if actions != [] {
      var n := |actions| - 1;
      log := ExecRefines(env, actions[..n]);
      var mid := Exec(env, START, actions[..n]).value;
      StepRefines(env, mid, actions[n]);
      var ev := EventOf(mid, actions[n], Exec(env, START, actions).value);
      if ev.Some? {
        assert (log + [ev.value])[..|log|] == log;
        log := log + [ev.value];
      }
    }
  }

  // Safety in every interleaving

  /** Both threads are inside a buffer and at least one of them writes to it. */
  predicate Race(s: System) {
    (s.usb.CopyingPart? && s.worker.Hashing?) || (s.usb.ReadingChunk? && s.worker.WritingSignature?)
  }

  /**
   * Whatever the two threads do and however they interleave: no swap fails, no signing job misfires, no access
   * leaves its buffer, no buffer is raced for, and each chunk that the host got answers the nonce it sent.
   */
  lemma Safe(env: Env, actions: seq<Action>)
    requires Exec(env, START, actions).Some?
    ensures var s := Exec(env, START, actions).value;
      && !s.casFailed && !s.misfired && !s.overrun && !Race(s)
      && forall i :: 0 <= i < |s.history| ==> Answers(env, s.history, i)
  {
    var s := Exec(env, START, actions).value;
    var log := ExecRefines(env, actions);
    History(env, log);
    var host := Host(log);
    assert host[..|s.history|] == s.history;
    forall i | 0 <= i < |s.history| ensures Answers(env, s.history, i) {
      AnswersPrefix(env, host, |s.history|, i);
    }
  }

  /** Each buffer is written and read in one phase only, never the same one for both. */
  lemma BufferDiscipline(env: Env, actions: seq<Action>, a: Action)
    requires Exec(env, START, actions).Some? && Step(env, Exec(env, START, actions).value, a).Some?
    ensures var s := Exec(env, START, actions).value; var t := Step(env, s, a).value;
      && (a.CopyByte? || t.nonce != s.nonce ==> s.auth.phase == ReceivingNonce)
      && (a.HashByte? ==> s.auth.phase == SigningNonce)
      && (a.WriteSignature? || t.signature != s.signature ==> s.auth.phase == SigningNonce)
      && (a.ReadByte? ==> s.auth.phase == SendingSignature)
  {
    var log := ExecRefines(env, actions);
  }

  // Failure and progress

  /** The worker gave up: its error paths return without touching the state word. */
  predicate Stuck(s: System) {
    s.auth.phase == SigningNonce && s.worker.WorkerIdle?
  }

  /** There is no way out of a failed hash or signature: no part is ever taken, no chunk ever sent again. */
  lemma {:induction false} StuckForever(env: Env, s: System, actions: seq<Action>)
    requires Inv(env, s) && Stuck(s) && Exec(env, s, actions).Some?
    ensures Exec(env, s, actions) == Some(s)
  {
    if actions != [] {
      StuckForever(env, s, actions[..|actions| - 1]);
    }
  }

  /** How many library calls fail. */
  function Failures(actions: seq<Action>): nat {
    if actions == [] then 0
    else (if Fails(actions[0]) then 1 else 0) + Failures(actions[1..])
  }

  predicate Fails(a: Action) {
    a == HashDone(false) || a == SignDone(false)
  }

  lemma {:induction false} FailuresSnoc(actions: seq<Action>, a: Action)
    ensures Failures(actions + [a]) == Failures(actions) + if Fails(a) then 1 else 0
  {
    if actions == [] {
      assert [] + [a] == [a] && [a][1..] == [];
    } else {
      assert (actions + [a])[1..] == actions[1..] + [a];
      FailuresSnoc(actions[1..], a);
    }
  }

  lemma FailureSticks(env: Env, s: System, a: Action)
    requires Inv(env, s) && Step(env, s, a).Some?
    ensures var t := Step(env, s, a).value; Stuck(t) <==> Stuck(s) || Fails(a)
    ensures Stuck(s) ==> !Fails(a)
  {
  }

  /** In every interleaving the system is stuck if and only if a library call has failed, and at most one ever does. */
  lemma {:induction false} StuckIffACallFailed(env: Env, actions: seq<Action>)
    requires Exec(env, START, actions).Some?
    ensures Failures(actions) <= 1 && (Stuck(Exec(env, START, actions).value) <==> Failures(actions) == 1)
  {
    hide Inv, Step, Stuck, Fails;
    if actions == [] {
      NotStuckAtStart();
    } else {
      var n := |actions| - 1;
      StuckIffACallFailed(env, actions[..n]);
      var log := ExecRefines(env, actions[..n]);
      FailureSticks(env, Exec(env, START, actions[..n]).value, actions[n]);
      FailuresSnoc(actions[..n], actions[n]);
      assert actions == actions[..n] + [actions[n]];
    }
  }

  lemma NotStuckAtStart()
    ensures !Stuck(START)
  {
  }

  /** With a single failing call the system gets stuck, and `history` is all that the host has seen succeed. */
  ghost predicate FailsOnce(env: Env, s: System, actions: seq<Action>, history: seq<Event>) {
    && Failures(actions) == 1 && Exec(env, s, actions).Some?
    && Stuck(Exec(env, s, actions).value) && Exec(env, s, actions).value.history == history
  }

  lemma FailsAfter(env: Env, s: System, a: Action, rest: seq<Action>, history: seq<Event>)
    requires Step(env, s, a).Some? && !Fails(a)
    requires FailsOnce(env, Step(env, s, a).value, rest, history)
    ensures FailsOnce(env, s, [a] + rest, history)
  {
    ExecCons(env, s, a, rest);
    assert ([a] + rest)[1..] == rest;
  }

  /** A worker that is hashing may give up when it has read the nonce. */
  lemma {:induction false} HashingCanFail(env: Env, s: System) returns (actions: seq<Action>)
    requires Inv(env, s) && s.auth.phase == SigningNonce && s.worker.Hashing?
    ensures FailsOnce(env, s, actions, s.history)
    decreases 256 - |s.worker.seen|
  {
    if |s.worker.seen| < 256 {
      StepRefines(env, s, HashByte);
      actions := HashingCanFail(env, Step(env, s, HashByte).value);
      FailsAfter(env, s, HashByte, actions, s.history);
      actions := [HashByte] + actions;
    } else {
      actions := [HashDone(false)];
      assert actions[..0] == [] && actions[1..] == [];
      assert Exec(env, s, actions) == Step(env, s, HashDone(false));
    }
  }

  /** So may one whose job is in the queue. */
  lemma PendingCanFail(env: Env, s: System) returns (actions: seq<Action>)
    requires Inv(env, s) && s.usb.UsbIdle? && s.pending && s.worker.WorkerIdle? && s.auth.phase == WaitingToSign
    ensures FailsOnce(env, s, actions, s.history)
  {
    hide FailsOnce;
    var s1 := Step(env, s, Wake).value;
    var s2 := Step(env, s1, LoadJob).value;
    StepRefines(env, s, Wake);
    StepRefines(env, s1, LoadJob);
    StepRefines(env, s2, Claim);
    actions := HashingCanFail(env, Step(env, s2, Claim).value);
    FailsAfter(env, s2, Claim, actions, s.history);
    FailsAfter(env, s1, LoadJob, [Claim] + actions, s.history);
    FailsAfter(env, s, Wake, [LoadJob] + ([Claim] + actions), s.history);
    actions := [Wake] + ([LoadJob] + ([Claim] + actions));
  }

  lemma SubmittedCanFail(env: Env, s: System) returns (actions: seq<Action>)
    requires Inv(env, s) && s.usb.Submitting? && s.auth.phase == WaitingToSign
    ensures FailsOnce(env, s, actions, s.history)
  {
    hide FailsOnce;
    StepRefines(env, s, Submit);
    actions := PendingCanFail(env, Step(env, s, Submit).value);
    FailsAfter(env, s, Submit, actions, s.history);
    actions := [Submit] + actions;
  }

  /** A final part goes on to be copied, submitted and hashed. */
  lemma {:induction false} CopyingCanFail(env: Env, s: System) returns (actions: seq<Action>)
    requires Inv(env, s) && s.auth.phase == ReceivingNonce
    requires s.usb.CopyingPart? && s.usb.part == 4 && s.usb.copied <= |s.usb.data| == 32
    ensures FailsOnce(env, s, actions, s.history + [NoncePart(s.usb.id, 4, s.usb.data)])
    decreases 32 - s.usb.copied
  {
    var a := if s.usb.copied < 32 then CopyByte else SwapPart;
    StepRefines(env, s, a);
    var t := Step(env, s, a).value;
    if a.CopyByte? {
      actions := CopyingCanFail(env, t);
    } else {
      actions := SubmittedCanFail(env, t);
    }
    FailsAfter(env, s, a, actions, s.history + [NoncePart(s.usb.id, 4, s.usb.data)]);
    actions := [a] + actions;
  }

  /** From a fresh start, one part 4 and one failing library call are all it takes to get stuck. */
  lemma StuckIsReachable(env: Env) returns (actions: seq<Action>)
    requires env.provisioned
    ensures FailsOnce(env, START, actions, [NoncePart(0, 4, Zeros(32))])
  {
    var part := SetNonce(0, 4, Zeros(32));
    StepRefines(env, START, part);
    actions := CopyingCanFail(env, Step(env, START, part).value);
    assert [] + [NoncePart(0, 4, Zeros(32))] == [NoncePart(0, 4, Zeros(32))];
    FailsAfter(env, START, part, actions, [NoncePart(0, 4, Zeros(32))]);
    actions := [part] + actions;
  }

  /** The first position from `from` on where `a` is not yet `b`. */
  function Agree(a: Block, b: Block, from: nat): (r: nat)
    requires from <= 256
    ensures from <= r <= 256
    ensures forall i :: from <= i < r ==> a[i] == b[i]
    ensures r < 256 ==> a[r] != b[r]
    decreases 256 - from
  {
    if from == 256 || a[from] != b[from] then from else Agree(a, b, from + 1)
  }

  /** A step that brings the system closer to receiving the next nonce. */
  ghost function Onward(env: Env, s: System): Action {
    match s.auth.phase
    case WaitingToSign =>
      if s.usb.Submitting? then Submit else if s.worker.WorkerIdle? then Wake
      else if s.worker.Loading? then LoadJob else Claim
    case SigningNonce =>
      (match s.worker
       case Hashing(_, seen) => if |seen| < 256 then HashByte else HashDone(true)
       case WritingSignature(_, digest) =>
         var want := env.pssSign(digest);
         var at := Agree(s.signature, want, 0);
         if at < 256 then WriteSignature(at, want[at]) else SignDone(true)
       case _ => Finish)
    case _ =>
      if s.usb.UsbIdle? then WriteHeader else if s.usb.HeaderWritten? then LoadChunk
      else if s.usb.ReadingChunk? && |s.usb.payload| < 56 then ReadByte else SwapChunk
  }

  ghost function Distance(env: Env, s: System): nat {
    match s.auth.phase
    case ReceivingNonce => 0
    case WaitingToSign =>
      9000 + (if s.usb.Submitting? then 4 else if s.worker.WorkerIdle? then 3 else if s.worker.Loading? then 2 else 1)
    case SigningNonce =>
      (match s.worker
       case Hashing(_, seen) => if |seen| <= 256 then 8000 - |seen| else 8000
       case WritingSignature(_, digest) => 7000 - Agree(s.signature, env.pssSign(digest), 0)
       case _ => 6000)
    case SendingSignature =>
      (if s.auth.nextPart < CHUNKS then CHUNKS - s.auth.nextPart else 0) * 100
      + (if s.usb.ReadingChunk? && |s.usb.payload| <= 56 then 56 - |s.usb.payload|
         else if s.usb.HeaderWritten? then 70 else 80)
  }

  /** Writing the first wrong byte lengthens the right prefix; without one the buffer is right. */
  lemma AgreeGrows(a: Block, b: Block)
    ensures var at := Agree(a, b, 0);
            if at == 256 then a == b else Agree(a[at := b[at]], b, 0) > at
  {
    var at := Agree(a, b, 0);
    if at < 256 {
      AgreeAtLeast(a[at := b[at]], b, 0, at + 1);
    }
  }

  lemma {:induction false} AgreeAtLeast(a: Block, b: Block, from: nat, to: nat)
    requires from <= to <= 256 && forall i :: from <= i < to ==> a[i] == b[i]
    ensures Agree(a, b, from) >= to
    decreases 256 - from
  {
    if from < to {
      AgreeAtLeast(a, b, from + 1, to);
    }
  }

  lemma OnwardDescends(env: Env, s: System)
    requires Inv(env, s) && s.auth.phase != ReceivingNonce && !Stuck(s)
    ensures Step(env, s, Onward(env, s)).Some?
    ensures var t := Step(env, s, Onward(env, s)).value; Inv(env, t) && !Stuck(t) && Distance(env, t) < Distance(env, s)
  {
    hide Agree, AfterChunk, AfterPart, Abs, Visible;
    if s.worker.WritingSignature? {
      AgreeGrows(s.signature, env.pssSign(s.worker.digest));
    }
    StepRefines(env, s, Onward(env, s));
    if s.usb.ReadingChunk? {
      ChunkAdvances(s.auth);
    }
  }

  lemma ChunkAdvances(cur: AuthState)
    requires cur.phase == SendingSignature && cur.nextPart < CHUNKS
    ensures var next := AfterChunk(cur);
      next.phase == ReceivingNonce || (next.phase == SendingSignature && next.nextPart == cur.nextPart + 1)
  {
  }

  lemma ExecCons(env: Env, s: System, a: Action, rest: seq<Action>)
    requires Step(env, s, a).Some?
    ensures Exec(env, s, [a] + rest) == Exec(env, Step(env, s, a).value, rest)
  {
    var all := [a] + rest;
    if rest == [] {
      assert all[..0] == [];
    } else {
      var n := |rest| - 1;
      ExecCons(env, s, a, rest[..n]);
      assert all[..n + 1] == [a] + rest[..n];
    }
  }

  lemma {:induction false} WayBack(env: Env, s: System) returns (actions: seq<Action>)
    requires Inv(env, s) && !Stuck(s)
    ensures Exec(env, s, actions).Some? && Exec(env, s, actions).value.auth.phase == ReceivingNonce
    decreases Distance(env, s)
  {
    if s.auth.phase == ReceivingNonce {
      actions := [];
    } else {
      OnwardDescends(env, s);
      var a := Onward(env, s);
      var rest := WayBack(env, Step(env, s, a).value);
      ExecCons(env, s, a, rest);
      actions := [a] + rest;
    }
  }

  /** A reachable system can take another nonce if and only if its worker did not fail. */
  lemma CanReturnIffNotStuck(env: Env, actions: seq<Action>)
    requires Exec(env, START, actions).Some?
    ensures var s := Exec(env, START, actions).value;
      !Stuck(s) <==> exists more :: Exec(env, s, more).Some? && Exec(env, s, more).value.auth.phase == ReceivingNonce
  {
    var s := Exec(env, START, actions).value;
    var log := ExecRefines(env, actions);
    if !Stuck(s) {
      var more := WayBack(env, s);
    } else {
      forall more | Exec(env, s, more).Some? ensures Exec(env, s, more).value.auth.phase != ReceivingNonce {
        StuckForever(env, s, more);
      }
    }
  }
}
