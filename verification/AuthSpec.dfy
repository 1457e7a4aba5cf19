/**
 * PS4 authentication seen from outside: which nonce parts were taken, when the signature was
 * computed and which chunks of it were handed out. Every operation is one atomic event.
 */
module AuthSpec {
  import opened Bytes
  import opened Options

  type Block = s: seq<Byte> | |s| == 256 witness Zeros(256)
  type Serial = s: seq<Byte> | |s| == 16 witness Zeros(16)
  type Word = s: seq<Byte> | |s| == 4 witness Zeros(4)

  /**
   * What the protocol is parameterised by: the provisioned key and the library functions. The random
   * generator passed to the PSS signing call yields zeros, so the signature depends on the digest alone.
   */
  datatype Env = Env(provisioned: bool, serial: Serial, modulus: Block, exponent: Block, keySignature: Block,
                     sha256: Block -> seq<Byte>, pssSign: seq<Byte> -> Block, crc32: seq<Byte> -> Word)
  {
    function Sign(nonce: Block): Block {
      pssSign(sha256(nonce))
    }

    /** The parts that `copy_signature` walks over. */
    function Parts(signature: Block): seq<seq<Byte>> {
      [signature, serial, modulus, exponent, keySignature, Zeros(24)]
    }

    lemma PartsLayout(signature: Block)
      ensures var all := signature + serial + modulus + exponent + keySignature + Zeros(24);
              Concat(Parts(signature)) == all && |all| == CHUNKS * 56
    {
      var p := Parts(signature);
      var p1, p2, p3, p4 := p[1..], p[2..], p[3..], p[4..];
      assert p[1..][1..] == p2 && p2[1..] == p3 && p3[1..] == p4 && p4[1..] == [Zeros(24)];
      ConcatOne(Zeros(24));
      assert Concat(p4) == keySignature + Zeros(24);
      assert Concat(p3) == exponent + Concat(p4);
      assert Concat(p2) == modulus + Concat(p3);
      assert Concat(p1) == serial + Concat(p2);
      assert Concat(p) == signature + Concat(p1);
    }

    /** The whole answer to a nonce: 19 chunks of 56 bytes. */
    function Blob(signature: Block): (r: seq<Byte>)
      ensures |r| == CHUNKS * 56
    {
      PartsLayout(signature);
      Concat(Parts(signature))
    }

    /** Bytes 56k to 56k+56 of the answer. */
    function Chunk(signature: Block, k: nat): (r: seq<Byte>)
      requires k < CHUNKS
      ensures |r| == 56
    {
      Blob(signature)[k * 56..k * 56 + 56]
    }
  }

  const CHUNKS: nat := 19

  /** The observable state. `next_part` means nothing while a nonce is being received, so it is not here. */
  datatype State =
    | Receiving(id: Byte, nonce: Block)
    | Waiting(id: Byte, nonce: Block)
    | Signing(id: Byte, nonce: Block)
    | Sending(id: Byte, nonce: Block, signature: Block, next: nat)

  datatype Event =
    | NoncePart(id: Byte, part: Byte, data: seq<Byte>)
    | SignStarted
    | SignFinished
    | ChunkSent(id: Byte, index: nat, payload: seq<Byte>)

  // The words that the two threads exchange

  datatype Phase = ReceivingNonce | WaitingToSign | SigningNonce | SendingSignature

  /** The 32-bit word that both threads update by compare-and-swap. */
  datatype AuthState = AuthState(phase: Phase, nonceId: Byte, nextPart: Byte)

  const RESET: AuthState := AuthState(ReceivingNonce, 0, 0)

  function Bump(x: Byte): Byte {
    (x + 1) % 256
  }

  /** `set_nonce`: the state that is swapped in for `cur` once the data is in place. */
  function AfterPart(cur: AuthState, id: Byte, part: Byte): AuthState {
    if part == 4 then cur.(phase := WaitingToSign)
    else if part == 0 then cur.(nonceId := id)
    else cur.(nextPart := Bump(cur.nextPart))
  }

  /** `get_next_signature_chunk`: the state that is swapped in for `cur` once the chunk is copied. */
  function AfterChunk(cur: AuthState): AuthState {
    var next := cur.(nextPart := Bump(cur.nextPart));
    if next.nextPart == CHUNKS then next.(phase := ReceivingNonce, nextPart := 0) else next
  }

  /** What a word and two buffers stand for. */
  function Abstract(auth: AuthState, nonce: Block, signature: Block): State {
    match auth.phase
    case ReceivingNonce => Receiving(auth.nonceId, nonce)
    case WaitingToSign => Waiting(auth.nonceId, nonce)
    case SigningNonce => Signing(auth.nonceId, nonce)
    case SendingSignature => Sending(auth.nonceId, nonce, signature, auth.nextPart)
  }

  const INIT: State := Receiving(0, Zeros(256))

  /** 256 bytes in packets of 56 leave 32 for the last one. */
  function PartLength(part: Byte): nat {
    if part == 4 then 32 else 56
  }

  ghost predicate Fits(part: Byte, data: seq<Byte>) {
    part <= 4 && |data| == PartLength(part)
  }

  /** When `set_nonce` takes a part. Note that the order of the parts is not checked. */
  predicate Accepts(env: Env, s: State, id: Byte, part: Byte) {
    env.provisioned && s.Receiving? && part <= 4 && (part == 0 || id == s.id)
  }

  ghost function Next(env: Env, s: State, ev: Event): Option<State> {
    match ev
    case NoncePart(id, part, data) =>
      if Accepts(env, s, id, part) && Fits(part, data) then
        var nonce := Splice(s.nonce, part * 56, data);
        Some(if part == 4 then Waiting(s.id, nonce) else Receiving(if part == 0 then id else s.id, nonce))
      else None
    case SignStarted =>
      if s.Waiting? then Some(Signing(s.id, s.nonce)) else None
    case SignFinished =>
      if s.Signing? then Some(Sending(s.id, s.nonce, env.Sign(s.nonce), 0)) else None
    case ChunkSent(id, k, payload) =>
      if s.Sending? && s.next < CHUNKS && id == s.id && k == s.next && payload == env.Chunk(s.signature, k) then
        Some(if k + 1 == CHUNKS then Receiving(s.id, s.nonce) else s.(next := k + 1))
      else None
  }

  /** The state after the events of `log`, if they can happen in this order. */
  ghost function Run(env: Env, s: State, log: seq<Event>): Option<State> {
    if log == [] then Some(s)
    else
      var n := |log| - 1;
      match Run(env, s, log[..n])
      case None => None
      case Some(mid) => Next(env, mid, log[n])
  }

  lemma RunSnoc(env: Env, s: State, log: seq<Event>, ev: Event)
    requires Run(env, s, log).Some?
    ensures Run(env, s, log + [ev]) == Next(env, Run(env, s, log).value, ev)
  {
    assert (log + [ev])[..|log|] == log;
  }

  lemma {:induction false} RunConcat(env: Env, s: State, a: seq<Event>, b: seq<Event>)
    requires Run(env, s, a).Some?
    ensures Run(env, s, a + b) == Run(env, Run(env, s, a).value, b)
  {
    if b == [] {
      assert a + b == a;
    } else {
      var n := |b| - 1;
      assert (a + b)[..|a| + n] == a + b[..n];
      RunConcat(env, s, a, b[..n]);
    }
  }

  // Nonce reassembly

  /** The nonce buffer after the parts in `log` have been written to it, in order. */
  ghost function Reassemble(log: seq<Event>): Block {
    if log == [] then Zeros(256)
    else
      var before := Reassemble(log[..|log| - 1]);
      var ev := log[|log| - 1];
      if ev.NoncePart? && Fits(ev.part, ev.data) then Splice(before, ev.part * 56, ev.data) else before
  }

  ghost predicate IsPart(ev: Event, part: Byte) {
    ev.NoncePart? && ev.part == part && Fits(part, ev.data)
  }

  /** Each slot holds the last part written to it, whatever came before, after or in between. */
  lemma {:induction false} SlotHoldsLastPart(log: seq<Event>, i: nat, part: Byte)
    requires i < |log| && IsPart(log[i], part)
    requires forall j :: i < j < |log| ==> !IsPart(log[j], part)
    ensures Reassemble(log)[part * 56..part * 56 + PartLength(part)] == log[i].data
  {
    var n := |log| - 1;
    if i < n {
      SlotHoldsLastPart(log[..n], i, part);
      var before, after := Reassemble(log[..n]), Reassemble(log);
      assert before[part * 56..part * 56 + PartLength(part)] == after[part * 56..part * 56 + PartLength(part)];
    }
  }

  /** A slot that was never written still holds the zeros that the static buffer starts with. */
  lemma {:induction false} UnwrittenSlotIsZero(log: seq<Event>, part: Byte)
    requires part <= 4 && forall j :: 0 <= j < |log| ==> !IsPart(log[j], part)
    ensures Reassemble(log)[part * 56..part * 56 + PartLength(part)] == Zeros(PartLength(part))
  {
    if log != [] {
      var n := |log| - 1;
      UnwrittenSlotIsZero(log[..n], part);
      var before, after := Reassemble(log[..n]), Reassemble(log);
      assert before[part * 56..part * 56 + PartLength(part)] == after[part * 56..part * 56 + PartLength(part)];
    }
  }

  function PartEvents(id: Byte, data: seq<seq<Byte>>): (r: seq<Event>)
    requires |data| == 5
  {
    [NoncePart(id, 0, data[0]), NoncePart(id, 1, data[1]), NoncePart(id, 2, data[2]),
     NoncePart(id, 3, data[3]), NoncePart(id, 4, data[4])]
  }

  /** Parts 0 to 4 in order are taken from any receiving state, and nothing of the old nonce survives. */
  lemma FivePartsMakeTheNonce(env: Env, s: State, id: Byte, data: seq<seq<Byte>>)
    requires env.provisioned && s.Receiving?
    requires |data| == 5 && forall p: Byte :: p <= 4 ==> |data[p]| == PartLength(p)
    ensures var nonce := data[0] + data[1] + data[2] + data[3] + data[4];
            |nonce| == 256 && Run(env, s, PartEvents(id, data)) == Some(Waiting(id, nonce))
  {
    var log := PartEvents(id, data);
    var n1 := Splice(s.nonce, 0, data[0]);
    var n2 := Splice(n1, 56, data[1]);
    var n3 := Splice(n2, 112, data[2]);
    var n4 := Splice(n3, 168, data[3]);
    var n5 := Splice(n4, 224, data[4]);
    assert log[..4][..3] == log[..3] && log[..3][..2] == log[..2] && log[..2][..1] == log[..1] && log[..1][..0] == [];
    assert Run(env, s, log[..1]) == Some(Receiving(id, n1));
    assert Run(env, s, log[..2]) == Some(Receiving(id, n2));
    assert Run(env, s, log[..3]) == Some(Receiving(id, n3));
    assert Run(env, s, log[..4]) == Some(Receiving(id, n4));
    assert n5 == data[0] + data[1] + data[2] + data[3] + data[4];
  }

  // Data flow

  /** The events that the host takes part in. */
  ghost function Host(log: seq<Event>): seq<Event> {
    if log == [] then []
    else
      var ev := log[|log| - 1];
      Host(log[..|log| - 1]) + if ev.NoncePart? || ev.ChunkSent? then [ev] else []
  }

  ghost predicate FinalPartAt(log: seq<Event>, i: int, id: Byte) {
    0 <= i < |log| && IsPart(log[i], 4) && log[i].id == id
  }

  /**
   * If event `i` hands out a chunk, then the final part of a nonce was taken exactly `index + 1` host events
   * before under the same id, and the payload is the right slice of the signature of exactly the nonce
   * that was in the buffer at that moment.
   */
  ghost predicate Answers(env: Env, host: seq<Event>, i: nat)
    requires i < |host|
  {
    host[i].ChunkSent? ==>
      var start := i - 1 - host[i].index;
      && host[i].index < CHUNKS
      && FinalPartAt(host, start, host[i].id)
      && host[i].payload == env.Chunk(env.Sign(Reassemble(host[..start + 1])), host[i].index)
  }

  /** How many host events ago the final part of the nonce was taken. */
  function Age(s: State): nat {
    match s
    case Receiving(_, _) => 0
    case Waiting(_, _) => 1
    case Signing(_, _) => 1
    case Sending(_, _, _, k) => 1 + k
  }

  lemma AnswersPrefix(env: Env, host: seq<Event>, n: nat, i: nat)
    requires i < n <= |host|
    ensures Answers(env, host, i) <==> Answers(env, host[..n], i)
  {
    if host[i].ChunkSent? && i - 1 - host[i].index >= 0 {
      assert host[..n][..i - host[i].index] == host[..i - host[i].index];
    }
  }

  ghost predicate RoundBegan(s: State, host: seq<Event>) {
    !s.Receiving? ==>
      var start := |host| - Age(s);
      FinalPartAt(host, start, s.id) && Reassemble(host[..start + 1]) == s.nonce
  }

  /** The nonce is the reassembly of all parts taken, outside `Receiving` the current round began with a final
      part `Age` host events ago, and every chunk that was handed out answers its nonce. */
  ghost predicate Explained(env: Env, s: State, host: seq<Event>) {
    && s.nonce == Reassemble(host)
    && RoundBegan(s, host)
    && (s.Sending? ==> s.next < CHUNKS && s.signature == env.Sign(s.nonce))
    && forall i :: 0 <= i < |host| ==> Answers(env, host, i)
  }

  lemma OldAnswersStay(env: Env, host: seq<Event>, ev: Event)
    requires !ev.ChunkSent? && forall i :: 0 <= i < |host| ==> Answers(env, host, i)
    ensures forall i :: 0 <= i < |host + [ev]| ==> Answers(env, host + [ev], i)
  {
    var after := host + [ev];
    assert after[..|host|] == host;
    forall i | 0 <= i < |after| ensures Answers(env, after, i) {
      if i < |host| {
        AnswersPrefix(env, after, |host|, i);
      }
    }
  }

  lemma PartExplained(env: Env, s: State, host: seq<Event>, ev: Event)
    requires Explained(env, s, host) && ev.NoncePart? && Next(env, s, ev).Some?
    ensures Explained(env, Next(env, s, ev).value, host + [ev])
  {
    var t, after := Next(env, s, ev).value, host + [ev];
    assert after[..|host|] == host && after[..|after|] == after;
    assert t.nonce == Reassemble(after);
    OldAnswersStay(env, host, ev);
    hide Answers, Reassemble;
  }

  lemma ChunkExplained(env: Env, s: State, host: seq<Event>, ev: Event)
    requires Explained(env, s, host) && ev.ChunkSent? && Next(env, s, ev).Some?
    ensures Explained(env, Next(env, s, ev).value, host + [ev])
  {
    var t, after := Next(env, s, ev).value, host + [ev];
    assert after[..|host|] == host;
    assert t.nonce == Reassemble(after);
    var start := |host| - Age(s);
    assert after[..start + 1] == host[..start + 1];
    forall i | 0 <= i < |after| ensures Answers(env, after, i) {
      if i < |host| {
        AnswersPrefix(env, after, |host|, i);
      }
    }
  }

  lemma SilentExplained(env: Env, s: State, host: seq<Event>, ev: Event)
    requires Explained(env, s, host) && (ev.SignStarted? || ev.SignFinished?) && Next(env, s, ev).Some?
    ensures Explained(env, Next(env, s, ev).value, host)
  {
  }

  lemma NothingExplained(env: Env)
    ensures Explained(env, INIT, [])
  {
  }

  lemma {:induction false} History(env: Env, log: seq<Event>)
    requires Run(env, INIT, log).Some?
    ensures Explained(env, Run(env, INIT, log).value, Host(log))
  {
    hide Explained;
    if log == [] {
      NothingExplained(env);
    } else {
      var n := |log| - 1;
      var mid, before, ev := Run(env, INIT, log[..n]).value, Host(log[..n]), log[n];
      History(env, log[..n]);
      if ev.NoncePart? {
        PartExplained(env, mid, before, ev);
      } else if ev.ChunkSent? {
        ChunkExplained(env, mid, before, ev);
      } else {
        SilentExplained(env, mid, before, ev);
        assert Host(log) == before;
      }
    }
  }

  /** The only way a round can go once its nonce is complete. */
  function Round(env: Env, id: Byte, nonce: Block): (r: seq<Event>)
    ensures |r| == CHUNKS + 2
  {
    [SignStarted, SignFinished]
    + seq(CHUNKS, k requires 0 <= k < CHUNKS => ChunkSent(id, k, env.Chunk(env.Sign(nonce), k)))
  }

  function RoundState(env: Env, id: Byte, nonce: Block, n: nat): State {
    if n == 0 then Waiting(id, nonce)
    else if n == 1 then Signing(id, nonce)
    else if n < CHUNKS + 2 then Sending(id, nonce, env.Sign(nonce), n - 2)
    else Receiving(id, nonce)
  }

  /**
   * From a complete nonce the events are forced: signing starts and finishes, chunks 0 to 18 go out in
   * order, and no part of another nonce is taken until the last of them has.
   */
  lemma {:induction false} RoundIsForced(env: Env, id: Byte, nonce: Block, log: seq<Event>)
    requires |log| <= CHUNKS + 2
    ensures var forced := Round(env, id, nonce)[..|log|];
      (Run(env, Waiting(id, nonce), log).Some? <==> log == forced)
      && Run(env, Waiting(id, nonce), forced) == Some(RoundState(env, id, nonce, |log|))
  {
    hide Next, Round;
    if log != [] {
      var n := |log| - 1;
      RoundIsForced(env, id, nonce, log[..n]);
      var round := Round(env, id, nonce);
      assert round[..n + 1] == round[..n] + [round[n]];
      assert log == log[..n] + [log[n]];
      RunSnoc(env, Waiting(id, nonce), round[..n], round[n]);
      OnlyNext(env, id, nonce, n, log[n]);
    } else {
      assert Round(env, id, nonce)[..0] == [];
    }
  }

  lemma OnlyNext(env: Env, id: Byte, nonce: Block, n: nat, ev: Event)
    requires n < CHUNKS + 2
    ensures Next(env, RoundState(env, id, nonce, n), ev).Some? <==> ev == Round(env, id, nonce)[n]
    ensures Next(env, RoundState(env, id, nonce, n), Round(env, id, nonce)[n])
            == Some(RoundState(env, id, nonce, n + 1))
  {
  }

  function Payloads(log: seq<Event>): seq<seq<Byte>> {
    if log == [] then []
    else (if log[0].ChunkSent? then [log[0].payload] else []) + Payloads(log[1..])
  }

  lemma {:induction false} PayloadsOfRound(env: Env, id: Byte, nonce: Block, k: nat)
    requires k <= CHUNKS
    ensures Concat(Payloads(Round(env, id, nonce)[2 + k..])) == env.Blob(env.Sign(nonce))[k * 56..]
    decreases CHUNKS - k
  {
    var rest := Round(env, id, nonce)[2 + k..];
    if k < CHUNKS {
      PayloadsOfRound(env, id, nonce, k + 1);
      assert rest[1..] == Round(env, id, nonce)[2 + k + 1..];
      var payload := env.Chunk(env.Sign(nonce), k);
      assert Payloads(rest) == [payload] + Payloads(rest[1..]);
      assert ([payload] + Payloads(rest[1..]))[1..] == Payloads(rest[1..]);
    }
  }

  /**
   * A whole session: five parts in order, then the forced round. The device ends up ready for the next
   * nonce, and the 19 payloads put together are the signature of the five parts put together.
   */
  lemma SessionAnswersTheNonce(env: Env, s: State, id: Byte, data: seq<seq<Byte>>)
    requires env.provisioned && s.Receiving?
    requires |data| == 5 && forall p: Byte :: p <= 4 ==> |data[p]| == PartLength(p)
    ensures var nonce := data[0] + data[1] + data[2] + data[3] + data[4];
      && |nonce| == 256
      && Run(env, s, PartEvents(id, data) + Round(env, id, nonce)) == Some(Receiving(id, nonce))
      && Concat(Payloads(PartEvents(id, data) + Round(env, id, nonce))) == env.Blob(env.Sign(nonce))
  {
    FivePartsMakeTheNonce(env, s, id, data);
    var nonce: Block := data[0] + data[1] + data[2] + data[3] + data[4];
    var parts, round := PartEvents(id, data), Round(env, id, nonce);
    RunConcat(env, s, parts, round);
    RoundIsForced(env, id, nonce, round);
    assert round[..|round|] == round;
    PayloadsSkip(parts, round);
    PayloadsSkip(round[..2], round[2..]);
    assert round == round[..2] + round[2..];
    PayloadsOfRound(env, id, nonce, 0);
  }

  lemma {:induction false} PayloadsSkip(quiet: seq<Event>, log: seq<Event>)
    requires forall ev :: ev in quiet ==> !ev.ChunkSent?
    ensures Payloads(quiet + log) == Payloads(log)
  {
    if quiet == [] {
      assert quiet + log == log;
    } else {
      assert (quiet + log)[1..] == quiet[1..] + log;
      PayloadsSkip(quiet[1..], log);
    }
  }
}
