/**
 * The device side of PS4 authentication as it runs when nothing interleaves: the reports 0xF0 and 0xF1 and
 * the signing job. Module AuthInterleaving shows that interleaving the two threads adds no behaviour.
 */
module AuthDevice {
  import opened Bytes
  import opened Options
  import opened AuthSpec
  import opened SignatureStream

  // Checksums

  function Seal(crc32: seq<Byte> -> Word, src: seq<Byte>): (r: seq<Byte>) {
    src + crc32(src)
  }

  predicate CheckCrc(crc32: seq<Byte> -> Word, data: seq<Byte>) {
    |data| >= 4 && crc32(data[..|data| - 4]) == data[|data| - 4..]
  }

  /** The messages that pass the check are exactly the sealed ones, for any checksum function. */
  lemma CheckCrcIffSealed(crc32: seq<Byte> -> Word, data: seq<Byte>)
    ensures CheckCrc(crc32, data) <==> exists src :: data == Seal(crc32, src)
  {
    if CheckCrc(crc32, data) {
      var src := data[..|data| - 4];
      assert data == Seal(crc32, src);
    }
    forall src | data == Seal(crc32, src) ensures CheckCrc(crc32, data) {
      assert data[..|data| - 4] == src;
    }
  }

  method WriteWithCrc(crc32: seq<Byte> -> Word, dst: array<Byte>, src: seq<Byte>) returns (size: int)
    modifies dst
    ensures dst.Length < |src| + 4 ==> size == -1 && dst[..] == old(dst[..])
    ensures dst.Length >= |src| + 4 ==>
      size == |src| + 4 && dst[..size] == Seal(crc32, src) && dst[size..] == old(dst[size..])
  {
    if dst.Length < 4 || dst.Length - 4 < |src| {
      return -1;
    }
    var crc := crc32(src);
    Memcpy(dst, 0, src);
    Memcpy(dst, |src|, crc);
    return |src| + 4;
  }

  // Report 0xF0

  datatype Part = Part(id: Byte, part: Byte, data: seq<Byte>)

  /** What `SetReport(0xF0)` reads out of a report before it calls `set_nonce`. */
  function ParsePart(crc32: seq<Byte> -> Word, report: seq<Byte>): (r: Option<Part>)
    ensures r.Some? && r.value.part <= 4 ==> Fits(r.value.part, r.value.data)
  {
    if |report| != 64 || !CheckCrc(crc32, report) then None
    else
      var data := report[4..60];
      Some(Part(report[1], report[2], if report[2] == 4 then data[..32] else data))
  }

  /** The report in which a host sends part `part`; the last one is padded to full length. */
  function PartReport(crc32: seq<Byte> -> Word, id: Byte, part: Byte, data: seq<Byte>): seq<Byte>
    requires Fits(part, data)
  {
    Seal(crc32, [0xF0, id, part, 0] + data + Zeros(56 - |data|))
  }

  lemma PartReportRoundTrip(crc32: seq<Byte> -> Word, id: Byte, part: Byte, data: seq<Byte>)
    requires Fits(part, data)
    ensures ParsePart(crc32, PartReport(crc32, id, part, data)) == Some(Part(id, part, data))
  {
    var body := [0xF0, id, part, 0] + data + Zeros(56 - |data|);
    var report := Seal(crc32, body);
    assert report[..60] == body && report[60..] == crc32(body);
    assert report[4..60] == data + Zeros(56 - |data|);
    assert (data + Zeros(56 - |data|))[..|data|] == data;
    assert report[1] == body[1] && report[2] == body[2];
    if part != 4 {
      assert report[4..60] == data;
    }
  }

  // Runs of reports

  /** What reaches the device: a report 0xF0, or anything else that happens, which may be refused as well. */
  datatype Stimulus = Report(bytes: seq<Byte>) | Other(ev: Event)

  /** The part number that a report 0xF0 is accepted for, if it is. */
  function TakenFor(env: Env, s: State, bytes: seq<Byte>): (part: Option<Byte>)
    ensures part.Some? ==> part.value <= 4
  {
    match ParsePart(env.crc32, bytes)
    case None => None
    case Some(p) => if Accepts(env, s, p.id, p.part) then Some(p.part) else None
  }

  ghost function After(env: Env, s: State, x: Stimulus): State {
    match x
    case Report(bytes) =>
      if TakenFor(env, s, bytes).None? then s
      else
        var p := ParsePart(env.crc32, bytes).value;
        Next(env, s, NoncePart(p.id, p.part, p.data)).value
    case Other(ev) => if ev.NoncePart? then s else Next(env, s, ev).GetOr(s)
  }

  ghost function AfterAll(env: Env, s: State, xs: seq<Stimulus>): State {
    if xs == [] then s else After(env, AfterAll(env, s, xs[..|xs| - 1]), xs[|xs| - 1])
  }

  /** Stimulus `i` is a report that is accepted for `part`. */
  ghost predicate TakenAt(env: Env, s: State, xs: seq<Stimulus>, i: nat, part: Byte)
    requires i < |xs|
  {
    xs[i].Report? && TakenFor(env, AfterAll(env, s, xs[..i]), xs[i].bytes) == Some(part)
  }

  function Slot(nonce: Block, part: Byte): seq<Byte>
    requires part <= 4
  {
    nonce[part * 56..part * 56 + PartLength(part)]
  }

  /** Only a report that is accepted for its part writes to a slot, and it leaves its own payload there. */
  lemma AfterOnSlot(env: Env, s: State, x: Stimulus, part: Byte)
    requires part <= 4
    ensures Slot(After(env, s, x).nonce, part)
            == if x.Report? && TakenFor(env, s, x.bytes) == Some(part) then x.bytes[4..4 + PartLength(part)]
               else Slot(s.nonce, part)
  {
    if x.Report? && TakenFor(env, s, x.bytes).Some? {
      var p := ParsePart(env.crc32, x.bytes).value;
      assert x.bytes[4..60][..32] == x.bytes[4..36];
      assert p.data == x.bytes[4..4 + PartLength(p.part)];
      SpliceOnSlot(s.nonce, p.part, p.data, part);
    }
  }

  lemma SpliceOnSlot(nonce: Block, written: Byte, data: seq<Byte>, part: Byte)
    requires part <= 4 && Fits(written, data)
    ensures Slot(Splice(nonce, written * 56, data), part) == if written == part then data else Slot(nonce, part)
  {
  }

  lemma {:induction false} UntakenSlotStays(env: Env, s: State, xs: seq<Stimulus>, part: Byte)
    requires part <= 4 && forall j :: 0 <= j < |xs| ==> !TakenAt(env, s, xs, j, part)
    ensures Slot(AfterAll(env, s, xs).nonce, part) == Slot(s.nonce, part)
  {
    hide After, TakenFor, Slot;
    if xs != [] {
      var n := |xs| - 1;
      forall j | 0 <= j < n ensures !TakenAt(env, s, xs[..n], j, part) {
        assert !TakenAt(env, s, xs, j, part) && xs[..n][..j] == xs[..j];
      }
      UntakenSlotStays(env, s, xs[..n], part);
      assert !TakenAt(env, s, xs, n, part);
      AfterOnSlot(env, AfterAll(env, s, xs[..n]), xs[n], part);
    }
  }

  /** After any reports, and whatever else happens, each slot holds the payload bytes of the last report that was
      accepted for it. */
  lemma {:induction false} SlotHoldsLastReport(env: Env, s: State, xs: seq<Stimulus>, i: nat, part: Byte)
    requires i < |xs| && part <= 4 && TakenAt(env, s, xs, i, part)
    requires forall j :: i < j < |xs| ==> !TakenAt(env, s, xs, j, part)
    ensures Slot(AfterAll(env, s, xs).nonce, part) == xs[i].bytes[4..4 + PartLength(part)]
  {
    hide After, TakenFor, Slot;
    var n := |xs| - 1;
    AfterOnSlot(env, AfterAll(env, s, xs[..n]), xs[n], part);
    if i < n {
      assert xs[..n][..i] == xs[..i];
      forall j | i < j < n ensures !TakenAt(env, s, xs[..n], j, part) {
        assert !TakenAt(env, s, xs, j, part) && xs[..n][..j] == xs[..j];
      }
      assert !TakenAt(env, s, xs, n, part);
      SlotHoldsLastReport(env, s, xs[..n], i, part);
    }
  }

  // Report 0xF1

  function ChunkReport(env: Env, id: Byte, k: nat, payload: seq<Byte>): seq<Byte>
    requires k < CHUNKS
  {
    Seal(env.crc32, [0xF1, id, k, 0] + payload)
  }

  /** What a host reads out of a report 0xF1. */
  function ReadChunk(crc32: seq<Byte> -> Word, report: seq<Byte>): Option<Event> {
    if |report| != 64 || crc32(report[..60]) != report[60..] || report[0] != 0xF1 then None
    else Some(ChunkSent(report[1], report[2], report[4..60]))
  }

  /** The host finds the id, the index and the 56 bytes that were sent. */
  lemma ChunkReportRoundTrip(env: Env, id: Byte, k: nat, payload: seq<Byte>)
    requires k < CHUNKS && |payload| == 56
    ensures var report := ChunkReport(env, id, k, payload);
      && ReadChunk(env.crc32, report) == Some(ChunkSent(id, k, payload))
      && |report| == 64 && report[..4] == [0xF1, id, k, 0]
  {
    var body := [0xF1, id, k, 0] + payload;
    var report := ChunkReport(env, id, k, payload);
    assert report[..60] == body && report[60..] == env.crc32(body);
    assert report[4..60] == payload;
  }

  class Ps4Auth {
    const env: Env
    var auth: AuthState
    const nonce: array<Byte>
    const nonceSignature: array<Byte>
    // A signing job sits in the work queue.
    var submitted: bool

    ghost predicate Valid()
      reads this, nonce, nonceSignature
    {
      && nonce.Length == 256 && nonceSignature.Length == 256 && nonce != nonceSignature
      && (auth.phase.SendingSignature? ==> auth.nextPart < CHUNKS)
    }

    ghost function Abs(): State
      requires Valid()
      reads this, nonce, nonceSignature
    {
      Abstract(auth, nonce[..], nonceSignature[..])
    }

    constructor (env: Env)
      ensures Valid() && fresh(nonce) && fresh(nonceSignature)
      ensures this.env == env && Abs() == INIT && !submitted
    {
      this.env := env;
      auth := RESET;
      nonce := new Byte[256](_ => 0);
      nonceSignature := new Byte[256](_ => 0);
      submitted := false;
      new;
      assert nonce[..] == Zeros(256);
    }

    method Cas(expected: AuthState, desired: AuthState) returns (ok: bool)
      modifies this`auth
      ensures ok <==> old(auth) == expected
      ensures auth == if ok then desired else old(auth)
    {
      ok := auth == expected;
      if ok {
        auth := desired;
      }
    }

    /** `set_nonce`: one `NoncePart` event, or no effect at all. */
    method SetNonce(id: Byte, part: Byte, data: seq<Byte>) returns (ok: bool)
      requires Valid() && (part <= 4 ==> Fits(part, data))
      modifies this, nonce
      ensures Valid()
      ensures ok <==> Accepts(env, old(Abs()), id, part)
      ensures ok ==> Some(Abs()) == Next(env, old(Abs()), NoncePart(id, part, data))
      ensures !ok ==> auth == old(auth) && nonce[..] == old(nonce[..])
      ensures submitted == (old(submitted) || (ok && part == 4))
    {
      if !env.provisioned {
        return false;
      }
      var current := auth;
      if !current.phase.ReceivingNonce? || part > 4 || (part != 0 && id != current.nonceId) {
        return false;
      }
      Memcpy(nonce, part * 56, data);
      var next := AfterPart(current, id, part);
      ok := Cas(current, next);
      if part == 4 {
        submitted := true;
      }
    }

    /** `SetReport(0xF0)` */
    method SetReport(report: seq<Byte>) returns (ok: bool)
      requires Valid()
      modifies this, nonce
      ensures Valid()
      ensures var p := ParsePart(env.crc32, report);
        && (ok <==> p.Some? && Accepts(env, old(Abs()), p.value.id, p.value.part))
        && (ok ==> Some(Abs()) == Next(env, old(Abs()), NoncePart(p.value.id, p.value.part, p.value.data)))
        && (!ok ==> auth == old(auth) && nonce[..] == old(nonce[..]))
      ensures ok == TakenFor(env, old(Abs()), report).Some? && Abs() == After(env, old(Abs()), Report(report))
      ensures ok <==>
        && |report| == 64 && env.crc32(report[..60]) == report[60..]
        && env.provisioned && old(auth).phase == ReceivingNonce
        && report[2] <= 4 && (report[2] == 0 || report[1] == old(auth).nonceId)
    {
      if |report| != 64 {
        return false;
      }
      if !CheckCrc(env.crc32, report) {
        return false;
      }
      var id, part := report[1], report[2];
      var data := report[4..][..56];
      if part == 4 {
        data := data[..32];
      }
      assert report[4..][..56] == report[4..60];
      ok := SetNonce(id, part, data);
    }

    /**
     * `sign_nonce`, run by the worker once a job is submitted. Either library call may fail, and a signing
     * call that fails may have written any `debris`; the state is then left at `Signing`.
     */
    method SignNonce(hashOk: bool, signOk: bool, debris: Block)
      requires Valid() && submitted
      modifies this, nonceSignature
      ensures Valid() && !submitted
      ensures old(auth).phase != WaitingToSign ==> auth == old(auth) && nonceSignature[..] == old(nonceSignature[..])
      ensures old(auth).phase == WaitingToSign ==>
        && Next(env, old(Abs()), SignStarted).Some?
        && var started := Next(env, old(Abs()), SignStarted).value;
           if hashOk && signOk then Some(Abs()) == Next(env, started, SignFinished) else Abs() == started
    {
      submitted := false;
      var current := auth;
      if current.phase != WaitingToSign {
        return;
      }
      var next := current.(phase := SigningNonce);
      var ok := Cas(current, next);
      if !hashOk {
        return;
      }
      var digest := env.sha256(nonce[..]);
      if !signOk {
        Memcpy(nonceSignature, 0, debris);
        return;
      }
      Memcpy(nonceSignature, 0, env.pssSign(digest));
      assert nonceSignature[..] == env.Sign(nonce[..]);
      ok := Cas(next, next.(phase := SendingSignature, nextPart := 0));
    }

    /** `get_next_signature_chunk` on the window `buf[lo..hi)` */
    method GetNextSignatureChunk(buf: array<Byte>, lo: nat, hi: nat) returns (ok: bool)
      requires Valid() && lo <= hi <= buf.Length && buf != nonce && buf != nonceSignature
      modifies this`auth, buf
      ensures Valid()
      ensures ok <==> hi - lo == 56 && old(auth).phase.SendingSignature?
      ensures !ok ==> auth == old(auth) && buf[..] == old(buf[..])
      ensures ok ==> var payload := env.Chunk(nonceSignature[..], old(auth).nextPart);
        && buf[..] == Splice(old(buf[..]), lo, payload)
        && Some(Abs()) == Next(env, old(Abs()), ChunkSent(old(auth).nonceId, old(auth).nextPart, payload))
    {
      if hi - lo != 56 {
        return false;
      }
      var current := auth;
      var offset: nat := current.nextPart * 56;
      if !current.phase.SendingSignature? {
        return false;
      }
      var parts := env.Parts(nonceSignature[..]);
      var panicked := CopySignature(buf, lo, hi, offset, parts);
      assert Concat(parts) == env.Blob(nonceSignature[..]);
      assert !panicked;
      ok := Cas(current, AfterChunk(current));
    }

    /**
     * `GetFeatureReport(0xF1)`: the header names the very chunk that follows it, and the report passes
     * the host's check.
     */
    method GetReport(buf: array<Byte>) returns (size: int)
      requires Valid() && buf.Length > 0 && buf != nonce && buf != nonceSignature
      modifies this`auth, buf
      ensures Valid()
      ensures size == if old(auth).phase.SendingSignature? && buf.Length == 64 then 64 else -1
      ensures size == -1 ==> auth == old(auth) && buf[1..] == old(buf[1..])
      ensures size == 64 ==>
        var k, payload := old(auth).nextPart, env.Chunk(nonceSignature[..], old(auth).nextPart);
        && buf[..] == ChunkReport(env, old(auth).nonceId, k, payload)
        && Some(Abs()) == Next(env, old(Abs()), ChunkSent(old(auth).nonceId, k, payload))
    {
      buf[0] := 0xF1;
      var state := auth;
      if !state.phase.SendingSignature? || buf.Length != 64 {
        return -1;
      }
      var data := new Byte[60](_ => 0);
      data[0], data[1], data[2], data[3] := 0xF1, state.nonceId, state.nextPart, 0;
      var ok := GetNextSignatureChunk(data, 4, 60);
      if !ok {
        return -1;
      }
      ghost var payload := env.Chunk(nonceSignature[..], state.nextPart);
      assert data[..] == [0xF1, state.nonceId, state.nextPart, 0] + payload;
      size := WriteWithCrc(env.crc32, buf, data[..]);
      assert buf[..] == buf[..size];
    }
  }
}
