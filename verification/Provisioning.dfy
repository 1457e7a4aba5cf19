/** Sending an image to the device in chunks, and committing it to flash. */
module Provisioning {
  import opened Arithmetic
  import opened Bytes
  import opened Options

  const SIZE: nat := 4096
  const CHUNK: nat := 62
  const WRITE: Byte := 0x43
  const FLUSH: Byte := 0x44
  const REBOOT: Byte := 0x41
  const MAGIC: nat := 0x1209214c

  /** What the flash driver answers when asked to open, erase and program the partition. */
  datatype Driver = Driver(opens: bool, erases: bool, programs: bool)

  /** The data of a report starts with its id again. Only feature reports are for this module. */
  datatype Report = Report(feature: bool, id: Byte, data: seq<Byte>, driver: Driver)

  /** `flash` is what has been programmed since the partition was erased. */
  datatype State = State(data: seq<Byte>, length: nat, flash: seq<Byte>)

  ghost predicate Valid(s: State) {
    |s.data| == SIZE && s.length <= SIZE
  }

  // Single reports

  predicate WellFormed(r: Report) {
    r.feature && r.id == WRITE && |r.data| >= 2
  }

  function Begin(r: Report): nat
    requires WellFormed(r)
  {
    r.data[1] * CHUNK
  }

  function End(r: Report): nat
    requires WellFormed(r)
  {
    Begin(r) + |r.data| - 2
  }

  predicate Accepted(r: Report) {
    WellFormed(r) && End(r) <= SIZE
  }

  function LittleEndian(b: seq<Byte>): nat {
    if b == [] then 0 else b[0] + 256 * LittleEndian(b[1..])
  }

  predicate Commits(r: Report) {
    r.feature && r.id == FLUSH && |r.data| == 5 && LittleEndian(r.data[1..]) == MAGIC
  }

  function Step(s: State, r: Report): State
    requires Valid(s)
  {
    if Accepted(r) then s.(data := Splice(s.data, Begin(r), r.data[2..]), length := Max(s.length, End(r)))
    else if Commits(r) && r.driver.opens && r.driver.erases then
      s.(flash := if r.driver.programs then s.data[..s.length] else [])
    else s
  }

  /** What the host is told; `None` hands the report on to someone else. */
  function Answer(r: Report): Option<bool> {
    if !r.feature then None
    else if r.id == REBOOT then Some(false)
    else if r.id == WRITE then Some(Accepted(r))
    else if r.id == FLUSH then Some(Commits(r) && r.driver.opens && r.driver.erases && r.driver.programs)
    else None
  }

  lemma LittleEndianOfFour(a: Byte, b: Byte, c: Byte, d: Byte)
    ensures LittleEndian([a, b, c, d]) == a + 256 * (b + 256 * (c + 256 * d))
  {
    assert [a, b, c, d][1..] == [b, c, d] && [b, c, d][1..] == [c, d] && [c, d][1..] == [d] && [d][1..] == [];
    assert LittleEndian([d]) == d;
    assert LittleEndian([c, d]) == c + 256 * d;
    assert LittleEndian([b, c, d]) == b + 256 * (c + 256 * d);
  }

  /** Only these four bytes commit. */
  lemma MagicBytes(r: Report)
    ensures Commits(r) <==> r.feature && r.id == FLUSH && |r.data| == 5 && r.data[1..] == [0x4c, 0x21, 0x09, 0x12]
  {
    if |r.data| == 5 {
      LittleEndianOfFour(r.data[1], r.data[2], r.data[3], r.data[4]);
      assert r.data[1..] == [r.data[1], r.data[2], r.data[3], r.data[4]];
    }
  }

  /** The chunk that a write carries is in the buffer, at its place: 62 bytes for each number. */
  predicate Holds(s: State, r: Report) {
    && |r.data| >= 2 && 62 * r.data[1] + |r.data| - 2 <= |s.data|
    && s.data[62 * r.data[1]..62 * r.data[1] + |r.data| - 2] == r.data[2..]
  }

  /** A write is answered with true exactly if the buffer of 4096 bytes holds its data afterwards. */
  lemma WriteIsAnsweredTruly(s: State, r: Report)
    requires Valid(s) && |s.data| == 4096 && r.feature && r.id == 0x43
    ensures Answer(r) == Some(Holds(Step(s, r), r))
  {
    if Accepted(r) {
      var t, at := Step(s, r), Begin(r);
      assert t.data[at..at + |r.data| - 2] == r.data[2..];
    }
  }

  /** A flush request is answered with true exactly if the partition then holds the buffer up to its length. */
  lemma FlushIsAnsweredTruly(s: State, r: Report)
    requires Valid(s) && r.feature && r.id == 0x44
    ensures Answer(r).Some?
    ensures Answer(r) == Some(true) ==> Step(s, r).flash == s.data[..s.length]
    ensures Answer(r) == Some(false) ==> Step(s, r).flash == s.flash || Step(s, r).flash == []
  {
  }

  // Runs

  function Run(s: State, rs: seq<Report>): (t: State)
    requires Valid(s)
    ensures Valid(t)
  {
    if rs == [] then s else Step(Run(s, rs[..|rs| - 1]), rs[|rs| - 1])
  }

  predicate Covers(r: Report, i: nat) {
    Accepted(r) && Begin(r) <= i < End(r)
  }

  lemma StepAt(s: State, r: Report, i: nat)
    requires Valid(s) && i < SIZE
    ensures Step(s, r).data[i] == if Covers(r, i) then r.data[2 + i - Begin(r)] else s.data[i]
  {
  }

  lemma {:induction false} UncoveredIsUntouched(s: State, rs: seq<Report>, i: nat)
    requires Valid(s) && i < SIZE && forall r :: r in rs ==> !Covers(r, i)
    ensures Run(s, rs).data[i] == s.data[i]
  {
    if rs != [] {
      hide Covers, Step;
      StepAt(Run(s, rs[..|rs| - 1]), rs[|rs| - 1], i);
      UncoveredIsUntouched(s, rs[..|rs| - 1], i);
    }
  }

  /** Each byte of the buffer comes from the last accepted report that covers it. */
  lemma {:induction false} LastWriteWins(s: State, rs: seq<Report>, i: nat, k: nat)
    requires Valid(s) && i < SIZE && k < |rs|
    requires Covers(rs[k], i) && forall r :: r in rs[k + 1..] ==> !Covers(r, i)
    ensures Run(s, rs).data[i] == rs[k].data[2 + i - Begin(rs[k])]
  {
    var n := |rs| - 1;
    StepAt(Run(s, rs[..n]), rs[n], i);
    if k < n {
      hide Covers, Step;
      assert rs[n] in rs[k + 1..];
      assert rs[..n][k + 1..] == rs[k + 1..][..n - k - 1];
      LastWriteWins(s, rs[..n], i, k);
    }
  }

  /** The length is the end of the accepted write that reaches furthest, since the device started. */
  lemma {:induction false} LengthIsFurthestEnd(s: State, rs: seq<Report>)
    requires Valid(s)
    ensures s.length <= Run(s, rs).length
    ensures forall r :: r in rs && Accepted(r) ==> End(r) <= Run(s, rs).length
    ensures Run(s, rs).length == s.length || exists r :: r in rs && Accepted(r) && End(r) == Run(s, rs).length
  {
    if rs != [] {
      var n := |rs| - 1;
      LengthIsFurthestEnd(s, rs[..n]);
      assert rs == rs[..n] + [rs[n]];
    }
  }

  // Images

  /** Carries the `k`th chunk of the image, which is shorter than the others if it is the last. */
  predicate IsChunk(image: seq<Byte>, k: nat, r: Report) {
    && WellFormed(r) && r.data[1] == k && k * CHUNK < |image|
    && r.data[2..] == image[k * CHUNK..if (k + 1) * CHUNK <= |image| then (k + 1) * CHUNK else |image|]
  }

  ghost predicate Harmless(image: seq<Byte>, r: Report) {
    Accepted(r) ==> exists k: nat :: IsChunk(image, k, r)
  }

  lemma ChunkCoversItsBytes(image: seq<Byte>, k: nat, r: Report)
    requires |image| <= SIZE && IsChunk(image, k, r)
    ensures Accepted(r) && End(r) <= |image|
    ensures forall i :: 0 <= i < |image| ==> (Covers(r, i) <==> i / CHUNK == k)
    ensures forall i :: Begin(r) <= i < End(r) ==> r.data[2 + i - Begin(r)] == image[i]
  {
    forall i | Begin(r) <= i < End(r) ensures r.data[2 + i - Begin(r)] == image[i] {
      assert r.data[2..][i - Begin(r)] == r.data[2 + i - Begin(r)];
    }
  }

  /** In every order, with repeats, and with rejected reports in between. */
  lemma {:induction false} SentBytesAgree(s: State, image: seq<Byte>, rs: seq<Report>)
    requires Valid(s) && |image| <= SIZE && forall r :: r in rs ==> Harmless(image, r)
    ensures forall i :: 0 <= i < |image| && (exists r :: r in rs && Covers(r, i)) ==> Run(s, rs).data[i] == image[i]
  {
    if rs != [] {
      var n := |rs| - 1;
      assert rs == rs[..n] + [rs[n]];
      SentBytesAgree(s, image, rs[..n]);
      if Accepted(rs[n]) {
        assert Harmless(image, rs[n]);
        var k: nat :| IsChunk(image, k, rs[n]);
        ChunkCoversItsBytes(image, k, rs[n]);
      }
    }
  }

  ghost predicate AllSent(image: seq<Byte>, rs: seq<Report>) {
    forall k: nat :: k * CHUNK < |image| ==> exists r :: r in rs && IsChunk(image, k, r)
  }

  lemma FurthestChunk(s: State, image: seq<Byte>, rs: seq<Report>)
    requires Valid(s) && |image| <= SIZE && AllSent(image, rs) && forall r :: r in rs ==> Harmless(image, r)
    ensures Run(s, rs).length == Max(s.length, |image|)
  {
    LengthIsFurthestEnd(s, rs);
    forall r | r in rs && Accepted(r) ensures End(r) <= |image| {
      assert Harmless(image, r);
      var k: nat :| IsChunk(image, k, r);
      ChunkCoversItsBytes(image, k, r);
    }
    if image != [] {
      var k := (|image| - 1) / CHUNK;
      assert k * CHUNK < |image|;
      var r :| r in rs && IsChunk(image, k, r);
      ChunkCoversItsBytes(image, k, r);
    }
  }

  /**
   * An image of at most 4096 bytes whose chunks are sent in any order, with repeats and among reports that are
   * rejected, is assembled in the buffer. Committing then writes exactly the image if and only if nothing longer
   * was sent since the device started, for the length never shrinks.
   */
  lemma ImageIsFlushed(s: State, image: seq<Byte>, rs: seq<Report>, commit: Report)
    requires Valid(s) && |image| <= SIZE && AllSent(image, rs) && forall r :: r in rs ==> Harmless(image, r)
    requires Commits(commit) && Answer(commit) == Some(true)
    ensures Run(s, rs).data[..|image|] == image
    ensures Step(Run(s, rs), commit).flash == image <==> s.length <= |image|
  {
    var t := Run(s, rs);
    SentBytesAgree(s, image, rs);
    FurthestChunk(s, image, rs);
    forall i | 0 <= i < |image| ensures t.data[i] == image[i] {
      var k := i / CHUNK;
      assert k * CHUNK < |image|;
      var r :| r in rs && IsChunk(image, k, r);
      ChunkCoversItsBytes(image, k, r);
      assert Covers(r, i);
    }
    if s.length > |image| {
      assert |Step(t, commit).flash| != |image|;
    }
  }

  // The device

  class Store {
    const buffer: array<Byte>
    var length: nat
    // Stands for the partition.
    var flash: seq<Byte>

    ghost function GetState(): State
      reads this, buffer
    {
      State(buffer[..], length, flash)
    }

    constructor ()
      ensures GetState() == State(Zeros(SIZE), 0, []) && fresh(buffer)
    {
      buffer := new Byte[SIZE](_ => 0);
      length, flash := 0, [];
    }

    /** `provisioning_write` */
    method Write(data: seq<Byte>, offset: nat) returns (ok: bool)
      requires Valid(GetState())
      modifies this`length, buffer
      ensures ok <==> offset + |data| <= SIZE
      ensures GetState() == if !ok then old(GetState()) else
        old(GetState()).(data := Splice(old(buffer[..]), offset, data), length := Max(old(length), offset + |data|))
    {
      if |data| + offset > buffer.Length {
        return false;
      }
      Memcpy(buffer, offset, data);
      length := Max(length, offset + |data|);
      return true;
    }

    /** `provisioning_flush` */
    method Commit(driver: Driver) returns (ok: bool)
      requires Valid(GetState())
      modifies this`flash
      ensures ok <==> driver.opens && driver.erases && driver.programs
      ensures flash == if ok then buffer[..length] else if driver.opens && driver.erases then [] else old(flash)
    {
      if !driver.opens {
        return false;
      }
      if !driver.erases {
        return false;
      }
      flash := [];
      if !driver.programs {
        return false;
      }
      flash := buffer[..length];
      return true;
    }

    /** `Hid::SetReportPL`, unless it reboots the device, which ends the run. */
    method SetReport(r: Report) returns (answer: Option<bool>)
      requires Valid(GetState())
      modifies this, buffer
      ensures Valid(GetState()) && GetState() == Step(old(GetState()), r) && answer == Answer(r)
    {
      if !r.feature {
        return None;
      }
      if r.id == REBOOT {
        return Some(false);
      } else if r.id == WRITE {
        if |r.data| < 2 {
          return Some(false);
        }
        var ok := Write(r.data[2..], r.data[1] * CHUNK);
        return Some(ok);
      } else if r.id == FLUSH {
        if |r.data| != 5 {
          return Some(false);
        }
        if LittleEndian(r.data[1..]) != MAGIC {
          return Some(false);
        }
        var ok := Commit(r.driver);
        return Some(ok);
      }
      return None;
    }
  }
}
