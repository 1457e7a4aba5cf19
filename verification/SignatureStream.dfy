/** `copy_generic` and `copy_signature`: streaming a blob that exists only as a list of parts. */
module SignatureStream {
  import opened Bytes

  /** A `span` is the window `[lo..hi)` of a buffer. Returns how many bytes were copied into it. */
  method CopyGeneric(buf: array<Byte>, lo: nat, hi: nat, offset: nat, arg: seq<Byte>) returns (bytes: nat)
    requires lo <= hi <= buf.Length && offset <= |arg|
    modifies buf
    ensures bytes == if |arg| - offset > hi - lo then hi - lo else |arg| - offset
    ensures buf[..] == Splice(old(buf[..]), lo, arg[offset..offset + bytes])
  {
    bytes := |arg| - offset;
    if bytes > hi - lo {
      bytes := hi - lo;
    }
    Memcpy(buf, lo, arg[offset..offset + bytes]);
  }

  /** What is left of the blob from `offset` on, cut to `length` bytes; shorter if the parts run out. */
  function Window<T>(blob: seq<T>, offset: nat, length: nat): (r: seq<T>)
    ensures |r| <= length && (|r| == length <==> length == 0 || offset + length <= |blob|)
  {
    if offset >= |blob| then []
    else if offset + length <= |blob| then blob[offset..offset + length]
    else blob[offset..]
  }

  /** Skipping a whole part is the same as dropping it from the list. */
  lemma WindowSkip<T>(first: seq<T>, rest: seq<T>, offset: nat, length: nat)
    requires offset >= |first|
    ensures Window(first + rest, offset, length) == Window(rest, offset - |first|, length)
  {
  }

  /** Taking `n` bytes out of the first part leaves a window that starts at the second part. */
  lemma WindowTake<T>(first: seq<T>, rest: seq<T>, offset: nat, length: nat, n: nat)
    requires offset < |first|
    requires n == if |first| - offset > length then length else |first| - offset
    ensures Window(first + rest, offset, length) == first[offset..offset + n] + Window(rest, 0, length - n)
  {
    if n == length {
      assert Window(rest, 0, length - n) == [];
    }
  }

  /** One part copied: what is left to do still leads to the same buffer. */
  lemma CopyStep<T>(before: seq<T>, at: nat, part: seq<T>, rest: seq<T>, skip: nat, length: nat, n: nat)
    requires at + length <= |before| && skip < |part| && n == if |part| - skip > length then length else |part| - skip
    ensures var after := Splice(before, at, part[skip..skip + n]);
      && |Window(part + rest, skip, length)| == n + |Window(rest, 0, length - n)|
      && Splice(after, at + n, Window(rest, 0, length - n)) == Splice(before, at, Window(part + rest, skip, length))
  {
    WindowTake(part, rest, skip, length, n);
    SpliceTwice(before, at, part[skip..skip + n], Window(rest, 0, length - n));
  }

  lemma NothingLeft<T>(s: seq<T>, at: nat, blob: seq<T>, offset: nat, length: nat)
    requires at <= |s| && (blob == [] || length == 0)
    ensures Window(blob, offset, length) == [] && Splice(s, at, []) == s
  {
  }

  /**
   * `copy_signature` for any list of parts. It fills `buf[lo..hi)` with the blob from `offset` on, and
   * reaches the PANIC exactly when there are bytes wanted that the blob does not have.
   */
  method CopySignature(buf: array<Byte>, lo: nat, hi: nat, offset: nat, parts: seq<seq<Byte>>) returns (panicked: bool)
    requires lo <= hi <= buf.Length
    modifies buf
    ensures panicked <==> lo < hi && offset + (hi - lo) > |Concat(parts)|
    ensures var want := Window(Concat(parts), offset, hi - lo);
            lo + |want| <= hi && buf[..] == Splice(old(buf[..]), lo, want)
  {
    hide Splice, Window;
    ghost var want := Window(Concat(parts), offset, hi - lo);
    ghost var finished := Splice(buf[..], lo, want);
    var at: nat, skip: nat := lo, offset;
    var i := 0;
    assert parts[0..] == parts;
    while i < |parts|
      invariant 0 <= i <= |parts| && lo <= at <= hi
      invariant at - lo + |Window(Concat(parts[i..]), skip, hi - at)| == |want|
      invariant Splice(buf[..], at, Window(Concat(parts[i..]), skip, hi - at)) == finished
    {
      var part := parts[i];
      ghost var rest := Concat(parts[i + 1..]);
      assert parts[i..][1..] == parts[i + 1..];
      if skip >= |part| {
        WindowSkip(part, rest, skip, hi - at);
        skip := skip - |part|;
        i := i + 1;
        continue;
      }
      ghost var now := buf[..];
      var bytes := CopyGeneric(buf, at, hi, skip, part);
      CopyStep(now, at, part, rest, skip, hi - at, bytes);
      at, skip := at + bytes, 0;
      i := i + 1;
      if at == hi {
        break;
      }
    }
    NothingLeft(buf[..], at, Concat(parts[i..]), skip, hi - at);
    panicked := at != hi;
  }
}
