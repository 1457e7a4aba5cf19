/** Byte strings, the values that the firmware moves around with `memcpy`. */
module Bytes {

  type Byte = x: int | 0 <= x < 256 witness 0

  /** The contents of `s` after `data` has been copied over it from position `at` on. */
  function Splice<T>(s: seq<T>, at: nat, data: seq<T>): (r: seq<T>)
    requires at + |data| <= |s|
    ensures |r| == |s|
    ensures forall i :: 0 <= i < |s| ==> r[i] == if at <= i < at + |data| then data[i - at] else s[i]
  {
    s[..at] + data + s[at + |data|..]
  }

  /** Copies `src` into `dst[at..]`, one element at a time. */
  method Memcpy<T>(dst: array<T>, at: nat, src: seq<T>)
    requires at + |src| <= dst.Length
    modifies dst
    ensures dst[..] == Splice(old(dst[..]), at, src)
  {
    for i := 0 to |src|
      invariant forall j :: 0 <= j < dst.Length ==>
        dst[j] == if at <= j < at + i then src[j - at] else old(dst[..])[j]
    {
      dst[at + i] := src[i];
    }
  }

  function Zeros(n: nat): (r: seq<Byte>)
    ensures |r| == n && forall i :: 0 <= i < n ==> r[i] == 0
  {
    seq(n, _ => 0)
  }

  /** All byte strings of `parts`, one after the other. */
  function Concat<T>(parts: seq<seq<T>>): (r: seq<T>)
  {
    if parts == [] then [] else parts[0] + Concat(parts[1..])
  }

  lemma ConcatOne<T>(part: seq<T>)
    ensures Concat([part]) == part
  {
    assert [part][1..] == [];
  }

  /** Two adjacent splices are one. */
  lemma SpliceTwice<T>(s: seq<T>, at: nat, d1: seq<T>, d2: seq<T>)
    requires at + |d1| + |d2| <= |s|
    ensures Splice(s, at, d1 + d2) == Splice(Splice(s, at, d1), at + |d1|, d2)
  {
    var a, b := Splice(s, at, d1 + d2), Splice(Splice(s, at, d1), at + |d1|, d2);
    forall i | 0 <= i < |s| ensures a[i] == b[i] {}
  }
}
