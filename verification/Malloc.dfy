/** The bucket allocator: a packed bitset per bucket and address arithmetic. */
module Malloc {
  import opened Arithmetic
  import opened FiniteSets
  import opened Options

  function Mask(bit: nat): bv8
    requires bit < 8
  {
    match bit
    case 0 => 1
    case 1 => 2
    case 2 => 4
    case 3 => 8
    case 4 => 16
    case 5 => 32
    case 6 => 64
    case _ => 128
  }

  predicate Bit(byte: bv8, bit: nat)
    requires bit < 8
  {
    byte & Mask(bit) != 0
  }

  function SetBit(byte: bv8, bit: nat, value: bool): bv8
    requires bit < 8
  {
    if value then byte | Mask(bit) else byte & !Mask(bit)
  }

  /** Setting or clearing one bit of a byte leaves the other seven alone. */
  lemma BitUpdate(byte: bv8, bit: nat, value: bool, other: nat)
    requires bit < 8 && other < 8
    ensures Bit(SetBit(byte, bit, value), other) <==> if other == bit then value else Bit(byte, other)
  {
  }

  lemma ByteInRange(i: nat, bits: nat)
    requires i < bits
    ensures i / 8 < (bits + 7) / 8
  {
  }

  lemma SameBit(i: nat, j: nat)
    requires i / 8 == j / 8 && i % 8 == j % 8
    ensures i == j
  {
  }

  ghost predicate InBytes(bytes: seq<bv8>, i: nat) {
    i / 8 < |bytes| && Bit(bytes[i / 8], i % 8)
  }

  /** The indices of the bits that are set. */
  ghost function MembersOf(bytes: seq<bv8>, bits: nat): (s: set<nat>)
    ensures forall i: nat :: i in s <==> i < bits && InBytes(bytes, i)
  {
    set i: nat | i < bits && InBytes(bytes, i)
  }

  lemma SetMember(bytes: seq<bv8>, bits: nat, idx: nat, value: bool)
    requires idx < bits && idx / 8 < |bytes|
    ensures MembersOf(bytes[idx / 8 := SetBit(bytes[idx / 8], idx % 8, value)], bits)
            == if value then MembersOf(bytes, bits) + {idx} else MembersOf(bytes, bits) - {idx}
  {
    hide Bit, SetBit, MembersOf;
    var after := bytes[idx / 8 := SetBit(bytes[idx / 8], idx % 8, value)];
    forall i: nat ensures InBytes(after, i) <==> if i == idx then value else InBytes(bytes, i) {
      if i / 8 == idx / 8 {
        BitUpdate(bytes[idx / 8], idx % 8, value, i % 8);
        if i % 8 == idx % 8 {
          SameBit(i, idx);
        }
      }
    }
  }

  class Bitset {
    const bits: nat
    const data: array<bv8>

    ghost predicate Valid() {
      data.Length == (bits + 7) / 8
    }

    ghost function Members(): set<nat>
      reads data
    {
      MembersOf(data[..], bits)
    }

    constructor (bits: nat)
      ensures Valid() && fresh(data) && this.bits == bits && Members() == {}
    {
      this.bits := bits;
      data := new bv8[(bits + 7) / 8](_ => 0);
    }

    method Get(idx: nat) returns (value: bool)
      requires Valid() && idx < bits
      ensures value <==> idx in Members()
    {
      ByteInRange(idx, bits);
      var byte := data[idx / 8];
      value := byte & Mask(idx % 8) != 0;
    }

    method Set(idx: nat, value: bool)
      requires Valid() && idx < bits
      modifies data
      ensures Members() == if value then old(Members()) + {idx} else old(Members()) - {idx}
    {
      hide Bit, MembersOf;
      ByteInRange(idx, bits);
      SetMember(data[..], bits, idx, value);
      var byte := data[idx / 8];
      if value {
        byte := byte | Mask(idx % 8);
      } else {
        byte := byte & !Mask(idx % 8);
      }
      data[idx / 8] := byte;
      assert data[..] == old(data[..])[idx / 8 := SetBit(old(data[idx / 8]), idx % 8, value)];
    }

    method FindFirstUnset() returns (result: Option<nat>)
      requires Valid()
      ensures result == FirstUnset(Members(), bits)
    {
      for i := 0 to bits
        invariant forall j :: 0 <= j < i ==> j in Members()
      {
        var taken := Get(i);
        if !taken {
          FirstUnsetIs(Members(), bits, Some(i));
          return Some(i);
        }
      }
      FirstUnsetIs(Members(), bits, None);
      return None;
    }
  }

  ghost function FirstUnset(used: set<nat>, count: nat): (r: Option<nat>)
  {
    if count == 0 then None
    else
      var before := FirstUnset(used, count - 1);
      if before.Some? then before else if count - 1 in used then None else Some(count - 1)
  }

  /** The lowest index that is not in use, or nothing exactly if all are. */
  lemma {:induction false} FirstUnsetIs(used: set<nat>, count: nat, r: Option<nat>)
    ensures FirstUnset(used, count) == r <==>
      match r
      case None => forall j :: 0 <= j < count ==> j in used
      case Some(i) => i < count && i !in used && forall j :: 0 <= j < i ==> j in used
  {
    if count > 0 {
      FirstUnsetIs(used, count - 1, FirstUnset(used, count - 1));
      FirstUnsetIs(used, count - 1, r);
      FirstUnsetIs(used, count - 1, None);
    }
  }

  // Buckets

  /** `count` blocks of `size` bytes from address `base` on, followed by the bitset and padding to a word. */
  datatype Geometry = Geometry(base: nat, size: nat, count: nat)
  {
    function Block(i: nat): nat {
      base + i * size
    }

    function End(): nat {
      base + (count * size + (count + 7) / 8 + 3) / 4 * 4
    }

    /** The test that `Allocator::free` makes. */
    predicate Contains(ptr: nat) {
      base <= ptr < End()
    }

    /** The pointer subtraction in `Bucket::free`. */
    function Index(ptr: nat): nat
      requires base <= ptr && size > 0
    {
      (ptr - base) / size
    }
  }

  lemma DivExact(i: nat, size: nat)
    requires size > 0
    ensures i * size / size == i
  {
    var q, r := i * size / size, i * size % size;
    assert i * size == q * size + r;
    if q < i {
      MulGap(q, i, size);
    } else if i < q {
      MulGap(i, q, size);
    }
  }

  lemma BlockInside(g: Geometry, i: nat)
    requires i < g.count && g.size > 0
    ensures g.Contains(g.Block(i)) && g.Block(i) + g.size <= g.base + g.count * g.size && g.Index(g.Block(i)) == i
  {
    MulGap(i, g.count, g.size);
    DivExact(i, g.size);
  }

  lemma BlocksApart(g: Geometry, i: nat, j: nat)
    requires i < j
    ensures g.Block(i) + g.size <= g.Block(j)
  {
    MulGap(i, j, g.size);
  }

  class Bucket {
    const g: Geometry
    const used: Bitset

    ghost predicate Valid() {
      used.Valid() && used.bits == g.count && g.size > 0
    }

    constructor (g: Geometry)
      requires g.size > 0
      ensures Valid() && fresh(used) && fresh(used.data) && this.g == g && used.Members() == {}
    {
      this.g := g;
      used := new Bitset(g.count);
    }

    method Alloc() returns (ptr: Option<nat>)
      requires Valid()
      modifies used.data
      ensures match FirstUnset(old(used.Members()), g.count)
        case None => ptr == None && used.Members() == old(used.Members())
        case Some(i) => ptr == Some(g.Block(i)) && used.Members() == old(used.Members()) + {i}
    {
      var available := used.FindFirstUnset();
      if available.None? {
        return None;
      }
      var idx := available.value;
      FirstUnsetIs(used.Members(), g.count, Some(idx));
      used.Set(idx, true);
      return Some(g.Block(idx));
    }

    method Free(ptr: nat)
      requires Valid() && g.base <= ptr && g.Index(ptr) < g.count
      modifies used.data
      ensures used.Members() == old(used.Members()) - {g.Index(ptr)}
    {
      var idx := g.Index(ptr);
      used.Set(idx, false);
    }
  }

  // The allocator

  /** Two buckets, one after the other, away from the null pointer. */
  datatype Layout = Layout(smallBase: nat, bigBase: nat)
  {
    function Small(): Geometry {
      Geometry(smallBase, 264, 35)
    }

    function Big(): Geometry {
      Geometry(bigBase, 528, 1)
    }

    predicate Proper() {
      0 < smallBase && Small().End() <= bigBase
    }
  }

  /** `small` and `big` are the blocks in use; `live` maps the pointers that clients hold to the sizes they asked
      for. */
  datatype Heap = Heap(small: set<nat>, big: set<nat>, live: map<nat, nat>)

  ghost function AfterMalloc(l: Layout, h: Heap, size: nat): (Heap, Option<nat>) {
    if size <= 264 then
      match FirstUnset(h.small, 35)
      case None => (h, None)
      case Some(i) => (Heap(h.small + {i}, h.big, h.live[l.Small().Block(i) := size]), Some(l.Small().Block(i)))
    else if size <= 528 then
      match FirstUnset(h.big, 1)
      case None => (h, None)
      case Some(i) => (Heap(h.small, h.big + {i}, h.live[l.Big().Block(i) := size]), Some(l.Big().Block(i)))
    else (h, None)
  }

  ghost function AfterFree(l: Layout, h: Heap, ptr: nat): Heap {
    if l.Small().Contains(ptr) then Heap(h.small - {l.Small().Index(ptr)}, h.big, h.live - {ptr})
    else if l.Big().Contains(ptr) then Heap(h.small, h.big - {l.Big().Index(ptr)}, h.live - {ptr})
    else h
  }

  /** What clients may free: what they hold, and pointers that never came from here, such as null. */
  ghost predicate MayFree(l: Layout, h: Heap, ptr: nat) {
    ptr in h.live || (!l.Small().Contains(ptr) && !l.Big().Contains(ptr))
  }

  datatype Op = Malloc(size: nat) | Free(ptr: nat)

  ghost predicate Legal(l: Layout, h: Heap, ops: seq<Op>) {
    ops == [] || match ops[|ops| - 1]
                 case Malloc(_) => Legal(l, h, ops[..|ops| - 1])
                 case Free(ptr) => Legal(l, h, ops[..|ops| - 1]) && MayFree(l, After(l, h, ops[..|ops| - 1]), ptr)
  }

  ghost function After(l: Layout, h: Heap, ops: seq<Op>): Heap {
    if ops == [] then h
    else
      var before := After(l, h, ops[..|ops| - 1]);
      match ops[|ops| - 1]
      case Malloc(size) => AfterMalloc(l, before, size).0
      case Free(ptr) => AfterFree(l, before, ptr)
  }

  const EMPTY := Heap({}, {}, map[])

  ghost predicate IsBlock(g: Geometry, used: set<nat>, ptr: nat) {
    g.base <= ptr && g.size > 0 && g.Index(ptr) in used && g.Index(ptr) < g.count && ptr == g.Block(g.Index(ptr))
  }

  /** The bits that are set are exactly the blocks that clients hold, and each is big enough. */
  ghost predicate Sound(l: Layout, h: Heap) {
    && (forall i :: i in h.small ==> i < 35 && l.Small().Block(i) in h.live && h.live[l.Small().Block(i)] <= 264)
    && (forall i :: i in h.big ==> i < 1 && l.Big().Block(i) in h.live && h.live[l.Big().Block(i)] <= 528)
    && (forall p :: p in h.live ==> IsBlock(l.Small(), h.small, p) || IsBlock(l.Big(), h.big, p))
  }

  lemma MallocSound(l: Layout, h: Heap, size: nat)
    requires l.Proper() && Sound(l, h)
    ensures Sound(l, AfterMalloc(l, h, size).0)
  {
    var (t, r) := AfterMalloc(l, h, size);
    if r.Some? {
      var g, used := if size <= 264 then l.Small() else l.Big(), if size <= 264 then h.small else h.big;
      var i := FirstUnset(used, g.count).value;
      FirstUnsetIs(used, g.count, Some(i));
      BlockInside(g, i);
    }
  }

  lemma FreeSound(l: Layout, h: Heap, ptr: nat)
    requires l.Proper() && Sound(l, h) && MayFree(l, h, ptr)
    ensures Sound(l, AfterFree(l, h, ptr))
  {
    var t := AfterFree(l, h, ptr);
    if ptr in h.live {
      var g := if l.Small().Contains(ptr) then l.Small() else l.Big();
      if IsBlock(l.Small(), h.small, ptr) {
        BlockInside(l.Small(), l.Small().Index(ptr));
      } else {
        BlockInside(l.Big(), l.Big().Index(ptr));
      }
    }
  }

  lemma {:induction false} AlwaysSound(l: Layout, ops: seq<Op>)
    requires l.Proper() && Legal(l, EMPTY, ops)
    ensures Sound(l, After(l, EMPTY, ops))
  {
    if ops != [] {
      var before := After(l, EMPTY, ops[..|ops| - 1]);
      AlwaysSound(l, ops[..|ops| - 1]);
      match ops[|ops| - 1]
      case Malloc(size) => MallocSound(l, before, size);
      case Free(ptr) => FreeSound(l, before, ptr);
    }
  }

  /** `[p, p + n)` and `[q, q + m)` do not overlap. */
  predicate Apart(p: nat, n: nat, q: nat, m: nat) {
    p + n <= q || q + m <= p
  }

  /** In every legal run the memory that clients hold is pairwise disjoint, and lies inside the blocks of a bucket. */
  lemma LiveBlocksDisjoint(l: Layout, ops: seq<Op>, p: nat, q: nat)
    requires l.Proper() && Legal(l, EMPTY, ops)
    requires p in After(l, EMPTY, ops).live && q in After(l, EMPTY, ops).live && p != q
    ensures var live := After(l, EMPTY, ops).live;
      && Apart(p, live[p], q, live[q])
      && ((l.smallBase <= p && p + live[p] <= l.smallBase + 35 * 264)
          || (l.bigBase <= p && p + live[p] <= l.bigBase + 528))
  {
    AlwaysSound(l, ops);
    var h := After(l, EMPTY, ops);
    forall x | x == p || x == q
      ensures IsBlock(l.Small(), h.small, x) ==> x + 264 <= l.smallBase + 35 * 264
      ensures IsBlock(l.Big(), h.big, x) ==> x == l.bigBase
    {
      if IsBlock(l.Small(), h.small, x) {
        BlockInside(l.Small(), l.Small().Index(x));
      }
    }
    if IsBlock(l.Small(), h.small, p) && IsBlock(l.Small(), h.small, q) {
      var i, j := l.Small().Index(p), l.Small().Index(q);
      if i < j {
        BlocksApart(l.Small(), i, j);
      } else {
        BlocksApart(l.Small(), j, i);
      }
    }
  }

  /** `free` undoes exactly its own `malloc`. */
  lemma FreeUndoesMalloc(l: Layout, h: Heap, size: nat)
    requires l.Proper() && Sound(l, h) && AfterMalloc(l, h, size).1.Some?
    ensures var (t, r) := AfterMalloc(l, h, size);
            r.value !in h.live && AfterFree(l, t, r.value) == h
  {
    var (t, r) := AfterMalloc(l, h, size);
    var g, used := if size <= 264 then l.Small() else l.Big(), if size <= 264 then h.small else h.big;
    var i := FirstUnset(used, g.count).value;
    FirstUnsetIs(used, g.count, Some(i));
    BlockInside(g, i);
    assert used + {i} - {i} == used;
  }

  /** There is no fallback: a request fails exactly if it is too large for every bucket or the first bucket
      that it fits is full, whatever room the other has. */
  lemma NullExactlyWhenFull(l: Layout, h: Heap, size: nat)
    requires Sound(l, h)
    ensures AfterMalloc(l, h, size).1.None? <==>
      size > 528 || (if size <= 264 then |h.small| == 35 else |h.big| == 1)
  {
    var count, used := if size <= 264 then 35 else 1, if size <= 264 then h.small else h.big;
    FirstUnsetIs(used, count, None);
    FullSet(used, count);
  }

  class Allocator {
    const l: Layout
    const small: Bucket
    const big: Bucket
    ghost var live: map<nat, nat>

    ghost predicate Valid() {
      && l.Proper() && small.Valid() && big.Valid() && small.g == l.Small() && big.g == l.Big()
      && small.used.data != big.used.data
    }

    ghost function GetHeap(): Heap
      reads this, small.used.data, big.used.data
    {
      Heap(small.used.Members(), big.used.Members(), live)
    }

    constructor (l: Layout)
      requires l.Proper()
      ensures Valid() && fresh(small.used.data) && fresh(big.used.data) && this.l == l && GetHeap() == EMPTY
    {
      this.l := l;
      small := new Bucket(l.Small());
      big := new Bucket(l.Big());
      live := map[];
    }

    method Malloc(size: nat) returns (ptr: Option<nat>)
      requires Valid()
      modifies this`live, small.used.data, big.used.data
      ensures (GetHeap(), ptr) == AfterMalloc(l, old(GetHeap()), size)
    {
      if size <= 264 {
        ptr := small.Alloc();
      } else if size <= 528 {
        ptr := big.Alloc();
      } else {
        ptr := None;
      }
      if ptr.Some? {
        live := live[ptr.value := size];
      }
    }

    method Free(ptr: nat)
      requires Valid() && Sound(l, GetHeap()) && MayFree(l, GetHeap(), ptr)
      modifies this`live, small.used.data, big.used.data
      ensures GetHeap() == AfterFree(l, old(GetHeap()), ptr) && Sound(l, GetHeap())
    {
      FreeSound(l, GetHeap(), ptr);
      if ptr in live {
        HeldBlock(l, GetHeap(), ptr);
      }
      if small.g.Contains(ptr) {
        small.Free(ptr);
        live := live - {ptr};
      } else if big.g.Contains(ptr) {
        big.Free(ptr);
        live := live - {ptr};
      }
    }
  }

  lemma HeldBlock(l: Layout, h: Heap, ptr: nat)
    requires l.Proper() && Sound(l, h) && ptr in h.live
    ensures l.Small().Contains(ptr) ==> l.Small().Index(ptr) < 35
    ensures l.Big().Contains(ptr) ==> l.Big().Index(ptr) < 1
    ensures l.Small().Contains(ptr) || l.Big().Contains(ptr)
  {
    if IsBlock(l.Small(), h.small, ptr) {
      BlockInside(l.Small(), l.Small().Index(ptr));
    } else {
      BlockInside(l.Big(), l.Big().Index(ptr));
    }
  }
}
