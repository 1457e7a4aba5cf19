/** The macro queue: a pool of nodes handed out to clients as chains, one of which may be playing. */
module MacroQueue {
  import opened Options
  import opened Buttons
  import opened Pool
  import opened Playback

  /** What clients can tell: the live chains, the player, and the chain that the player will free. */
  datatype View = View(chains: Chains, player: Player, owned: Option<nat>)

  /** The effect of one poll: a consumed chain is freed by the poll that applies its last entry. */
  function PollView(v: View, now: int): View {
    var p := Poll(v.player, now);
    if v.player.rest != [] && p.rest == [] then
      View(if v.owned.Some? then v.chains - {v.owned.value} else v.chains, p, None)
    else
      v.(player := p)
  }

  function PollsView(v: View, nows: seq<int>): View {
    if nows == [] then v else PollView(PollsView(v, nows[..|nows| - 1]), nows[|nows| - 1])
  }

  /** A chain given to the player is live until all of its entries have been applied, and then it is gone;
      no other chain is touched. */
  lemma {:induction false} ConsumedExactlyOnce(v: View, nows: seq<int>)
    requires v.player.rest != []
    ensures var es, k := v.player.rest, Applied(v.player.rest, v.player.nextTick, nows);
      PollsView(v, nows) == View(if k == |es| && v.owned.Some? then v.chains - {v.owned.value} else v.chains,
                                 Polls(v.player, nows), if k == |es| then None else v.owned)
  {
    if nows != [] {
      var n := |nows| - 1;
      ConsumedExactlyOnce(v, nows[..n]);
      Fidelity(v.player.rest, v.player.nextTick, v.player.input, nows[..n]);
      Fidelity(v.player.rest, v.player.nextTick, v.player.input, nows);
    }
  }

  // Runs of all operations

  /** What clients and the player do: take a chain of one node, lengthen a chain (which may be playing), fill in a node
      (which may be about to play), play a chain or none, poll, and give a chain back. */
  datatype Op =
    | Take(head: nat)
    | Extend(head: nat, node: nat, playing: Option<Entry>)
    | Fill(at: Option<nat>, entry: Entry)
    | Activate(queue: Option<nat>, entries: seq<Entry>, consume: bool, now: int)
    | PollAt(now: int)
    | Release(head: nat)

  /** What the queue and its clients keep to: nodes come from the free ones, and nobody gives back, plays or takes
      over a chain that is not theirs. */
  predicate Allowed(v: View, op: Op) {
    match op
    case Take(head) => head !in v.chains
    case Extend(head, _, playing) => head in v.chains && (playing.Some? ==> v.player.rest != [])
    case Fill(at, _) => at.Some? ==> at.value < |v.player.rest|
    case Activate(queue, entries, _, _) =>
      (queue.Some? ==> queue.value in v.chains && v.owned != queue) && (queue.None? <==> entries == [])
    case PollAt(_) => true
    case Release(head) => head in v.chains && v.owned != Some(head)
  }

  /** The chain that an operation frees. */
  function FreedBy(v: View, op: Op): Option<nat> {
    match op
    case Activate(_, _, _, _) => v.owned
    case PollAt(now) => if v.player.rest != [] && Poll(v.player, now).rest == [] then v.owned else None
    case Release(head) => Some(head)
    case _ => None
  }

  function Without(chains: Chains, freed: Option<nat>): Chains {
    if freed.Some? then chains - {freed.value} else chains
  }

  function StepView(v: View, op: Op): View
    requires Allowed(v, op)
  {
    match op
    case Take(head) => v.(chains := v.chains[head := [head]])
    case Extend(head, node, playing) =>
      var p := if playing.Some? then v.player.(rest := v.player.rest + [playing.value]) else v.player;
      v.(chains := v.chains[head := v.chains[head] + [node]], player := p)
    case Fill(at, entry) =>
      if at.Some? then v.(player := v.player.(rest := v.player.rest[at.value := entry])) else v
    case Activate(queue, entries, consume, now) =>
      View(Without(v.chains, v.owned), Player(entries, now, v.player.input), if consume then queue else None)
    case PollAt(now) => PollView(v, now)
    case Release(head) => v.(chains := v.chains - {head})
  }

  /** `op` is allowed and leads from `v` to `w`. */
  ghost predicate IsStep(v: View, op: Op, w: View) {
    Allowed(v, op) && w == StepView(v, op)
  }

  lemma TakeIsStep(v: View, k: nat)
    requires k !in v.chains
    ensures IsStep(v, Take(k), View(v.chains[k := [k]], v.player, v.owned))
  {
  }

  lemma ExtendIsStep(v: View, h: nat, k: nat, playing: Option<Entry>, rest: seq<Entry>)
    requires h in v.chains && (playing.Some? ==> v.player.rest != [])
    requires rest == v.player.rest + if playing.Some? then [playing.value] else []
    ensures IsStep(v, Extend(h, k, playing), View(v.chains[h := v.chains[h] + [k]], v.player.(rest := rest), v.owned))
  {
  }

  lemma FillIsStep(v: View, at: Option<nat>, e: Entry, rest: seq<Entry>)
    requires |rest| == |v.player.rest| && (at.Some? ==> at.value < |rest|)
    requires forall i :: 0 <= i < |rest| ==> rest[i] == if at == Some(i) then e else v.player.rest[i]
    ensures IsStep(v, Fill(at, e), View(v.chains, v.player.(rest := rest), v.owned))
  {
    assert rest == if at.Some? then v.player.rest[at.value := e] else v.player.rest;
  }

  lemma ActivateIsStep(v: View, queue: Option<nat>, entries: seq<Entry>, consume: bool, now: int)
    requires Allowed(v, Activate(queue, entries, consume, now))
    ensures IsStep(v, Activate(queue, entries, consume, now),
                   View(Without(v.chains, v.owned), Player(entries, now, v.player.input),
                        if consume then queue else None))
  {
  }

  lemma ReleaseIsStep(v: View, h: nat)
    requires h in v.chains && v.owned != Some(h)
    ensures IsStep(v, Release(h), View(v.chains - {h}, v.player, v.owned))
  {
  }

  function RunView(v: View, ops: seq<Op>): Option<View> {
    if ops == [] then Some(v)
    else
      match RunView(v, ops[..|ops| - 1])
      case None => None
      case Some(u) => if Allowed(u, ops[|ops| - 1]) then Some(StepView(u, ops[|ops| - 1])) else None
  }

  function Takes(ops: seq<Op>, h: nat): nat {
    if ops == [] then 0 else Takes(ops[..|ops| - 1], h) + if ops[|ops| - 1] == Take(h) then 1 else 0
  }

  function Frees(v: View, ops: seq<Op>, h: nat): nat {
    if ops == [] then 0
    else
      var u := RunView(v, ops[..|ops| - 1]);
      Frees(v, ops[..|ops| - 1], h) + if u.Some? && FreedBy(u.value, ops[|ops| - 1]) == Some(h) then 1 else 0
  }

  /** The chain that the player owns is live, and is playing. */
  predicate OwnsLive(v: View) {
    v.owned.Some? ==> v.owned.value in v.chains && v.player.rest != []
  }

  /**
   * In any run, each time that a chain is taken it is freed exactly once or still live: not a second time when it
   * plays out after all, nor when it is replaced, nor by its client.
   */
  lemma {:induction false} EachChainIsFreedOnce(input: Raw, ops: seq<Op>, h: nat)
    requires RunView(View(map[], Player([], 0, input), None), ops).Some?
    ensures var start := View(map[], Player([], 0, input), None); var v := RunView(start, ops).value;
      OwnsLive(v) && Takes(ops, h) == Frees(start, ops, h) + if h in v.chains then 1 else 0
  {
    if ops != [] {
      EachChainIsFreedOnce(input, ops[..|ops| - 1], h);
    }
  }

  /** Since chain `h` was taken, it has been activated to be consumed. */
  function Consumed(ops: seq<Op>, h: nat): bool {
    if ops == [] then false
    else
      match ops[|ops| - 1]
      case Take(head) => head != h && Consumed(ops[..|ops| - 1], h)
      case Activate(queue, _, consume, _) => (queue == Some(h) && consume) || Consumed(ops[..|ops| - 1], h)
      case _ => Consumed(ops[..|ops| - 1], h)
  }

  /**
   * In any run the player owns a chain if and only if it is live and was activated to be consumed. So no such chain
   * is left over when it has played out or was replaced, and a chain that was activated without is freed by its
   * client only.
   */
  lemma {:induction false} OwnedIffConsumed(input: Raw, ops: seq<Op>, h: nat)
    requires RunView(View(map[], Player([], 0, input), None), ops).Some?
    ensures var v := RunView(View(map[], Player([], 0, input), None), ops).value;
      v.owned == Some(h) <==> h in v.chains && Consumed(ops, h)
  {
    if ops != [] {
      var n := |ops| - 1;
      OwnedIffConsumed(input, ops[..n], h);
      EachChainIsFreedOnce(input, ops[..n], h);
      match ops[n] {
        case Activate(Some(g), _, _, _) => OwnedIffConsumed(input, ops[..n], g);
        case _ =>
      }
      hide Takes, Frees, Poll;
    }
  }

  /** When the player frees a chain: in the poll that applies its last entry, or when something else is activated. */
  lemma PlayerFrees(v: View, op: Op)
    requires Allowed(v, op) && (op.PollAt? || op.Activate?)
    ensures var freed := v.owned.Some? && (op.Activate? || (|v.player.rest| == 1 && v.player.nextTick < op.now));
      StepView(v, op).chains == if freed then v.chains - {v.owned.value} else v.chains
  {
  }

  /** What the naive allocator would pick: the first slot of the whole pool that is free. */
  ghost predicate FirstFree(used: seq<bool>, r: Option<nat>) {
    match r
    case None => forall j :: 0 <= j < |used| ==> used[j]
    case Some(k) => k < |used| && !used[k] && forall j :: 0 <= j < k ==> used[j]
  }

  class Queue {
    const size: nat
    const used: array<bool>
    const states: array<Raw>
    const delays: array<nat>
    const nexts: array<Option<nat>>
    // Slots before this one are in use.
    var lastAvail: nat
    var input: Raw
    var next: Option<nat>
    var freeHead: Option<nat>
    var nextTick: int
    ghost var chains: Chains
    ghost var home: Home
    // The nodes that the player has not applied yet.
    ghost var rest: seq<nat>

    ghost predicate PoolValid()
      reads this`lastAvail, this`chains, this`home, used, nexts
    {
      && used.Length == size && states.Length == size && delays.Length == size && nexts.Length == size
      && states as object != used && states as object != nexts && delays as object != used && delays as object != nexts
      && Linked(chains, home, nexts[..])
      && (forall k :: 0 <= k < size ==> (used[k] <==> k in home))
      && lastAvail <= size && (forall k :: 0 <= k < lastAvail ==> used[k])
    }

    /** The player is inside a live chain, and if it owns a chain then it is that one. */
    ghost predicate PlayerValid()
      reads this`chains, this`home, this`next, this`rest, this`freeHead
    {
      Cursor(chains, home, next, rest)
      && (freeHead.Some? ==> next.Some? && freeHead.value == home[next.value].0)
    }

    ghost predicate Valid()
      reads this, used, nexts
    {
      PoolValid() && PlayerValid()
    }

    ghost function EntryOf(k: nat): Entry
      reads states, delays
    {
      if k < states.Length && k < delays.Length then Entry(states[k], delays[k]) else Entry(AllUp(), 0)
    }

    ghost function Entries(nodes: seq<nat>): (es: seq<Entry>)
      reads states, delays
      ensures |es| == |nodes| && forall i :: 0 <= i < |nodes| ==> es[i] == EntryOf(nodes[i])
    {
      seq(|nodes|, i requires 0 <= i < |nodes| reads states, delays => EntryOf(nodes[i]))
    }

    ghost function GetView(): View
      reads this, states, delays
    {
      View(chains, Player(Entries(rest), nextTick, input), freeHead)
    }

    constructor (size: nat)
      ensures Valid() && fresh(used) && fresh(states) && fresh(delays) && fresh(nexts)
      ensures this.size == size && chains == map[] && home == map[] && next == None && freeHead == None
    {
      this.size := size;
      used := new bool[size](_ => false);
      states := new Raw[size](_ => AllUp());
      delays := new nat[size](_ => 0);
      nexts := new Option<nat>[size](_ => None);
      lastAvail, input, next, freeHead, nextTick := 0, AllUp(), None, None, 0;
      chains, home, rest := map[], map[], [];
    }

    /** The search of `input_queue_alloc`, which starts at the hint. */
    method FindFree() returns (result: Option<nat>)
      requires PoolValid()
      ensures FirstFree(used[..], result)
    {
      var i := lastAvail;
      while i < size
        invariant lastAvail <= i <= size
        invariant forall k :: 0 <= k < i ==> used[k]
      {
        if !used[i] {
          return Some(i);
        }
        i := i + 1;
      }
      return None;
    }

    /** `input_queue_alloc`: takes the lowest free slot of the whole pool, and fails exactly when there is none. */
    method Alloc() returns (result: Option<nat>)
      requires Valid()
      modifies this`lastAvail, this`chains, this`home, used, nexts
      ensures Valid() && FirstFree(old(used[..]), result)
      ensures result.None? ==> chains == old(chains) && home == old(home) && nexts[..] == old(nexts[..])
      ensures result.Some? ==> var k := result.value;
        && nexts[..] == old(nexts[..])[k := None] && k !in old(home) && k !in old(chains)
        && chains == old(chains)[k := [k]] && home == old(home)[k := (k, 0)]
    {
      hide Linked, Cursor;
      result := FindFree();
      CursorIsHome(chains, home, next, rest);
      if result.Some? {
        var k := result.value;
        AddChain(chains, home, nexts[..], k);
        AddCursor(chains, home, next, rest, k);
        used[k] := true;
        lastAvail := k + 1;
        nexts[k] := None;
        assert nexts[..] == old(nexts[..])[k := None];
        chains, home := chains[k := [k]], home[k := (k, 0)];
      }
    }

    ghost predicate IsTail(k: nat)
      reads this
    {
      k in home && home[k].0 in chains && home[k].1 == |chains[home[k].0]| - 1
    }

    /** `input_queue_append` to a node that ends its chain, which may be playing already. */
    method Append(tail: nat) returns (result: Option<nat>)
      requires Valid() && IsTail(tail)
      modifies this`lastAvail, this`chains, this`home, this`rest, used, nexts
      ensures Valid() && FirstFree(old(used[..]), result)
      ensures result.None? ==> chains == old(chains) && home == old(home) && rest == old(rest)
      ensures result.Some? ==> var h, i, k := old(home)[tail].0, old(home)[tail].1, result.value;
        && k !in old(home) && IsTail(k)
        && chains == old(chains)[h := old(chains)[h] + [k]] && home == old(home)[k := (h, i + 1)]
        && rest == if next.Some? && old(home)[next.value].0 == h then old(rest) + [k] else old(rest)
    {
      hide Linked, Cursor;
      CursorIsHome(chains, home, next, rest);
      ghost var chains0, home0, nexts0, h, i := chains, home, nexts[..], home[tail].0, home[tail].1;
      result := Alloc();
      if result.Some? {
        var k := result.value;
        ExtendChain(chains0, home0, nexts0, tail, k);
        nexts[tail] := Some(k);
        assert nexts[..] == nexts0[k := None][tail := Some(k)];
        chains, home := chains0[h := chains0[h] + [k]], home0[k := (h, i + 1)];
        ExtendCursor(chains0, home0, next, rest, h, i, k);
        rest := if next.Some? && home0[next.value].0 == h then rest + [k] else rest;
        assert home[k] == (h, i + 1) && |chains[h]| == i + 2;
        assert next.Some? ==> home[next.value] == home0[next.value];
        assert PoolValid();
      }
    }

    /** `input_queue_free`: frees exactly the nodes of the chain headed by `p`, each once. Clients may not free
        the chain that is playing; the player does so only when it is about to leave it. */
    method Free(p: Option<nat>)
      requires PoolValid() && (p.Some? ==> p.value in chains)
      modifies this`lastAvail, this`chains, this`home, used
      ensures PoolValid()
      ensures p.None? ==> chains == old(chains) && home == old(home)
      ensures p.Some? ==>
        chains == old(chains) - {p.value} && home == old(home) - NodesOf(old(chains)[p.value])
      ensures old(Cursor(chains, home, next, rest) && (p.Some? && next.Some? ==> home[next.value].0 != p.value)) ==>
        Cursor(chains, home, next, rest)
    {
      if p.None? {
        return;
      }
      ghost var c, i := chains[p.value], 0;
      var cur := p;
      while cur.Some?
        invariant chains == old(chains) && home == old(home)
        invariant 0 <= i <= |c| && cur == if i < |c| then Some(c[i]) else None
        invariant forall k :: 0 <= k < size ==> (used[k] <==> k in home && k !in c[..i])
        invariant lastAvail <= size && forall k :: 0 <= k < lastAvail ==> used[k]
        decreases |c| - i
      {
        var offset := cur.value;
        assert At(chains, nexts[..], home[c[i]], c[i]);
        cur := nexts[offset];
        used[offset] := false;
        if offset < lastAvail {
          lastAvail := offset;
        }
        assert c[..i + 1] == c[..i] + [c[i]];
        i := i + 1;
      }
      RemoveChain(chains, home, nexts[..], p.value);
      assert c[..|c|] == c;
      chains, home := chains - {p.value}, home - NodesOf(c);
      RemoveKeepsCursor(old(chains), old(home), next, rest, p.value);
    }

    /** `input_queue_set_active`: the chain that the player owned is freed, and `queue` starts to play. */
    method SetActive(queue: Option<nat>, consume: bool, now: int)
      requires Valid() && (queue.Some? ==> queue.value in chains && freeHead != queue)
      modifies this, used
      ensures Valid()
      ensures chains == (if old(freeHead).Some? then old(chains) - {old(freeHead).value} else old(chains))
      ensures next == queue && rest == if queue.Some? then chains[queue.value] else []
      ensures GetView() == View(chains, Player(Entries(rest), now, old(input)), if consume then queue else None)
      ensures OwnsLive(old(GetView()))
      ensures IsStep(old(GetView()), Activate(queue, Entries(rest), consume, now), GetView())
    {
      hide Linked, Cursor, NodesOf, PoolValid;
      ghost var v := GetView();
      CursorIsHome(chains, home, next, rest);
      FirstNode(queue);
      Free(freeHead);
      Start(queue, consume, now);
      ActivateIsStep(v, queue, Entries(rest), consume, now);
    }

    /** The rest of `input_queue_set_active`, once the chain that the player owned is gone. */
    method Start(queue: Option<nat>, consume: bool, now: int)
      requires PoolValid() && (queue.Some? ==> queue.value in chains)
      modifies this`freeHead, this`next, this`nextTick, this`rest
      ensures Valid()
      ensures next == queue && rest == if queue.Some? then chains[queue.value] else []
      ensures nextTick == now && freeHead == if consume then queue else None
    {
      hide Linked, Cursor, PoolValid;
      FirstNode(queue);
      freeHead := None;
      next := queue;
      nextTick := now;
      if consume {
        freeHead := queue;
      }
      rest := if queue.Some? then chains[queue.value] else [];
    }

    lemma FirstNode(queue: Option<nat>)
      requires PoolValid() && (queue.Some? ==> queue.value in chains)
      ensures Cursor(chains, home, queue, if queue.Some? then chains[queue.value] else [])
      ensures queue.Some? ==> queue.value in home && home[queue.value].0 == queue.value && chains[queue.value] != []
    {
      CursorFromHead(chains, home, nexts[..], queue);
    }

    /** The part of `input_queue_get_state` that runs when the next entry is due. */
    method ApplyNext()
      requires Valid() && next.Some?
      modifies this, used
      ensures Valid()
      ensures old(rest) != [] && rest == old(rest)[1..]
      ensures Player(Entries(rest), nextTick, input) == Poll(old(GetView()).player, old(nextTick) + 1)
      ensures rest != [] ==> freeHead == old(freeHead)
      ensures rest == [] ==> freeHead == None
      ensures rest != [] || old(freeHead).None? ==> chains == old(chains) && home == old(home)
      ensures rest == [] && old(freeHead).Some? ==>
        chains == old(chains) - {old(freeHead).value} && home == old(home) - NodesOf(old(chains)[old(freeHead).value])
    {
      hide Linked, Cursor;
      CursorIsHome(chains, home, next, rest);
      var k := next.value;
      AdvanceCursor(chains, home, nexts[..], k, rest);
      CursorIsHome(chains, home, nexts[k], rest[1..]);
      assert Entries(rest)[0] == EntryOf(k) && Entries(rest)[1..] == Entries(rest[1..]);
      input := states[k];
      nextTick := nextTick + delays[k];
      next := nexts[k];
      rest := rest[1..];
      if next.None? {
        Free(freeHead);
        freeHead := None;
        CursorFromHead(chains, home, nexts[..], None);
      }
    }

    /** `input_queue_get_state` */
    method GetState(now: int) returns (result: Option<Raw>)
      requires Valid()
      modifies this, used
      ensures Valid()
      ensures result == Answer(old(GetView()).player, now)
      ensures IsStep(old(GetView()), PollAt(now), GetView())
    {
      if next.None? {
        return None;
      }
      if nextTick < now {
        ApplyNext();
      }
      return Some(input);
    }

    /** The position of a node in what the player has not applied yet. */
    ghost function RestIndex(k: nat): (at: Option<nat>)
      requires Valid() && k in home
      reads this, used, nexts
      ensures match at
              case None => k !in rest
              case Some(i) => i < |rest| && rest[i] == k && forall j :: 0 <= j < |rest| && rest[j] == k ==> j == i
    {
      if j: nat :| j < |rest| && rest[j] == k then
        RestIsInjective(chains, home, nexts[..], next, rest);
        Some(j)
      else None
    }

    /** A client fills in a node that it owns. */
    method SetNode(k: nat, state: Raw, delay: nat)
      requires Valid() && k in home && k < size
      modifies states, delays
      ensures Valid()
      ensures states[..] == old(states[..])[k := state] && delays[..] == old(delays[..])[k := delay]
      ensures IsStep(old(GetView()), Fill(RestIndex(k), Entry(state, delay)), GetView())
    {
      assert At(chains, nexts[..], home[k], k);
      ghost var v, at := GetView(), RestIndex(k);
      states[k], delays[k] := state, delay;
      FillIsStep(v, at, Entry(state, delay), Entries(rest));
    }

    // What a client sees of the above are steps of `RunView`.

    method TakeStep() returns (result: Option<nat>)
      requires Valid()
      modifies this`lastAvail, this`chains, this`home, used, nexts
      ensures Valid() && FirstFree(old(used[..]), result)
      ensures if result.Some? then IsStep(old(GetView()), Take(result.value), GetView())
              else GetView() == old(GetView())
    {
      hide PoolValid, PlayerValid, IsStep;
      ghost var v := GetView();
      result := Alloc();
      assert Entries(rest) == v.player.rest;
      if result.Some? {
        TakeIsStep(v, result.value);
      }
    }

    /** The player is inside the chain headed by `h`. */
    ghost predicate Plays(h: nat)
      reads this
    {
      next.Some? && next.value in home && home[next.value].0 == h
    }

    method ExtendStep(tail: nat) returns (result: Option<nat>)
      requires Valid() && IsTail(tail)
      modifies this`lastAvail, this`chains, this`home, this`rest, used, nexts
      ensures Valid() && FirstFree(old(used[..]), result)
      ensures result.None? ==> GetView() == old(GetView())
      ensures result.Some? ==> var h, k := old(home)[tail].0, result.value;
        IsStep(old(GetView()), Extend(h, k, if old(Plays(h)) then Some(EntryOf(k)) else None), GetView())
    {
      hide Linked, IsStep;
      ghost var v, h, rest0, plays := GetView(), home[tail].0, rest, Plays(home[tail].0);
      assert plays ==> rest != [];
      result := Append(tail);
      if result.Some? {
        ghost var playing := if plays then Some(EntryOf(result.value)) else None;
        assert Entries(rest0) == v.player.rest;
        assert Entries(rest) == v.player.rest + if plays then [EntryOf(result.value)] else [];
        ExtendIsStep(v, h, result.value, playing, Entries(rest));
      } else {
        assert Entries(rest) == v.player.rest;
      }
    }

    method ReleaseStep(p: nat)
      requires Valid() && p in chains && freeHead != Some(p) && (next.Some? ==> home[next.value].0 != p)
      modifies this`lastAvail, this`chains, this`home, used
      ensures Valid() && IsStep(old(GetView()), Release(p), GetView())
    {
      hide Linked, IsStep;
      ghost var v := GetView();
      Free(Some(p));
      assert Entries(rest) == v.player.rest;
      ReleaseIsStep(v, p);
    }
  }
}
