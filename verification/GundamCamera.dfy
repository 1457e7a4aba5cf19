/** Spectator camera control: builds a macro out of queue nodes and hands it to the player, or backs out. */
module GundamCamera {
  import opened Bytes
  import opened FiniteSets
  import opened Options
  import opened Buttons
  import opened Pool
  import opened Playback
  import opened MacroQueue

  type Offset = x: int | -128 <= x < 128

  function Magnitude(offset: int): nat {
    if offset < 0 then -offset else offset
  }

  /** The conversion to `int8_t` that `set_cam` makes. */
  function ToOffset(x: int): (r: Offset)
    ensures (x - r) % 256 == 0
  {
    (x + 128) % 256 - 128
  }

  /** A press and a release for each step. */
  function Steps(button: nat, count: nat, frame: nat): (es: seq<Entry>)
    requires button < COUNT
    ensures |es| == 2 * count
  {
    if count == 0 then []
    else Steps(button, count - 1, frame) + [Entry(Only(button), frame), Entry(AllUp(), frame)]
  }

  function Macro(button: nat, count: nat, frame: nat): (es: seq<Entry>)
    requires button < COUNT
    ensures |es| == 2 * count + 1
  {
    Steps(button, count, frame) + [Entry(AllUp(), 0)]
  }

  function Direction(offset: Offset): nat {
    if offset > 0 then STICK_UP else STICK_DOWN
  }

  lemma {:induction false} StepsPress(button: nat, count: nat, frame: nat, b: nat)
    requires button < COUNT && b < COUNT
    ensures var samples := States(Steps(button, count, frame));
      && Presses(false, samples, b) == (if b == button then count else 0)
      && (count > 0 ==> samples[|samples| - 1] == AllUp())
  {
    hide States;
    if count > 0 {
      StepsPress(button, count - 1, frame, b);
      PressAndRelease(States(Steps(button, count - 1, frame)), button, b);
      StepStates(Steps(button, count - 1, frame), button, frame);
    }
  }

  lemma StepStates(before: seq<Entry>, button: nat, frame: nat)
    requires button < COUNT
    ensures States(before + [Entry(Only(button), frame), Entry(AllUp(), frame)])
            == States(before) + [Only(button)] + [AllUp()]
  {
  }

  lemma PressAndRelease(samples: seq<Raw>, button: nat, b: nat)
    requires button < COUNT && b < COUNT && (samples != [] ==> samples[|samples| - 1] == AllUp())
    ensures Presses(false, samples + [Only(button)] + [AllUp()], b)
            == Presses(false, samples, b) + if b == button then 1 else 0
  {
    PressesSnoc(false, samples, Only(button), b);
    PressesSnoc(false, samples + [Only(button)], AllUp(), b);
  }

  lemma MacroPresses(button: nat, count: nat, frame: nat, b: nat)
    requires button < COUNT && b < COUNT
    ensures Presses(false, States(Macro(button, count, frame)), b) == if b == button then count else 0
  {
    StepsPress(button, count, frame, b);
    assert States(Macro(button, count, frame)) == States(Steps(button, count, frame)) + [AllUp()];
    PressesSnoc(false, States(Steps(button, count, frame)), AllUp(), b);
  }

  /** Presses of stick up less presses of stick down. */
  function NetMoves(samples: seq<Raw>): int {
    Presses(false, samples, STICK_UP) - Presses(false, samples, STICK_DOWN)
  }

  /** The stick is pressed `offset` times, up if that is positive and down if it is negative, and nothing else is. */
  ghost predicate Moves(samples: seq<Raw>, offset: int) {
    && NetMoves(samples) == offset
    && (Presses(false, samples, STICK_UP) == 0 || Presses(false, samples, STICK_DOWN) == 0)
    && forall b :: 0 <= b < COUNT && b != STICK_UP && b != STICK_DOWN ==> Presses(false, samples, b) == 0
  }

  lemma MacroMoves(offset: Offset, frame: nat)
    ensures Moves(States(Macro(Direction(offset), Magnitude(offset), frame)), offset)
  {
    hide Presses, States, Macro;
    forall b: nat | b < COUNT
      ensures Presses(false, States(Macro(Direction(offset), Magnitude(offset), frame)), b)
              == if b == Direction(offset) then Magnitude(offset) else 0
    {
      MacroPresses(Direction(offset), Magnitude(offset), frame, b);
    }
  }

  lemma MovesIsNet(samples: seq<Raw>, offset: int)
    requires Moves(samples, offset)
    ensures NetMoves(samples) == offset
  {
  }

  lemma SamePressesSameMoves(a: seq<Raw>, c: seq<Raw>, offset: int)
    requires Moves(a, offset) && forall b :: 0 <= b < COUNT ==> Presses(false, c, b) == Presses(false, a, b)
    ensures Moves(c, offset)
  {
    hide Presses;
  }

  /** What is polled of a macro, from its first poll after the activation to its end, moves as its entries do. */
  lemma PolledMoves(es: seq<Entry>, t0: int, input: Raw, nows: seq<int>, offset: int)
    requires es != [] && Moves(States(es), offset) && Applied(es, t0, nows) == |es| && t0 < nows[0]
    ensures Moves(Samples(Answers(Player(es, t0, input), nows)), offset)
  {
    hide Presses, Moves, Samples, Answers;
    var samples := Samples(Answers(Player(es, t0, input), nows));
    FirstSample(es, t0, input, nows);
    assert es[..|es|] == es;
    forall b: nat | b < COUNT ensures Presses(false, samples, b) == Presses(false, States(es), b) {
      PollingAddsNoPresses(es, t0, input, nows, b);
      PressesFromUp(States(es), b);
      PressesFromUp(samples, b);
    }
    SamePressesSameMoves(States(es), samples, offset);
  }

  /** The poll in the very tick of the activation still finds `b` down, where the last macro left it. */
  predicate StalePress(input: Raw, now: int, offset: Offset, first: int, b: nat)
    requires b < COUNT
  {
    input[b] && first <= now && (b != Direction(offset) || offset == 0)
  }

  /** Whether `b` is down in what the first poll, at tick `first`, finds. */
  predicate FirstDown(input: Raw, now: int, offset: Offset, first: int, b: nat)
    requires b < COUNT
  {
    if now < first then offset != 0 && b == Direction(offset) else input[b]
  }

  /** How often the raw input of button `b` goes down while a camera macro plays, if it was `down` before: each step is
      a press but for the first, if the button is down already. */
  function MacroPressCount(down: bool, input: Raw, now: int, offset: Offset, first: int, b: nat): nat
    requires b < COUNT
  {
    (if b == Direction(offset) then Magnitude(offset) else 0)
    + (if StalePress(input, now, offset, first, b) then 1 else 0)
    - if down && FirstDown(input, now, offset, first, b) then 1 else 0
  }

  /** A macro that has been polled to its end. */
  ghost predicate PlaysToTheEnd(offset: Offset, frame: nat, now: int, nows: seq<int>) {
    Applied(Macro(Direction(offset), Magnitude(offset), frame), now, nows) == 2 * Magnitude(offset) + 1
  }

  function CameraPlayer(offset: Offset, frame: nat, now: int, input: Raw): Player {
    Player(Macro(Direction(offset), Magnitude(offset), frame), now, input)
  }

  /**
   * However and whenever a camera macro is polled to its end, the raw input has the stick go up (or down) exactly
   * as often as the camera has to move, or once less if it was up (or down) already, and has no other button go
   * down but one that the macro before left down and that is polled in the tick of the activation. The pool is then
   * as it was before. What of this gets through the debouncing is the subject of module `MacroInput`.
   */
  lemma MacroMovesTheCamera(chains: Chains, head: nat, c: seq<nat>, input: Raw, now: int, offset: Offset, frame: nat,
                            nows: seq<int>, b: nat, down: bool)
    requires head !in chains && b < COUNT && PlaysToTheEnd(offset, frame, now, nows)
    ensures var v := View(chains[head := c], CameraPlayer(offset, frame, now, input), Some(head));
      && Presses(down, Samples(Answers(v.player, nows)), b) == MacroPressCount(down, input, now, offset, nows[0], b)
      && PollsView(v, nows).chains == chains && PollsView(v, nows).owned == None
  {
    MacroPressesRaw(input, now, offset, frame, nows, b, down);
    hide Applied, Polls, Presses, Answers, Samples, Steps;
    ConsumedExactlyOnce(View(chains[head := c], CameraPlayer(offset, frame, now, input), Some(head)), nows);
  }

  lemma MacroPressesRaw(input: Raw, now: int, offset: Offset, frame: nat, nows: seq<int>, b: nat, down: bool)
    requires b < COUNT && PlaysToTheEnd(offset, frame, now, nows)
    ensures Presses(down, Samples(Answers(CameraPlayer(offset, frame, now, input), nows)), b)
            == MacroPressCount(down, input, now, offset, nows[0], b)
  {
    hide Presses, Samples, Answers, Macro;
    var es := Macro(Direction(offset), Magnitude(offset), frame);
    PollingAddsNoPresses(es, now, input, nows, b);
    assert es[..|es|] == es;
    MacroPresses(Direction(offset), Magnitude(offset), frame, b);
    PressesFromUp(States(es), b);
    PressesFromUp(Samples(Answers(Player(es, now, input), nows)), b);
    FirstSample(es, now, input, nows);
    FirstEntry(Direction(offset), Magnitude(offset), frame);
  }

  lemma {:induction false} FirstEntry(button: nat, count: nat, frame: nat)
    requires button < COUNT
    ensures count > 0 ==> Steps(button, count, frame)[0].state == Only(button)
    ensures Macro(button, count, frame)[0].state == if count > 0 then Only(button) else AllUp()
  {
    if count > 1 {
      FirstEntry(button, count - 1, frame);
    }
  }

  /** The nodes in use are those of `home0` and `n` nodes in a chain of their own, headed by `head`. */
  ghost predicate Taken(home: Home, home0: Home, head: nat, n: nat) {
    && |home| == |home0| + n
    && (forall k :: k in home0 ==> k in home && home[k] == home0[k] && home0[k].0 != head)
    && (forall k :: k in home ==> k in home0 || home[k].0 == head)
  }

  /** The pool has grown by the chain `c` and nothing else. */
  ghost predicate Grown(chains: Chains, home: Home, chains0: Chains, home0: Home, c: seq<nat>) {
    && |c| > 0 && Taken(home, home0, c[0], |c|) && c[0] !in chains0 && chains == chains0[c[0] := c]
    && c[|c| - 1] in home && home[c[|c| - 1]] == (c[0], |c| - 1)
  }

  lemma Grow(chains: Chains, home: Home, chains0: Chains, home0: Home, c: seq<nat>, k: nat)
    requires Grown(chains, home, chains0, home0, c) && k !in home
    ensures Grown(chains[c[0] := c + [k]], home[k := (c[0], |c|)], chains0, home0, c + [k])
  {
    assert (c + [k])[0] == c[0];
  }

  lemma GrownHead(chains: Chains, home: Home, chains0: Chains, home0: Home, c: seq<nat>)
    requires Grown(chains, home, chains0, home0, c)
    ensures c[0] in chains && chains[c[0]] == c
  {
  }

  lemma FreshHead(chains0: Chains, home0: Home, nexts: seq<Option<nat>>, head: nat)
    requires Linked(chains0, home0, nexts) && head !in home0 && head !in chains0
    ensures Grown(chains0[head := [head]], home0[head := (head, 0)], chains0, home0, [head])
  {
    forall k | k in home0 ensures home0[k].0 != head {
      assert At(chains0, nexts, home0[k], k);
    }
  }

  /** Taking the chain away again leaves the pool as it was. */
  lemma Shrink(q: Queue, chains0: Chains, home0: Home, c: seq<nat>)
    requires q.PoolValid() && Grown(q.chains, q.home, chains0, home0, c)
    ensures q.chains - {c[0]} == chains0 && q.home - NodesOf(c) == home0
  {
    var chains, home, nexts := q.chains, q.home, q.nexts[..];
    forall k | k in home ensures k in c <==> home[k].0 == c[0] {
      assert At(chains, nexts, home[k], k);
      if k in c {
        var i :| 0 <= i < |c| && c[i] == k;
        assert home[chains[c[0]][i]] == (c[0], i);
      }
    }
  }

  /** The nodes of `c` except the last, which is still blank, hold `es`. */
  ghost predicate Filled(q: Queue, c: seq<nat>, es: seq<Entry>)
    reads q.states, q.delays
  {
    |c| == |es| + 1 && forall i :: 0 <= i < |es| ==> q.EntryOf(c[i]) == es[i]
  }

  lemma FilledEntries(q: Queue, c: seq<nat>, es: seq<Entry>, e: Entry)
    requires Filled(q, c, es) && q.EntryOf(c[|es|]) == e
    ensures q.Entries(c) == es + [e]
  {
  }

  lemma FilledSnoc(q: Queue, c: seq<nat>, es: seq<Entry>, e: Entry, k: nat)
    requires Filled(q, c, es) && q.EntryOf(c[|es|]) == e
    ensures Filled(q, c + [k], es + [e])
  {
  }

  ghost predicate Building(q: Queue, chains0: Chains, home0: Home, c: seq<nat>, es: seq<Entry>)
    reads q, q.used, q.nexts, q.states, q.delays
  {
    q.Valid() && q.next.None? && Grown(q.chains, q.home, chains0, home0, c) && Filled(q, c, es)
  }

  /** The pool can serve an allocation exactly as long as fewer nodes are in use than it has. */
  lemma FullIffAllUsed(q: Queue)
    requires q.PoolValid()
    ensures |q.home| <= q.size
    ensures |q.home| == q.size <==> FirstFree(q.used[..], None)
  {
    forall k | k in q.home ensures k < q.size {
      assert At(q.chains, q.nexts[..], q.home[k], k);
    }
    FullSet(q.home.Keys, q.size);
    assert |q.home.Keys| == |q.home|;
  }

  class Camera {
    var current: Byte
    const queue: Queue
    // Ticks that a press or a release lasts.
    const frame: nat

    constructor (queue: Queue, frame: nat)
      ensures current == 1 && this.queue == queue && this.frame == frame
    {
      this.queue, this.frame, current := queue, frame, 1;
    }

    /** Fills in the last node of the chain `c` that is being built. */
    method Fill(ghost c: seq<nat>, ghost es: seq<Entry>, cur: nat, state: Raw, delay: nat)
      requires queue.Valid() && Filled(queue, c, es) && cur == c[|es|]
      requires c[0] in queue.chains && queue.chains[c[0]] == c
      modifies queue.states, queue.delays
      ensures queue.Valid()
      ensures forall i :: 0 <= i < |es| ==> queue.EntryOf(c[i]) == es[i]
      ensures queue.EntryOf(cur) == Entry(state, delay)
    {
      assert At(queue.chains, queue.nexts[..], queue.home[cur], cur) by {
        assert queue.chains[c[0]][|es|] == cur;
      }
      queue.SetNode(cur, state, delay);
      forall i | 0 <= i < |es| ensures queue.EntryOf(c[i]) == es[i] {
        assert queue.home[queue.chains[c[0]][i]] == (c[0], i) && queue.home[queue.chains[c[0]][|es|]] == (c[0], |es|);
      }
    }

    /** Fills in the last node of the chain `c` and asks for one more; gives the chain back if there is none. */
    method FillAndAppend(ghost c: seq<nat>, ghost es: seq<Entry>, head: nat, cur: nat, state: Raw,
                         ghost chains0: Chains, ghost home0: Home) returns (result: Option<nat>)
      requires Building(queue, chains0, home0, c, es) && head == c[0] && cur == c[|es|]
      modifies queue`lastAvail, queue`chains, queue`home, queue`rest
      modifies queue.used, queue.nexts, queue.states, queue.delays
      ensures result.None? <==> |home0| + |c| == queue.size
      ensures result.None? ==> queue.Valid() && queue.chains == chains0 && queue.home == home0
      ensures result.Some? ==> Building(queue, chains0, home0, c + [result.value], es + [Entry(state, frame)])
    {
      hide Queue.PoolValid, Grown;
      GrownHead(queue.chains, queue.home, chains0, home0, c);
      Fill(c, es, cur, state, frame);
      result := AppendOrBackOut(c, head, cur, chains0, home0);
      if result.Some? {
        FilledSnoc(queue, c, es, Entry(state, frame), result.value);
      }
    }

    /** Asks for one more node of the chain `c`, and gives the chain back if there is none. */
    method AppendOrBackOut(ghost c: seq<nat>, head: nat, cur: nat, ghost chains0: Chains, ghost home0: Home)
      returns (result: Option<nat>)
      requires queue.Valid() && queue.next.None? && Grown(queue.chains, queue.home, chains0, home0, c)
      requires head == c[0] && cur == c[|c| - 1]
      modifies queue`lastAvail, queue`chains, queue`home, queue`rest, queue.used, queue.nexts
      ensures queue.Valid() && (result.None? <==> |home0| + |c| == queue.size)
      ensures result.None? ==> queue.chains == chains0 && queue.home == home0
      ensures result.Some? ==> Grown(queue.chains, queue.home, chains0, home0, c + [result.value])
    {
      hide Queue.PoolValid, NodesOf;
      FullIffAllUsed(queue);
      result := queue.Append(cur);
      if result.Some? {
        Grow(old(queue.chains), old(queue.home), chains0, home0, c, result.value);
      } else {
        Shrink(queue, chains0, home0, c);
        queue.Free(Some(head));
      }
    }

    /** One press and one release. */
    method AppendStep(ghost c: seq<nat>, ghost es: seq<Entry>, head: nat, cur: nat, button: nat,
                      ghost chains0: Chains, ghost home0: Home) returns (result: Option<nat>, ghost c': seq<nat>)
      requires Building(queue, chains0, home0, c, es) && head == c[0] && cur == c[|es|] && button < COUNT
      modifies queue`lastAvail, queue`chains, queue`home, queue`rest
      modifies queue.used, queue.nexts, queue.states, queue.delays
      ensures result.None? ==> |home0| + |c| + 2 > queue.size
      ensures result.None? ==> queue.Valid() && queue.chains == chains0 && queue.home == home0
      ensures result.Some? ==>
        && Building(queue, chains0, home0, c', es + [Entry(Only(button), frame), Entry(AllUp(), frame)])
        && c'[0] == head && c'[|es| + 2] == result.value
    {
      hide Linked, Cursor, Taken;
      c' := c;
      result := FillAndAppend(c, es, head, cur, Only(button), chains0, home0);
      if result.None? {
        return;
      }
      ghost var pressed := es + [Entry(Only(button), frame)];
      c' := c + [result.value];
      result := FillAndAppend(c', pressed, head, result.value, AllUp(), chains0, home0);
      if result.Some? {
        c' := c' + [result.value];
        assert pressed + [Entry(AllUp(), frame)] == es + [Entry(Only(button), frame), Entry(AllUp(), frame)];
      }
    }

    /** The loop of `adjust_cam`: `count` steps, or the pool as it was before if the nodes run out. */
    method BuildSteps(head: nat, button: nat, count: nat, ghost chains0: Chains, ghost home0: Home)
      returns (result: Option<nat>, ghost c: seq<nat>)
      requires Building(queue, chains0, home0, [head], []) && button < COUNT
      modifies queue`lastAvail, queue`chains, queue`home, queue`rest
      modifies queue.used, queue.nexts, queue.states, queue.delays
      ensures result.None? ==> |home0| + 2 * count + 1 > queue.size
      ensures result.None? ==> queue.Valid() && queue.chains == chains0 && queue.home == home0
      ensures result.Some? ==>
        Building(queue, chains0, home0, c, Steps(button, count, frame)) && c[0] == head && c[2 * count] == result.value
    {
      hide Linked, Cursor, Taken;
      var cur := head;
      c := [head];
      for i := 0 to count
        invariant Building(queue, chains0, home0, c, Steps(button, i, frame))
        invariant c[0] == head && cur == c[2 * i]
      {
        var next, c' := AppendStep(c, Steps(button, i, frame), head, cur, button, chains0, home0);
        if next.None? {
          return None, c;
        }
        cur, c := next.value, c';
      }
      result := Some(cur);
    }

    /** The chain that `adjust_cam` builds, or `None` and a pool as it was before if the nodes run out. */
    method BuildMacro(up: bool, count: nat) returns (result: Option<nat>)
      requires queue.Valid() && queue.next.None?
      modifies queue`lastAvail, queue`chains, queue`home, queue`rest
      modifies queue.used, queue.nexts, queue.states, queue.delays
      ensures queue.Valid()
      ensures result.Some? <==> |old(queue.home)| + 2 * count + 1 <= queue.size
      ensures result.None? ==> queue.chains == old(queue.chains) && queue.home == old(queue.home)
      ensures result.Some? ==> var head := result.value;
        && head in queue.chains && head !in old(queue.chains)
        && queue.chains == old(queue.chains)[head := queue.chains[head]]
        && queue.Entries(queue.chains[head]) == Macro(if up then STICK_UP else STICK_DOWN, count, frame)
    {
      ghost var chains0, home0 := queue.chains, queue.home;
      var button := if up then STICK_UP else STICK_DOWN;
      FullIffAllUsed(queue);
      var head := queue.Alloc();
      if head.None? {
        return None;
      }
      FreshHead(chains0, home0, old(queue.nexts[..]), head.value);
      var last, c := BuildSteps(head.value, button, count, chains0, home0);
      if last.None? {
        return None;
      }
      FullIffAllUsed(queue);
      Fill(c, Steps(button, count, frame), last.value, AllUp(), 0);
      FilledEntries(queue, c, Steps(button, count, frame), Entry(AllUp(), 0));
      return head;
    }

    /**
     * `adjust_cam`: if nothing is playing, plays one press per step. It is all or nothing: without enough free
     * nodes the queue is as it was before. The new camera is recorded either way.
     */
    method AdjustCam(offset: Offset, record: bool, now: int) returns (moving: bool)
      requires queue.Valid()
      modifies this, queue, queue.used, queue.nexts, queue.states, queue.delays
      ensures queue.Valid()
      ensures current == if record && old(queue.next).None? then (old(current) + offset) % 256 else old(current)
      ensures moving <==> old(queue.next).None? && offset != 0
                          && |old(queue.home)| + 2 * Magnitude(offset) + 1 <= queue.size
      ensures !moving ==> queue.GetView() == old(queue.GetView()) && queue.home == old(queue.home)
      ensures moving ==>
        && queue.freeHead.Some?
        && var head := queue.freeHead.value;
           head in queue.chains && head !in old(queue.chains)
           && queue.GetView() == View(old(queue.chains)[head := queue.chains[head]],
                Player(Macro(Direction(offset), Magnitude(offset), frame), now, old(queue.input)), Some(head))
      ensures moving ==> Moves(States(queue.GetView().player.rest), offset)
    {
      hide Linked, Queue.PoolValid, Macro, IsStep, OwnsLive, Moves, States;
      if queue.next.Some? {
        return false;
      }
      if record {
        current := (current + offset) % 256;
      }
      if offset == 0 {
        return false;
      }
      var count := Magnitude(offset);
      MacroMoves(offset, frame);
      var head := BuildMacro(offset > 0, count);
      if head.None? {
        return false;
      }
      queue.SetActive(head, true, now);
      return true;
    }

    /** `set_cam`: the offset wraps to eight bits, and so does the camera it is added to. */
    method SetCam(x: Byte, record: bool, now: int) returns (moving: bool)
      requires queue.Valid()
      modifies this, queue, queue.used, queue.nexts, queue.states, queue.delays
      ensures queue.Valid()
      ensures current == if record && old(queue.next).None? then x else old(current)
      ensures moving <==> old(queue.next).None? && x != old(current)
                          && |old(queue.home)| + 2 * Magnitude(ToOffset(x - old(current))) + 1 <= queue.size
      ensures !moving ==> queue.GetView() == old(queue.GetView()) && queue.home == old(queue.home)
      ensures moving ==>
        && queue.freeHead.Some?
        && var offset, head := ToOffset(x - old(current)), queue.freeHead.value;
           head in queue.chains && head !in old(queue.chains)
           && queue.GetView() == View(old(queue.chains)[head := queue.chains[head]],
                Player(Macro(Direction(offset), Magnitude(offset), frame), now, old(queue.input)), Some(head))
      ensures moving ==>
        var moves := NetMoves(States(queue.GetView().player.rest));
        && Moves(States(queue.GetView().player.rest), moves)
        && -128 <= moves < 128 && (x - old(current) - moves) % 256 == 0
    {
      hide *;
      var offset := ToOffset(x - current);
      moving := AdjustCam(offset, record, now);
      if moving {
        MovesIsNet(States(queue.GetView().player.rest), offset);
      }
    }
  }
}
