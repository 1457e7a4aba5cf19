/**
 * Linked chains inside a fixed pool. `chains` maps the head of each live chain to its nodes in order, and
 * `home` maps each node to the head of its chain and its position there: a node has one home, so chains
 * are acyclic and disjoint.
 */
module Pool {
  import opened Options

  type Chains = map<nat, seq<nat>>
  type Home = map<nat, (nat, nat)>

  function Successor(c: seq<nat>, i: nat): Option<nat>
    requires i < |c|
  {
    if i + 1 < |c| then Some(c[i + 1]) else None
  }

  ghost predicate Heads(chains: Chains) {
    forall h :: h in chains ==> |chains[h]| > 0 && chains[h][0] == h
  }

  ghost predicate Housed(chains: Chains, home: Home) {
    forall h, i :: h in chains && 0 <= i < |chains[h]| ==> chains[h][i] in home && home[chains[h][i]] == (h, i)
  }

  /** Node `k` is at position `place.1` of the chain headed by `place.0`, and points to the one after it. */
  ghost predicate At(chains: Chains, nexts: seq<Option<nat>>, place: (nat, nat), k: nat) {
    && place.0 in chains && place.1 < |chains[place.0]| && chains[place.0][place.1] == k
    && k < |nexts| && nexts[k] == Successor(chains[place.0], place.1)
  }

  ghost predicate Threaded(chains: Chains, home: Home, nexts: seq<Option<nat>>) {
    forall k {:trigger At(chains, nexts, home[k], k)} :: k in home ==> At(chains, nexts, home[k], k)
  }

  ghost predicate Linked(chains: Chains, home: Home, nexts: seq<Option<nat>>) {
    Heads(chains) && Housed(chains, home) && Threaded(chains, home, nexts)
  }

  ghost function NodesOf(c: seq<nat>): set<nat> {
    set k | k in c
  }

  /** No node occurs twice in a chain, and none in two chains. */
  lemma LinkedIsDisjoint(chains: Chains, home: Home, nexts: seq<Option<nat>>, h: nat, i: nat, g: nat, j: nat)
    requires Linked(chains, home, nexts)
    requires h in chains && g in chains && i < |chains[h]| && j < |chains[g]|
    ensures chains[h][i] == chains[g][j] <==> h == g && i == j
  {
    assert home[chains[h][i]] == (h, i) && home[chains[g][j]] == (g, j);
  }

  lemma AddChain(chains: Chains, home: Home, nexts: seq<Option<nat>>, k: nat)
    requires Linked(chains, home, nexts) && k !in home && k < |nexts|
    ensures k !in chains && Linked(chains[k := [k]], home[k := (k, 0)], nexts[k := None])
  {
    assert k !in chains;
    var chains', home', nexts' := chains[k := [k]], home[k := (k, 0)], nexts[k := None];
    forall n | n in home' ensures At(chains', nexts', home'[n], n) {
      assert n == k || At(chains, nexts, home[n], n);
    }
    assert Housed(chains', home');
  }

  lemma ExtendChain(chains: Chains, home: Home, nexts: seq<Option<nat>>, tail: nat, k: nat)
    requires Linked(chains, home, nexts) && k !in home && k < |nexts|
    requires tail in home && home[tail].0 in chains && home[tail].1 == |chains[home[tail].0]| - 1
    ensures tail < |nexts|
    ensures var (h, i) := home[tail];
      Linked(chains[h := chains[h] + [k]], home[k := (h, i + 1)], nexts[k := None][tail := Some(k)])
  {
    assert At(chains, nexts, home[tail], tail);
    var h, i := home[tail].0, home[tail].1;
    var c := chains[h] + [k];
    var chains', home', nexts' := chains[h := c], home[k := (h, i + 1)], nexts[k := None][tail := Some(k)];
    forall n | n in home' ensures At(chains', nexts', home'[n], n) {
      if n == k {
        assert home'[n] == (h, i + 1) && c[i + 1] == k;
      } else if n == tail {
        assert home'[n] == (h, i) && c[i] == tail;
      } else {
        assert At(chains, nexts, home[n], n);
        var (g, j) := home[n];
        assert g == h ==> j != i;
        assert nexts'[n] == nexts[n];
      }
    }
    forall g, j | g in chains' && 0 <= j < |chains'[g]|
      ensures chains'[g][j] in home' && home'[chains'[g][j]] == (g, j)
    {
      if g == h && j == i + 1 {
        assert chains'[g][j] == k;
      } else {
        assert chains'[g][j] == chains[g][j];
      }
    }
  }

  /** `rest` is the part of a chain that starts at node `next`. */
  ghost predicate Cursor(chains: Chains, home: Home, next: Option<nat>, rest: seq<nat>) {
    match next
    case None => rest == []
    case Some(k) =>
      k in home && home[k].0 in chains && home[k].1 < |chains[home[k].0]| && rest == chains[home[k].0][home[k].1..]
  }

  lemma RestIsInjective(chains: Chains, home: Home, nexts: seq<Option<nat>>, next: Option<nat>, rest: seq<nat>)
    requires Linked(chains, home, nexts) && Cursor(chains, home, next, rest)
    ensures forall i, j :: 0 <= i < |rest| && 0 <= j < |rest| && rest[i] == rest[j] ==> i == j
  {
    if next.Some? {
      var (h, at) := home[next.value];
      forall i, j | 0 <= i < |rest| && 0 <= j < |rest| && rest[i] == rest[j] ensures i == j {
        LinkedIsDisjoint(chains, home, nexts, h, at + i, h, at + j);
      }
    }
  }

  lemma AddCursor(chains: Chains, home: Home, next: Option<nat>, rest: seq<nat>, k: nat)
    requires Cursor(chains, home, next, rest) && k !in home && k !in chains
    ensures Cursor(chains[k := [k]], home[k := (k, 0)], next, rest)
  {
  }

  lemma CursorIsHome(chains: Chains, home: Home, next: Option<nat>, rest: seq<nat>)
    requires Cursor(chains, home, next, rest)
    ensures match next case None => rest == [] case Some(k) => k in home && home[k].0 in chains && rest != []
  {
  }

  /** A chain may grow while something walks along it. */
  lemma ExtendCursor(chains: Chains, home: Home, next: Option<nat>, rest: seq<nat>, h: nat, i: nat, k: nat)
    requires Cursor(chains, home, next, rest) && k !in home && h in chains
    ensures Cursor(chains[h := chains[h] + [k]], home[k := (h, i + 1)], next,
                   if next.Some? && home[next.value].0 == h then rest + [k] else rest)
  {
  }

  lemma RemoveChain(chains: Chains, home: Home, nexts: seq<Option<nat>>, h: nat)
    requires Linked(chains, home, nexts) && h in chains
    ensures Linked(chains - {h}, home - NodesOf(chains[h]), nexts)
    ensures NodesOf(chains[h]) <= home.Keys
  {
    var chains', home' := chains - {h}, home - NodesOf(chains[h]);
    forall g, i | g in chains' && 0 <= i < |chains'[g]|
      ensures chains'[g][i] in home' && home'[chains'[g][i]] == (g, i)
    {
      var k := chains[g][i];
      assert home[k] == (g, i);
      assert k !in chains[h];
    }
    forall n | n in home' ensures At(chains', nexts, home'[n], n) {
      assert At(chains, nexts, home[n], n);
      assert home[n].0 != h;
    }
  }

  lemma CursorFromHead(chains: Chains, home: Home, nexts: seq<Option<nat>>, head: Option<nat>)
    requires Linked(chains, home, nexts) && (head.Some? ==> head.value in chains)
    ensures Cursor(chains, home, head, if head.Some? then chains[head.value] else [])
    ensures head.Some? ==> head.value in home && home[head.value].0 == head.value
  {
    if head.Some? {
      assert home[chains[head.value][0]] == (head.value, 0);
    }
  }

  lemma AdvanceCursor(chains: Chains, home: Home, nexts: seq<Option<nat>>, k: nat, rest: seq<nat>)
    requires Linked(chains, home, nexts) && Cursor(chains, home, Some(k), rest)
    ensures k < |nexts| && rest[0] == k && Cursor(chains, home, nexts[k], rest[1..])
    ensures nexts[k].Some? ==> home[nexts[k].value].0 == home[k].0
  {
    assert At(chains, nexts, home[k], k);
  }

  lemma RemoveKeepsCursor(chains: Chains, home: Home, next: Option<nat>, rest: seq<nat>, h: nat)
    requires Heads(chains) && Housed(chains, home) && h in chains
    ensures Cursor(chains, home, next, rest) && (next.Some? ==> home[next.value].0 != h) ==>
            Cursor(chains - {h}, home - NodesOf(chains[h]), next, rest)
  {
  }

  /** The nodes in use are exactly those of the live chains. */
  lemma HomeIsUnion(chains: Chains, home: Home, nexts: seq<Option<nat>>, k: nat)
    requires Linked(chains, home, nexts)
    ensures k in home <==> exists h :: h in chains && k in chains[h]
  {
    if k in home {
      assert At(chains, nexts, home[k], k);
      assert k in chains[home[k].0];
    }
    forall h | h in chains && k in chains[h] ensures k in home {
      var i :| 0 <= i < |chains[h]| && chains[h][i] == k;
    }
  }
}
