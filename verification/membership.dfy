/**
 The membership registry's two pure operations: dropping a failed peer
 (`nodes.retain(|&x| x != addr)`) and the heartbeat fan-out over the
 registry.
 */
module Membership {
  import opened Messages

  /** `Vec::retain` with `x != a`: no occurrence of `a` survives, nothing
      is added, and a registry without `a` is left as it is. */
  function RemoveNode(nodes: seq<Addr>, a: Addr): (r: seq<Addr>)
    ensures a !in r
    ensures forall x :: x in r ==> x in nodes
    ensures a !in nodes ==> r == nodes
  {
    if |nodes| == 0 then []
    else (if nodes[0] == a then [] else [nodes[0]]) + RemoveNode(nodes[1..], a)
  }

  /** Every other entry stays with its multiplicity. */
  lemma {:induction false} RemoveNodeCounts(nodes: seq<Addr>, a: Addr)
    ensures multiset(RemoveNode(nodes, a)) == multiset(nodes)[a := 0]
  {
    if |nodes| > 0 {
      var x, rest := nodes[0], nodes[1..];
      var head := if x == a then [] else [x];
      calc {
        multiset(RemoveNode(nodes, a));
        { assert nodes == [x] + rest; RemoveNodeCons(x, rest, a); }
        multiset(head + RemoveNode(rest, a));
        multiset(head) + multiset(RemoveNode(rest, a));
        { RemoveNodeCounts(rest, a); }
        multiset(head) + multiset(rest)[a := 0];
        { DropCount(x, multiset(rest), a); }
        (multiset{x} + multiset(rest))[a := 0];
        { assert nodes == [x] + rest; }
        multiset(nodes)[a := 0];
      }
    }
  }

  /** Clearing an address's count distributes over adding one entry. */
  lemma DropCount(x: Addr, m: multiset<Addr>, a: Addr)
    ensures (multiset{x} + m)[a := 0] == multiset(if x == a then [] else [x]) + m[a := 0]
  {
  }

  /** Removal looks at the first entry, then at the rest. */
  lemma RemoveNodeCons(x: Addr, xs: seq<Addr>, a: Addr)
    ensures RemoveNode([x] + xs, a) == (if x == a then [] else [x]) + RemoveNode(xs, a)
  {
    assert ([x] + xs)[0] == x && ([x] + xs)[1..] == xs;
  }

  /** Removal works piecewise, so the survivors keep their relative order. */
  lemma {:induction false} RemoveNodeConcat(xs: seq<Addr>, ys: seq<Addr>, a: Addr)
    ensures RemoveNode(xs + ys, a) == RemoveNode(xs, a) + RemoveNode(ys, a)
  {
    if |xs| == 0 {
      assert xs + ys == ys;
    } else {
      var x, rest := xs[0], xs[1..];
      assert xs == [x] + rest;
      assert xs + ys == [x] + (rest + ys);
      var head := if x == a then [] else [x];
      calc {
        RemoveNode(xs + ys, a);
        { RemoveNodeCons(x, rest + ys, a); }
        head + RemoveNode(rest + ys, a);
        { RemoveNodeConcat(rest, ys, a); }
        head + (RemoveNode(rest, a) + RemoveNode(ys, a));
        (head + RemoveNode(rest, a)) + RemoveNode(ys, a);
        { RemoveNodeCons(x, rest, a); }
        RemoveNode(xs, a) + RemoveNode(ys, a);
      }
    }
  }

  /** A peer that joined and then failed leaves the registry as it would
      have been without it, whatever duplicates it had. */
  lemma JoinThenFail(nodes: seq<Addr>, a: Addr)
    ensures RemoveNode(nodes + [a], a) == RemoveNode(nodes, a)
  {
    RemoveNodeConcat(nodes, [a], a);
    assert RemoveNode([a], a) == [];
  }

  /** Removing twice is removing once. */
  lemma RemoveNodeIdempotent(nodes: seq<Addr>, a: Addr)
    ensures RemoveNode(RemoveNode(nodes, a), a) == RemoveNode(nodes, a)
  {
  }

  /** The acceptor's clean-up once a connection's handler has returned:
      the peer is dropped from the registry only when the handler failed.
      A peer whose request completed keeps every entry; a failed one keeps
      none, and every other peer keeps its count. */
  function AfterConnection(nodes: seq<Addr>, a: Addr, failed: bool): (r: seq<Addr>)
    ensures !failed ==> r == nodes
    ensures failed ==> a !in r && multiset(r) == multiset(nodes)[a := 0]
  {
    if failed then
      RemoveNodeCounts(nodes, a);
      RemoveNode(nodes, a)
    else
      nodes
  }

  /** One heartbeat tick: a `Heartbeat` for each registered peer, in
      registry order, duplicates included. */
  function Heartbeats(nodes: seq<Addr>): (r: seq<Message>)
    ensures |r| == |nodes|
    ensures forall i :: 0 <= i < |r| ==> r[i] == Heartbeat(nodes[i])
  {
    if |nodes| == 0 then []
    else [Heartbeat(nodes[0])] + Heartbeats(nodes[1..])
  }
}
