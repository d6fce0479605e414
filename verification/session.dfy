/**
 How the pieces meet: the handler applies a client's mutation and
 publishes it, the event loop applies it again, and heartbeats flow
 through the loop without effect.
 */
module Session {
  import opened Wrappers
  import opened Strings
  import opened KeyValue
  import opened Messages
  import opened Protocol
  import opened Membership
  import opened Cluster
  import opened Elections

  /** Delivering the handler's published messages `n` times over. */
  function Repeat(ms: seq<Message>, n: nat): (r: seq<Message>)
    ensures |r| == |ms| * n
  {
    if n == 0 then [] else ms + Repeat(ms, n - 1)
  }

  /** The loop re-applying what the handler published, to the store the
      handler already changed, changes nothing and publishes nothing. */
  lemma ReplayIsHarmless(line: string, s: State)
    ensures var h := HandleRequest(line, s.store);
            var s' := s.(store := h.store);
            Run(s', h.published) == Transition(s', [])
  {
    var h := HandleRequest(line, s.store);
    var s' := s.(store := h.store);
    if |h.published| == 1 {
      var m := h.published[0];
      assert m in h.published;
      ApplyIdempotent(s.store, m.command);
      RunCons(s', m, []);
      assert [m] + [] == h.published;
    }
  }

  /** However many times (at least once) the loop receives what the handler
      published, it ends with exactly the store the handler produced, and
      nothing else in the state moves. */
  lemma {:induction false} AtLeastOnce(line: string, s: State, n: nat)
    requires n >= 1
    ensures var h := HandleRequest(line, s.store);
            Run(s, Repeat(h.published, n)).state == s.(store := h.store)
    decreases n
  {
    var h := HandleRequest(line, s.store);
    var s' := s.(store := h.store);
    ReplayIsHarmless(line, s);
    assert Run(s, h.published).state == s' by {
      if |h.published| == 1 {
        var m := h.published[0];
        assert m in h.published;
        RunCons(s, m, []);
        assert [m] + [] == h.published;
      }
    }
    RunAppend(s, h.published, Repeat(h.published, n - 1));
    if n > 1 {
      AtLeastOnce(line, s, n - 1);
      ReplayMany(s', h.published, n - 1);
    }
  }

  /** Messages that leave a state alone leave it alone any number of times. */
  lemma {:induction false} ReplayMany(s: State, ms: seq<Message>, n: nat)
    requires Run(s, ms).state == s
    ensures Run(s, Repeat(ms, n)).state == s
    decreases n
  {
    if n > 0 {
      ReplayMany(s, ms, n - 1);
      RunAppend(s, ms, Repeat(ms, n - 1));
    } else {
      assert Repeat(ms, n) == [];
    }
  }

  /** A heartbeat round, however large the registry, leaves store,
      registry and leader as they were and triggers nothing. */
  lemma {:induction false} HeartbeatsAreInert(s: State, nodes: seq<Addr>)
    ensures Run(s, Heartbeats(nodes)) == Transition(s, [])
    decreases |nodes|
  {
    if |nodes| > 0 {
      var hb := Heartbeats(nodes);
      assert hb == [Heartbeat(nodes[0])] + Heartbeats(nodes[1..]);
      HeartbeatsAreInert(s, nodes[1..]);
      RunCons(s, Heartbeat(nodes[0]), Heartbeats(nodes[1..]));
    }
  }

  /** `GET k` after `PUT k v1` and `PUT k v2` answers with `v2`. */
  lemma LastWriteWinsOnTheWire(store: Store, k: string, v1: string, v2: string)
    requires Sendable(PutRequest(k, v1)) && Sendable(PutRequest(k, v2)) && Sendable(GetRequest(k))
    ensures var s1 := HandleRequest(Render(PutRequest(k, v1)), store).store;
            var s2 := HandleRequest(Render(PutRequest(k, v2)), s1).store;
            HandleRequest(Render(GetRequest(k)), s2).response == "OK " + v2 + "\n"
  {
    var s1 := store[k := v1];
    var s2 := s1[k := v2];
    HandleRendered(PutRequest(k, v1), store);
    HandleRendered(PutRequest(k, v2), s1);
    HandleRendered(GetRequest(k), s2);
  }

  /** The double application is harmless only while no other write to the
      key slips in between. When a second handler stores `v2` before the loop
      replays the first handler's `Put(k, v1)`, the replay puts `v1` back, and
      `GET k` answers with the older value. */
  lemma LateReplayReverts(s: State, k: string, v1: string, v2: string)
    ensures var h1 := Execute(PutRequest(k, v1), s.store);
            var h2 := Execute(PutRequest(k, v2), h1.store);
            var late := Run(s.(store := h2.store), h1.published);
            && Lookup(h2.store, k) == Some(v2)
            && h1.published == [CommandMsg(Put(k, v1))]
            && late.sent == []
            && Lookup(late.state.store, k) == Some(v1)
            && Execute(GetRequest(k), late.state.store).response == "OK " + v1 + "\n"
  {
    var h1 := Execute(PutRequest(k, v1), s.store);
    var h2 := Execute(PutRequest(k, v2), h1.store);
    var m := CommandMsg(Put(k, v1));
    RunCons(s.(store := h2.store), m, []);
    assert [m] + [] == h1.published;
  }

  /** After `DEL k` another `DEL k` changes nothing, so any number of
      them leaves the same store, and `GET k` then answers `NOT FOUND`. */
  lemma DeleteThenGet(store: Store, k: string)
    requires Sendable(DelRequest(k)) && Sendable(GetRequest(k))
    ensures var del := Render(DelRequest(k));
            var s1 := HandleRequest(del, store).store;
            && HandleRequest(del, s1).store == s1
            && HandleRequest(Render(GetRequest(k)), s1).response == "NOT FOUND\n"
  {
    var s1 := store - {k};
    HandleRendered(DelRequest(k), store);
    HandleRendered(DelRequest(k), s1);
    HandleRendered(GetRequest(k), s1);
    DelAbsent(s1, k);
  }

  /** "FOO" is a single token, and a single token is no request. */
  lemma RejectsFoo()
    ensures ParseRequest("FOO\n") == Malformed
  {
    FooTrims();
    FooSplits();
  }

  /** The terminator is whitespace, and nothing else is. */
  lemma FooTrims()
    ensures Trim("FOO\n") == "FOO"
  {
    assert "FOO\n" == "" + "FOO" + "\n";
    TrimExact("", "FOO", "\n");
  }

  /** A space-free line is one piece. */
  lemma FooSplits()
    ensures Split("FOO") == ["FOO"]
  {
    assert "FOO" == ['F', 'O', 'O'];
    SplitToken("FOO");
  }

  /** A client's exchange against a fresh node, one connection per line:
      `PUT k v`, `GET k`, `DEL k`, `GET k`, then an unknown verb. */
  lemma ClientSession(k: string, v: string)
    requires Sendable(PutRequest(k, v)) && Sendable(GetRequest(k))
    ensures var h1 := HandleRequest(Render(PutRequest(k, v)), map[]);
            var h2 := HandleRequest(Render(GetRequest(k)), h1.store);
            var h3 := HandleRequest(Render(DelRequest(k)), h2.store);
            var h4 := HandleRequest(Render(GetRequest(k)), h3.store);
            var h5 := HandleRequest("FOO\n", h4.store);
            && h1.response == "OK\n"
            && h2.response == "OK " + v + "\n"
            && h3.response == "OK\n"
            && h4.response == "NOT FOUND\n"
            && h5.response == "ERROR\n"
  {
    var empty: Store := map[];
    var one: Store := map[k := v];
    HandleRendered(PutRequest(k, v), empty);
    HandleRendered(GetRequest(k), one);
    HandleRendered(DelRequest(k), one);
    HandleRendered(GetRequest(k), empty);
    assert one - {k} == empty;
    RejectsFoo();
  }

  /** What a client writes is handled as the request it meant. */
  lemma HandleRendered(req: Request, store: Store)
    requires Sendable(req)
    ensures HandleRequest(Render(req), store) == Execute(req, store)
  {
    ParseRender(req, "\n");
  }

  /** A join, once the bus drains, appends the address to the registry,
      whether or not the cluster had a leader. */
  lemma JoinAppends(s: State, a: Addr)
    ensures Drain(s, [NewNode(a)]).state.nodes == s.nodes + [a]
  {
    if s.leader.None? {
      JoinElects(s, a);
    } else {
      JoinNeverDeposes(s, a);
    }
  }

  /** A peer's whole connection. The acceptor queues the peer's join and
      starts its handler; the two then race. If the loop drains the join
      first, the acceptor keeps the peer when its request completed and
      removes it when the handler failed, and the rest of the registry is as
      it was. If the handler fails first, the removal finds nothing to
      remove, and the join that follows registers the failed peer for
      good. */
  lemma ConnectionLifecycle(s: State, a: Addr, failed: bool, joinedFirst: bool)
    ensures var nodes := if joinedFirst
                         then AfterConnection(Drain(s, [NewNode(a)]).state.nodes, a, failed)
                         else Drain(s.(nodes := AfterConnection(s.nodes, a, failed)), [NewNode(a)]).state.nodes;
            && (!failed ==> nodes == s.nodes + [a])
            && (failed && joinedFirst ==> nodes == RemoveNode(s.nodes, a))
            && (failed && !joinedFirst ==> nodes == RemoveNode(s.nodes, a) + [a] && a in nodes)
  {
    JoinAppends(s, a);
    JoinAppends(s.(nodes := AfterConnection(s.nodes, a, failed)), a);
    JoinThenFail(s.nodes, a);
  }
}
