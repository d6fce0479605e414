/**
 The cluster event loop of `main` as a state machine: the state is the
 store, the membership registry and the leadership cell; each bus message
 gives a new state and the messages the loop publishes in reaction.
 */
module Cluster {
  import opened Wrappers
  import opened KeyValue
  import opened Messages
  import opened Order

  datatype State = State(store: Store, nodes: seq<Addr>, leader: Option<Addr>)

  /** The state after a message, and what the loop sent on the bus. */
  datatype Transition = Transition(state: State, sent: seq<Message>)

  /** Empty store, empty registry, no leader. */
  function Initial(): State {
    State(map[], [], None)
  }

  /** The election test: there is no leader yet, or the candidate's text
      sorts strictly after the current leader's. */
  predicate Wins(a: Addr, leader: Option<Addr>) {
    leader.None? || StrLt(leader.value, a)
  }

  /** One iteration of the loop's `match`. Only a command touches the
      store, only a join touches the registry, only an election or an
      announcement touches the leadership cell, and at most one message is
      sent, never a command. */
  function Step(s: State, m: Message): (t: Transition)
    ensures |t.sent| <= 1
    ensures forall x :: x in t.sent ==> !x.CommandMsg?
    ensures m.CommandMsg? ==> t.state.store == Apply(s.store, m.command)
    ensures !m.CommandMsg? ==> t.state.store == s.store
    ensures !m.NewNode? ==> t.state.nodes == s.nodes
    ensures !(m.Election? || m.Leader?) ==> t.state.leader == s.leader
    ensures m.CommandMsg? || m.Heartbeat? ==> t.sent == []
  {
    match m
    case CommandMsg(c) =>
      Transition(s.(store := Apply(s.store, c)), [])
    case NewNode(a) =>
      Transition(s.(nodes := s.nodes + [a]), if s.leader.None? then [Election(a)] else [])
    case Election(a) =>
      if Wins(a, s.leader) then Transition(s.(leader := Some(a)), [Leader(a)])
      else Transition(s, [])
    case Leader(a) =>
      Transition(s.(leader := Some(a)), [])
    case Heartbeat(_) =>
      Transition(s, [])
  }

  /** The loop over a fixed sequence of received messages; what it sends is
      collected in order and not fed back. */
  function Run(s: State, ms: seq<Message>): (t: Transition)
    ensures |t.sent| <= |ms|
    decreases |ms|
  {
    if |ms| == 0 then Transition(s, [])
    else
      var first := Step(s, ms[0]);
      var rest := Run(first.state, ms[1..]);
      Transition(rest.state, first.sent + rest.sent)
  }

  /** The loop handles the first message, then the rest from where it left
      off. */
  lemma RunCons(s: State, m: Message, ms: seq<Message>)
    ensures var first := Step(s, m);
            var rest := Run(first.state, ms);
            Run(s, [m] + ms) == Transition(rest.state, first.sent + rest.sent)
  {
    assert ([m] + ms)[0] == m && ([m] + ms)[1..] == ms;
  }

  /** Without commands in the stream the store stays as it was; without
      joins the registry does; and the loop itself never publishes a
      command. */
  lemma {:induction false} RunFrame(s: State, ms: seq<Message>)
    ensures (forall i :: 0 <= i < |ms| ==> !ms[i].CommandMsg?) ==> Run(s, ms).state.store == s.store
    ensures (forall i :: 0 <= i < |ms| ==> !ms[i].NewNode?) ==> Run(s, ms).state.nodes == s.nodes
    ensures forall x :: x in Run(s, ms).sent ==> !x.CommandMsg?
    decreases |ms|
  {
    if |ms| > 0 {
      RunFrame(Step(s, ms[0]).state, ms[1..]);
    }
  }

  /** Running two batches back to back is running their concatenation. */
  lemma {:induction false} RunAppend(s: State, a: seq<Message>, b: seq<Message>)
    ensures var first := Run(s, a);
            var second := Run(first.state, b);
            Run(s, a + b) == Transition(second.state, first.sent + second.sent)
    decreases |a|
  {
    if |a| == 0 {
      assert a + b == b;
    } else {
      var m, tail := a[0], a[1..];
      var step := Step(s, m);
      RunAppend(step.state, tail, b);
      assert a == [m] + tail;
      assert a + b == [m] + (tail + b);
      RunCons(s, m, tail + b);
      RunCons(s, m, tail);
      var mid := Run(step.state, tail);
      var second := Run(mid.state, b);
      Associative(step.sent, mid.sent, second.sent);
    }
  }

  lemma Associative(x: seq<Message>, y: seq<Message>, z: seq<Message>)
    ensures x + (y + z) == (x + y) + z
  {
  }

  /** The loop never removes a peer: the registry only grows, by appending. */
  lemma {:induction false} RegistryOnlyGrows(s: State, ms: seq<Message>)
    ensures s.nodes <= Run(s, ms).state.nodes
    decreases |ms|
  {
    if |ms| > 0 {
      RegistryOnlyGrows(Step(s, ms[0]).state, ms[1..]);
    }
  }

  /** A join can lead to an election, an election to an announcement, and
      nothing further: each message outweighs what it causes. */
  function Weight(m: Message): nat {
    match m
    case NewNode(_) => 3
    case Election(_) => 2
    case _ => 1
  }

  function TotalWeight(q: seq<Message>): nat {
    if |q| == 0 then 0 else Weight(q[0]) + TotalWeight(q[1..])
  }

  lemma {:induction false} TotalWeightConcat(p: seq<Message>, q: seq<Message>)
    ensures TotalWeight(p + q) == TotalWeight(p) + TotalWeight(q)
  {
    if |p| > 0 {
      TotalWeightConcat(p[1..], q);
      assert (p + q)[1..] == p[1..] + q;
    } else {
      assert p + q == q;
    }
  }

  /** The loop as the single long-lived subscriber of a FIFO bus: it takes
      the oldest pending message, and whatever it publishes joins the back
      of the queue. The result is the state once the bus is empty. */
  function Drain(s: State, q: seq<Message>): (t: Transition)
    ensures s.nodes <= t.state.nodes
    ensures forall x :: x in t.sent ==> !x.CommandMsg?
    ensures (forall m :: m in q ==> !m.CommandMsg?) ==> t.state.store == s.store
    decreases TotalWeight(q)
  {
    if |q| == 0 then Transition(s, [])
    else
      var first := Step(s, q[0]);
      TotalWeightConcat(q[1..], first.sent);
      assert TotalWeight(first.sent) < Weight(q[0]) by {
        if |first.sent| == 1 { assert first.sent[1..] == []; }
      }
      var next := q[1..] + first.sent;
      var rest := Drain(first.state, next);
      Transition(rest.state, first.sent + rest.sent)
  }

  /** Draining a queue first works through the messages already queued,
      then through what they caused. */
  lemma {:induction false} DrainQueued(s: State, q: seq<Message>, p: seq<Message>)
    ensures Drain(s, q + p).state == Drain(Run(s, q).state, p + Run(s, q).sent).state
    decreases |q|
  {
    if |q| == 0 {
      assert q + p == p && p + [] == p;
    } else {
      var m, tail := q[0], q[1..];
      var first := Step(s, m);
      assert (q + p)[0] == m;
      assert (q + p)[1..] == tail + p;
      Associative(tail, p, first.sent);
      DrainQueued(first.state, tail, p + first.sent);
      assert q == [m] + tail;
      RunCons(s, m, tail);
      Associative(p, first.sent, Run(first.state, tail).sent);
    }
  }

  /** Draining a batch ends where draining what the batch's round sent,
      from where the round left off, ends. */
  lemma DrainRound(s: State, q: seq<Message>)
    ensures Drain(s, q).state == Drain(Run(s, q).state, Run(s, q).sent).state
  {
    assert q + [] == q && [] + Run(s, q).sent == Run(s, q).sent;
    DrainQueued(s, q, []);
  }
}
