/**
 Properties of the leadership protocol run by the cluster event loop:
 the per-message rules, the monotone election rule, and what a batch of
 proposals or joins leaves as leader.
 */
module Elections {
  import opened Wrappers
  import opened Messages
  import opened Order
  import opened Cluster

  /** One proposal per address, in order. */
  function Elections(ps: seq<Addr>): (ms: seq<Message>)
    ensures |ms| == |ps|
  {
    if |ps| == 0 then [] else [Election(ps[0])] + Elections(ps[1..])
  }

  /** The i-th proposal names the i-th address. */
  lemma {:induction false} ElectionsAt(ps: seq<Addr>, i: nat)
    requires i < |ps|
    ensures Elections(ps)[i] == Election(ps[i])
    decreases i
  {
    if i > 0 {
      ElectionsAt(ps[1..], i - 1);
    }
  }

  lemma {:induction false} OnlyElections(ps: seq<Addr>)
    ensures forall m :: m in Elections(ps) ==> m.Election? && m.addr in ps
  {
    if |ps| > 0 {
      OnlyElections(ps[1..]);
    }
  }

  /** One join per address, in order. */
  function NewNodes(peers: seq<Addr>): (ms: seq<Message>)
    ensures |ms| == |peers|
  {
    if |peers| == 0 then [] else [NewNode(peers[0])] + NewNodes(peers[1..])
  }

  /** The i-th join names the i-th address. */
  lemma {:induction false} NewNodesAt(peers: seq<Addr>, i: nat)
    requires i < |peers|
    ensures NewNodes(peers)[i] == NewNode(peers[i])
    decreases i
  {
    if i > 0 {
      NewNodesAt(peers[1..], i - 1);
    }
  }

  /** The current leader followed by the proposals: the addresses an
      election round chooses among. */
  function Candidates(leader: Option<Addr>, ps: seq<Addr>): seq<Addr> {
    (if leader.Some? then [leader.value] else []) + ps
  }

  /** `after` is a leader, and it is the old one or sorts after it. */
  predicate NoLower(before: Option<Addr>, after: Option<Addr>) {
    && (before.Some? ==> after.Some?)
    && (before.Some? ==> after.value == before.value || StrLt(before.value, after.value))
  }

  /** On `Election(a)`: `a` becomes leader and `Leader(a)` is published
      exactly when there is no leader or `a` sorts strictly after it;
      otherwise nothing at all changes. */
  lemma StepElection(s: State, a: Addr)
    ensures var t := Step(s, Election(a));
            && ((t.state.leader == Some(a) && t.sent == [Leader(a)])
                <==> (s.leader.None? || StrLt(s.leader.value, a)))
            && (!(s.leader.None? || StrLt(s.leader.value, a)) ==> t == Transition(s, []))
            && t.state.store == s.store && t.state.nodes == s.nodes
  {
  }

  /** An election never lowers the leader. */
  lemma ElectionMonotone(s: State, a: Addr)
    ensures NoLower(s.leader, Step(s, Election(a)).state.leader)
  {
  }

  /** On `NewNode(a)`: `a` is appended (duplicates kept) and `Election(a)`
      is published only when there is no leader. On `Leader(a)`: `a`
      becomes leader whatever it is. On `Heartbeat`: nothing changes. The
      store is untouched by all three. */
  lemma StepControl(s: State, a: Addr)
    ensures Step(s, NewNode(a)) ==
            Transition(s.(nodes := s.nodes + [a]), if s.leader.None? then [Election(a)] else [])
    ensures Step(s, Leader(a)) == Transition(s.(leader := Some(a)), [])
    ensures Step(s, Heartbeat(a)) == Transition(s, [])
  {
  }

  /** Without announcements in the stream, the leader only ever rises. */
  lemma {:induction false} NeverLowerWithoutAnnouncements(s: State, ms: seq<Message>)
    requires forall i :: 0 <= i < |ms| ==> !ms[i].Leader?
    ensures NoLower(s.leader, Run(s, ms).state.leader)
    decreases |ms|
  {
    if |ms| > 0 {
      var s1 := Step(s, ms[0]).state;
      NeverLowerWithoutAnnouncements(s1, ms[1..]);
      var l := Run(s1, ms[1..]).state.leader;
      if s.leader.Some? && s1.leader.value != s.leader.value && l.value != s1.leader.value {
        StrLtTransitive(s.leader.value, s1.leader.value, l.value);
      }
    }
  }

  /** A stale announcement still wins: the `Leader` rule is unconditional,
      so an announcement that arrives after a higher proposal has been
      accepted puts the lower address back. */
  lemma StaleAnnouncementLowers(s: State, a: Addr, b: Addr)
    requires s.leader.None? && StrLt(a, b)
    ensures Run(s, [Election(a), Election(b), Leader(a)]).state.leader == Some(a)
    ensures !NoLower(Some(b), Some(a))
  {
    var ms := [Election(a), Election(b), Leader(a)];
    assert ms[1..] == [Election(b), Leader(a)] && ms[1..][1..] == [Leader(a)];
    assert ms[1..][1..][1..] == [];
    var s1 := s.(leader := Some(a));
    var s2 := s.(leader := Some(b));
    assert Step(s, Election(a)).state == s1;
    assert Step(s1, Election(b)).state == s2;
    assert Step(s2, Leader(a)).state == s1;
    assert Run(s2, [Leader(a)]).state == Run(s1, []).state == s1;
    assert Run(s1, ms[1..]).state == s1;
    StrLtAsymmetric(a, b);
  }

  /** A round of proposals leaves as leader the greatest of the old leader
      and the proposals; store and registry are untouched. */
  lemma {:induction false} RunElections(s: State, ps: seq<Addr>)
    requires |ps| > 0 || s.leader.Some?
    ensures var t := Run(s, Elections(ps));
            && t.state.leader.Some?
            && IsGreatest(t.state.leader.value, Candidates(s.leader, ps))
            && t.state.store == s.store && t.state.nodes == s.nodes
    decreases |ps|
  {
    var ms := Elections(ps);
    OnlyElections(ps);
    RunFrame(s, ms);
    if |ps| == 0 {
      assert Candidates(s.leader, ps) == [s.leader.value];
    } else {
      var p := ps[0];
      var s1 := Step(s, Election(p)).state;
      assert ms[0] == Election(p) && ms[1..] == Elections(ps[1..]);
      RunElections(s1, ps[1..]);
      assert Run(s, ms).state == Run(s1, ms[1..]).state;
      var g := Run(s1, ms[1..]).state.leader.value;
      var w := s1.leader.value;
      assert p == w || StrLt(p, w) by {
        if !Wins(p, s.leader) { StrLtTotal(p, s.leader.value); }
      }
      RoundStep(s.leader, p, w, ps[1..], g);
    }
  }

  /** The induction step of `RunElections`: if `w` beats the old leader
      and the proposal `p`, then the greatest of `w` and the remaining
      proposals is the greatest of all. */
  lemma RoundStep(leader: Option<Addr>, p: Addr, w: Addr, rest: seq<Addr>, g: Addr)
    requires p == w || StrLt(p, w)
    requires w == p || (leader.Some? && w == leader.value)
    requires leader.Some? ==> leader.value == w || StrLt(leader.value, w)
    requires IsGreatest(g, Candidates(Some(w), rest))
    ensures IsGreatest(g, Candidates(leader, [p] + rest))
  {
    var all := Candidates(leader, [p] + rest);
    assert w in Candidates(Some(w), rest);
    assert forall x :: x in all ==> x in rest || x == p || x == leader.value;
    forall x | x in all
      ensures x == g || StrLt(x, g)
    {
      if x !in rest && x != w && w != g {
        StrLtTransitive(x, w, g);
      }
    }
    assert g in all by {
      assert g in Candidates(Some(w), rest);
    }
  }

  /** Every announcement a round publishes is a `Leader`, the last one
      names the round's final leader, and a round starting without a leader
      publishes at least one. */
  lemma {:induction false} RoundAnnouncements(s: State, ps: seq<Addr>)
    ensures var t := Run(s, Elections(ps));
            && (forall i :: 0 <= i < |t.sent| ==> t.sent[i].Leader?)
            && (|t.sent| > 0 ==> t.state.leader.Some? && t.sent[|t.sent| - 1] == Leader(t.state.leader.value))
            && (s.leader.None? && |ps| > 0 ==> |t.sent| > 0)
    decreases |ps|
  {
    if |ps| > 0 {
      var ms := Elections(ps);
      var first := Step(s, Election(ps[0]));
      assert ms[0] == Election(ps[0]) && ms[1..] == Elections(ps[1..]);
      RoundAnnouncements(first.state, ps[1..]);
      var rest := Run(first.state, ms[1..]);
      assert Run(s, ms) == Transition(rest.state, first.sent + rest.sent);
      if |rest.sent| == 0 {
        assert rest.state == first.state by {
          RoundQuiet(first.state, ps[1..]);
        }
      }
    }
  }

  /** A round that publishes nothing changes nothing. */
  lemma {:induction false} RoundQuiet(s: State, ps: seq<Addr>)
    requires |Run(s, Elections(ps)).sent| == 0
    ensures Run(s, Elections(ps)).state == s
    decreases |ps|
  {
    if |ps| > 0 {
      var ms := Elections(ps);
      var first := Step(s, Election(ps[0]));
      assert ms[0] == Election(ps[0]) && ms[1..] == Elections(ps[1..]);
      RoundQuiet(first.state, ps[1..]);
    }
  }

  /** The final leader of a round is the greatest candidate. */
  lemma ElectionsElectGreatest(s: State, ps: seq<Addr>)
    requires |ps| > 0 || s.leader.Some?
    ensures Run(s, Elections(ps)).state.leader == Some(Greatest(Candidates(s.leader, ps)))
  {
    var cs := Candidates(s.leader, ps);
    RunElections(s, ps);
    GreatestUnique(Run(s, Elections(ps)).state.leader.value, cs, Greatest(cs), cs);
  }

  /** The final leader does not depend on the order in which the proposals
      arrive, nor on how often each arrives. */
  lemma ElectionOrderIrrelevant(s: State, ps: seq<Addr>, qs: seq<Addr>)
    requires forall x :: x in ps <==> x in qs
    ensures Run(s, Elections(ps)).state.leader == Run(s, Elections(qs)).state.leader
  {
    assert |ps| > 0 <==> |qs| > 0 by {
      if |ps| > 0 { assert ps[0] in qs; }
      if |qs| > 0 { assert qs[0] in ps; }
    }
    if |ps| > 0 || s.leader.Some? {
      RunElections(s, ps);
      RunElections(s, qs);
      GreatestUnique(Run(s, Elections(ps)).state.leader.value, Candidates(s.leader, ps),
                     Run(s, Elections(qs)).state.leader.value, Candidates(s.leader, qs));
    }
  }

  /** While the cell is empty every join proposes its own address. */
  lemma {:induction false} JoinsWhileLeaderless(s: State, peers: seq<Addr>)
    requires s.leader.None?
    ensures Run(s, NewNodes(peers)).state == s.(nodes := s.nodes + peers)
    ensures Run(s, NewNodes(peers)).sent == Elections(peers)
    decreases |peers|
  {
    if |peers| == 0 {
      assert s.nodes + peers == s.nodes;
    } else {
      var s1 := s.(nodes := s.nodes + [peers[0]]);
      JoinsWhileLeaderless(s1, peers[1..]);
      JoinStep(s, peers);
      assert s1.nodes + peers[1..] == s.nodes + peers;
    }
  }

  /** The first join of a leaderless batch, on its own. */
  lemma JoinStep(s: State, peers: seq<Addr>)
    requires s.leader.None? && |peers| > 0
    ensures var s1 := s.(nodes := s.nodes + [peers[0]]);
            var rest := Run(s1, NewNodes(peers[1..]));
            && Run(s, NewNodes(peers)).state == rest.state
            && Run(s, NewNodes(peers)).sent == [Election(peers[0])] + rest.sent
            && Elections(peers) == [Election(peers[0])] + Elections(peers[1..])
  {
    assert NewNodes(peers) == [NewNode(peers[0])] + NewNodes(peers[1..]);
    RunCons(s, NewNode(peers[0]), NewNodes(peers[1..]));
  }

  /** Draining a queue of announcements leaves the last one as leader. */
  lemma {:induction false} DrainAnnouncements(s: State, q: seq<Message>)
    requires |q| > 0
    requires forall i :: 0 <= i < |q| ==> q[i].Leader?
    ensures Drain(s, q).state == s.(leader := Some(q[|q| - 1].addr))
    decreases |q|
  {
    var s1 := s.(leader := Some(q[0].addr));
    assert q[1..] + [] == q[1..];
    if |q| == 1 {
      assert Drain(s, q).state == Drain(s1, []).state;
    } else {
      DrainAnnouncements(s1, q[1..]);
    }
  }

  /** A peer joining a cluster without a leader becomes its leader once the
      bus has drained. */
  lemma JoinElects(s: State, a: Addr)
    requires s.leader.None?
    ensures Drain(s, [NewNode(a)]).state == s.(nodes := s.nodes + [a], leader := Some(a))
  {
    ConcurrentJoinsElectGreatest(s, [a]);
    assert NewNodes([a]) == [NewNode(a)];
    assert Greatest([a]) == a;
  }

  /** The first peer to connect to a fresh node leads it. */
  lemma FirstPeerLeads(a: Addr)
    ensures Drain(Initial(), [NewNode(a)]).state == State(map[], [a], Some(a))
  {
    JoinElects(Initial(), a);
  }

  /** A join never deposes a leader, however its address sorts: the loop
      proposes the newcomer only while the cell is empty. */
  lemma JoinNeverDeposes(s: State, a: Addr)
    requires s.leader.Some?
    ensures Drain(s, [NewNode(a)]).state == s.(nodes := s.nodes + [a])
  {
    var s1 := s.(nodes := s.nodes + [a]);
    assert [NewNode(a)][1..] + [] == [];
    assert Drain(s, [NewNode(a)]).state == Drain(s1, []).state;
  }

  /** Peers joining together into a cluster without a leader end, once the
      bus has drained, with the greatest of them as leader, although the
      leader may dip on the way (see `StaleAnnouncementLowers`). */
  lemma ConcurrentJoinsElectGreatest(s: State, peers: seq<Addr>)
    requires s.leader.None? && |peers| > 0
    ensures Drain(s, NewNodes(peers)).state == s.(nodes := s.nodes + peers, leader := Some(Greatest(peers)))
  {
    var s1 := s.(nodes := s.nodes + peers);
    JoinsThenProposals(s, peers);
    ProposalsThenAnnouncements(s1, peers);
  }

  /** First every join is handled, each proposing its own address. */
  lemma JoinsThenProposals(s: State, peers: seq<Addr>)
    requires s.leader.None?
    ensures Drain(s, NewNodes(peers)).state == Drain(s.(nodes := s.nodes + peers), Elections(peers)).state
  {
    var joins := NewNodes(peers);
    JoinsWhileLeaderless(s, peers);
    assert joins + [] == joins && [] + Elections(peers) == Elections(peers);
    DrainQueued(s, joins, []);
  }

  /** A round of proposals into a leaderless cluster elects the greatest. */
  lemma ProposalRound(s: State, peers: seq<Addr>)
    requires s.leader.None? && |peers| > 0
    ensures Run(s, Elections(peers)).state == s.(leader := Some(Greatest(peers)))
  {
    RunElections(s, peers);
    ElectionsElectGreatest(s, peers);
    assert Candidates(s.leader, peers) == peers;
  }

  /** Then the proposals, each accepted one queueing an announcement whose
      last one names the greatest proposal. */
  lemma ProposalsThenAnnouncements(s: State, peers: seq<Addr>)
    requires s.leader.None? && |peers| > 0
    ensures Drain(s, Elections(peers)).state == s.(leader := Some(Greatest(peers)))
  {
    var votes := Elections(peers);
    var r := Run(s, votes);
    DrainRound(s, votes);
    ProposalRound(s, peers);
    RoundAnnouncements(s, peers);
    DrainAnnouncements(r.state, r.sent);
  }


}
