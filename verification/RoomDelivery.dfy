/**
 What reaches a subscriber (backend/internal/ws/server.go:365-398): over every
 run, what was written to its socket and what waits in its channel are, in
 order, the broadcasts published to its room since it joined, its own excepted.
 */
module RoomDelivery {
  import opened Wrappers
  import opened RoomServer

  /** The broadcasts among some messages, in order. */
  function Broadcasts(msgs: seq<Message>): seq<Message> {
    if msgs == [] then [] else (if msgs[0].Broadcast? then [msgs[0]] else []) + Broadcasts(msgs[1..])
  }

  lemma {:induction false} BroadcastsSplit(a: seq<Message>, b: seq<Message>)
    ensures Broadcasts(a + b) == Broadcasts(a) + Broadcasts(b)
  {
    if a == [] {
      assert a + b == b;
    } else {
      assert (a + b)[0] == a[0] && (a + b)[1..] == a[1..] + b;
      BroadcastsSplit(a[1..], b);
    }
  }

  /** Everything that got through to a subscriber, written or still buffered. */
  function Received(s: State, m: SubId): seq<Message> {
    if m in s.subs then Broadcasts(s.subs[m].written + s.subs[m].msgs) else []
  }

  predicate Evicting(s: State, m: SubId) {
    m in s.subs && s.subs[m].evicting
  }

  /** What the action publishes to this subscriber. */
  function PublishedTo(s: State, a: Action, m: SubId): seq<Message> {
    if a.Publish? && a.msg.Broadcast? && m in Members(s, a.r) && a.sender != Some(m) then [a.msg] else []
  }

  function PublishedIn(s: State, actions: seq<Action>, m: SubId): seq<Message>
    decreases |actions|
  {
    if actions == [] then []
    else PublishedTo(s, actions[0], m) + PublishedIn(Step(s, actions[0]), actions[1..], m)
  }

  /** Replies to one client are not broadcasts. */
  predicate DirectOnly(a: Action) {
    a.SendTo? ==> !a.msg.Broadcast?
  }

  lemma OfferedReceives(sub: Subscriber, msg: Message, evict: bool)
    ensures var after := Offered(sub, msg, evict);
            || (after.evicting && evict)
            || (|sub.msgs| >= BUFFER && after == sub && !evict)
            || Broadcasts(after.written + after.msgs) ==
               Broadcasts(sub.written + sub.msgs) + (if msg.Broadcast? then [msg] else [])
    ensures !msg.Broadcast? ==> Broadcasts(Offered(sub, msg, evict).written + Offered(sub, msg, evict).msgs) ==
                                Broadcasts(sub.written + sub.msgs)
  {
    assert sub.written + (sub.msgs + [msg]) == (sub.written + sub.msgs) + [msg];
    BroadcastsSplit(sub.written + sub.msgs, [msg]);
    assert [msg][1..] == [];
  }

  lemma EvictionSticks(s: State, a: Action, m: SubId)
    requires Evicting(s, m)
    ensures Evicting(Step(s, a), m)
  {
    match a
    case Join(owner, sub) => assert sub !in s.subs ==> sub != m;
    case _ =>
  }

  lemma WriteKeepsReceived(s: State, sub: SubId, m: SubId)
    ensures Received(WriteStep(s, sub), m) == Received(s, m)
  {
    if sub in s.subs && s.subs[sub].msgs != [] {
      var c := s.subs[sub];
      assert (c.written + [c.msgs[0]]) + c.msgs[1..] == c.written + c.msgs;
    }
  }

  lemma JoinKeepsReceived(s: State, owner: string, sub: SubId, m: SubId)
    requires Sound(s) && sub !in s.subs
    ensures Received(JoinStep(s, owner, sub), m) == Received(s, m)
  {
    JoinSound(s, owner, sub);
    if m == sub {
      var after := JoinStep(s, owner, sub).subs[sub];
      assert after.written + after.msgs == [Presence(sub)];
      assert [Presence(sub)][1..] == [];
      assert Broadcasts([Presence(sub)]) == [] + Broadcasts([]);
    } else if m in s.subs {
      OfferedReceives(s.subs[m], Presence(sub), false);
    }
  }

  lemma LeaveKeepsReceived(s: State, sub: SubId, m: SubId)
    ensures Received(LeaveStep(s, sub), m) == Received(s, m)
  {
    if m in s.subs {
      OfferedReceives(s.subs[m], Presence(sub), false);
    }
  }

  /** One step: the published broadcast arrives, or the subscriber is scheduled for eviction. */
  lemma StepDelivers(s: State, a: Action, m: SubId)
    requires Sound(s) && DirectOnly(a)
    ensures Evicting(Step(s, a), m) || Received(Step(s, a), m) == Received(s, m) + PublishedTo(s, a, m)
  {
    match a
    case Join(owner, sub) =>
      if sub !in s.subs {
        JoinKeepsReceived(s, owner, sub, m);
      }
    case Leave(sub) => LeaveKeepsReceived(s, sub, m);
    case Publish(r, msg, sender) =>
      if m in s.subs {
        OfferedReceives(s.subs[m], msg, true);
      }
    case SendTo(sub, msg) =>
      if m in s.subs {
        OfferedReceives(s.subs[m], msg, true);
      }
    case Write(sub) => WriteKeepsReceived(s, sub, m);
  }

  lemma Regroup(a: seq<Message>, b: seq<Message>, c: seq<Message>)
    ensures (a + b) + c == a + (b + c)
  {
  }

  /** Whole runs, for a subscriber that ends up not scheduled for eviction. */
  lemma {:induction false} RunDelivers(s: State, actions: seq<Action>, m: SubId)
    requires Sound(s) && forall a :: a in actions ==> DirectOnly(a)
    ensures Evicting(Run(s, actions), m) || Received(Run(s, actions), m) == Received(s, m) + PublishedIn(s, actions, m)
    decreases |actions|
  {
    if actions != [] {
      var next := Step(s, actions[0]);
      StepSound(s, actions[0]);
      StepDelivers(s, actions[0], m);
      if Evicting(next, m) {
        StaysEvicting(next, actions[1..], m);
      } else {
        RunDelivers(next, actions[1..], m);
        Regroup(Received(s, m), PublishedTo(s, actions[0], m), PublishedIn(next, actions[1..], m));
      }
    }
  }

  lemma {:induction false} StaysEvicting(s: State, actions: seq<Action>, m: SubId)
    requires Evicting(s, m)
    ensures Evicting(Run(s, actions), m)
    decreases |actions|
  {
    if actions != [] {
      EvictionSticks(s, actions[0], m);
      StaysEvicting(Step(s, actions[0]), actions[1..], m);
    }
  }

  /**
   From the start: a subscriber that is not scheduled for eviction has received
   exactly what was published to it, in order, and no buffer is over its size.
   */
  lemma DeliveredExactly(actions: seq<Action>, m: SubId)
    requires forall a :: a in actions ==> DirectOnly(a)
    requires var s := Run(EMPTY, actions); m in s.subs && !s.subs[m].evicting
    ensures var s := Run(EMPTY, actions);
            && Broadcasts(s.subs[m].written + s.subs[m].msgs) == PublishedIn(EMPTY, actions, m)
            && |s.subs[m].msgs| <= BUFFER
  {
    RunDelivers(EMPTY, actions, m);
    RunSound(EMPTY, actions);
    assert [] + PublishedIn(EMPTY, actions, m) == PublishedIn(EMPTY, actions, m);
  }

  /** Publishing reaches the members of the room only: nobody hears another room. */
  lemma OnlyOwnRoom(s: State, r: RoomId, msg: Message, sender: Option<SubId>, m: SubId)
    requires Sound(s) && PublishedTo(s, Publish(r, msg, sender), m) != []
    ensures m in s.subs && s.subs[m].room == Some(r) && sender != Some(m)
  {
  }

  // ----- what enters a channel, and when a subscriber is dropped -----

  /** The broadcasts and replies that are meant for the subscriber. */
  predicate SentTo(s: State, a: Action, m: SubId) {
    match a
    case Publish(r, _, sender) => m in Members(s, r) && sender != Some(m)
    case SendTo(sub, _) => m == sub
    case _ => false
  }

  /** The room that a join or leave tells of, as seen by those who are in it before and after. */
  predicate Hears(s: State, a: Action, m: SubId) {
    match a
    case Join(owner, sub) => sub !in s.subs && m != sub && owner in s.mapped && m in Members(s, s.mapped[owner])
    case Leave(sub) =>
      && m != sub && sub in s.subs && s.subs[sub].room.Some?
      && m in Members(s, s.subs[sub].room.value)
    case _ => false
  }

  /** Every message that comes by for the subscriber in one step. */
  function Arriving(s: State, a: Action, m: SubId): Option<Message> {
    if SentTo(s, a, m) then Some(a.msg)
    else if Hears(s, a, m) then Some(Presence(a.sub))
    else None
  }

  /**
   One step and one subscriber: a message that comes by waits behind the others
   if fewer than sixteen are waiting. Only a write takes one away, the oldest. A
   subscriber is dropped exactly for a broadcast or a reply that found sixteen.
   */
  lemma StepQueues(s: State, a: Action, m: SubId)
    requires Sound(s) && m in s.subs
    ensures var before, s', arriving := s.subs[m], Step(s, a), Arriving(s, a, m);
            && m in s'.subs
            && s'.subs[m].room == before.room
            && (s'.subs[m].evicting <==> before.evicting || (SentTo(s, a, m) && |before.msgs| == 16))
            && (if a == Write(m) && before.msgs != []
                then s'.subs[m].msgs == before.msgs[1..] && s'.subs[m].written == before.written + [before.msgs[0]]
                else s'.subs[m].written == before.written
                     && s'.subs[m].msgs ==
                        before.msgs + (if arriving.Some? && |before.msgs| < 16 then [arriving.value] else []))
  {
    assert s.subs[m].msgs + [] == s.subs[m].msgs;
  }

  /** A subscriber exists from its join on, and starts with its own presence waiting. */
  lemma JoinerStarts(s: State, a: Action, m: SubId)
    requires Sound(s) && m !in s.subs
    ensures m in Step(s, a).subs <==> a.Join? && a.sub == m
    ensures a.Join? && a.sub == m ==>
      var sub := Step(s, a).subs[m];
      sub.msgs == [Presence(m)] && sub.written == [] && !sub.evicting
      && sub.room.Some? && Members(Step(s, a), sub.room.value) >= {m}
  {
    if a.Join? && a.sub == m {
      EnteredSound(s, a.owner);
      assert [] + [Presence(m)] == [Presence(m)];
    }
  }

  /** What was written to the subscriber and what still waits, of every kind. */
  function Everything(s: State, m: SubId): seq<Message> {
    if m in s.subs then s.subs[m].written + s.subs[m].msgs else []
  }

  /** The message that enters the subscriber's channel in one step, if any. */
  function Taken(s: State, a: Action, m: SubId): seq<Message> {
    if m in s.subs then
      if Arriving(s, a, m).Some? && |s.subs[m].msgs| < 16 then [Arriving(s, a, m).value] else []
    else if a.Join? && a.sub == m then [Presence(m)]
    else []
  }

  function TakenIn(s: State, actions: seq<Action>, m: SubId): seq<Message>
    decreases |actions|
  {
    if actions == [] then [] else Taken(s, actions[0], m) + TakenIn(Step(s, actions[0]), actions[1..], m)
  }

  lemma StepTakes(s: State, a: Action, m: SubId)
    requires Sound(s)
    ensures Everything(Step(s, a), m) == Everything(s, m) + Taken(s, a, m)
  {
    if m in s.subs {
      StepQueues(s, a, m);
      var c := s.subs[m];
      if a == Write(m) && c.msgs != [] {
        assert (c.written + [c.msgs[0]]) + c.msgs[1..] == c.written + c.msgs;
      }
    } else {
      JoinerStarts(s, a, m);
    }
  }

  /** Over a run nothing that entered a channel is lost, repeated or reordered, and nothing else comes out of it. */
  lemma {:induction false} RunTakes(s: State, actions: seq<Action>, m: SubId)
    requires Sound(s)
    ensures Everything(Run(s, actions), m) == Everything(s, m) + TakenIn(s, actions, m)
    decreases |actions|
  {
    if actions != [] {
      var next := Step(s, actions[0]);
      StepSound(s, actions[0]);
      StepTakes(s, actions[0], m);
      RunTakes(next, actions[1..], m);
      Regroup(Everything(s, m), Taken(s, actions[0], m), TakenIn(next, actions[1..], m));
    }
  }

  /** A broadcast or reply for the subscriber finds sixteen messages waiting at step n. */
  predicate Overflows(s: State, actions: seq<Action>, n: nat, m: SubId) {
    && n < |actions|
    && var at := Run(s, actions[..n]);
       SentTo(at, actions[n], m) && m in at.subs && |at.subs[m].msgs| == 16
  }

  lemma OverflowsLater(s: State, actions: seq<Action>, n: nat, m: SubId)
    requires actions != []
    ensures Overflows(s, actions, n + 1, m) <==> Overflows(Step(s, actions[0]), actions[1..], n, m)
  {
    if n + 1 < |actions| {
      assert actions[..n + 1][0] == actions[0] && actions[..n + 1][1..] == actions[1..][..n];
    }
  }

  lemma StepEvicts(s: State, a: Action, m: SubId)
    requires Sound(s)
    ensures Evicting(Step(s, a), m) <==>
            Evicting(s, m) || (SentTo(s, a, m) && m in s.subs && |s.subs[m].msgs| == 16)
  {
    if m in s.subs {
      StepQueues(s, a, m);
    } else {
      JoinerStarts(s, a, m);
    }
  }

  /** A subscriber is dropped exactly if a broadcast or a reply once found its channel full. */
  lemma {:induction false} RunEvictsIff(s: State, actions: seq<Action>, m: SubId)
    requires Sound(s)
    ensures Evicting(Run(s, actions), m) <==> Evicting(s, m) || exists n: nat :: Overflows(s, actions, n, m)
    decreases |actions|
  {
    if actions != [] {
      var next := Step(s, actions[0]);
      StepSound(s, actions[0]);
      StepEvicts(s, actions[0], m);
      RunEvictsIff(next, actions[1..], m);
      assert actions[..0] == [];
      assert Overflows(s, actions, 0, m) <==> SentTo(s, actions[0], m) && m in s.subs && |s.subs[m].msgs| == 16;
      if n: nat :| Overflows(s, actions, n, m) {
        if n > 0 {
          OverflowsLater(s, actions, n - 1, m);
        }
      }
      if n: nat :| Overflows(next, actions[1..], n, m) {
        OverflowsLater(s, actions, n, m);
      }
    }
  }

  /** From the start. */
  lemma DroppedIff(actions: seq<Action>, m: SubId)
    ensures Evicting(Run(EMPTY, actions), m) <==> exists n: nat :: Overflows(EMPTY, actions, n, m)
    ensures Everything(Run(EMPTY, actions), m) == TakenIn(EMPTY, actions, m)
  {
    RunEvictsIff(EMPTY, actions, m);
    RunTakes(EMPTY, actions, m);
    assert [] + TakenIn(EMPTY, actions, m) == TakenIn(EMPTY, actions, m);
  }
}
