/**
 Rooms and message buffers (backend/internal/ws/server.go:286-398). A room is
 one per owner while it has members; a room that was destroyed and created
 again is a different room, so rooms have identities of their own. Each method
 holds the server's mutex and is one step.
 */
module RoomServer {
  import opened Wrappers

  type SubId = nat
  type RoomId = nat

  /** Presence messages (crowd, user_joined, user_left), replies to one client, and broadcasts. */
  datatype Message = Presence(about: SubId) | Direct(body: int) | Broadcast(body: int)

  datatype Room = Room(id: string, members: set<SubId>)

  /** A connection: its room, its channel, what was written to its socket, and whether eviction is scheduled. */
  datatype Subscriber = Subscriber(room: Option<RoomId>, msgs: seq<Message>, written: seq<Message>, evicting: bool)

  const BUFFER := 16

  datatype State = State(
    mapped: map<string, RoomId>, rooms: map<RoomId, Room>, subs: map<SubId, Subscriber>, nextRoom: RoomId)

  const EMPTY := State(map[], map[], map[], 0)

  /** A non-blocking send: dropped when the buffer is full, and then perhaps the subscriber with it. */
  function Offered(sub: Subscriber, msg: Message, evict: bool): Subscriber {
    if |sub.msgs| < BUFFER then sub.(msgs := sub.msgs + [msg])
    else if evict then sub.(evicting := true)
    else sub
  }

  /**
   What a message does to the one it is for. With room in the channel it waits
   behind the others and nothing else changes; with sixteen waiting it is
   dropped, and so is the subscriber before long.
   */
  predicate GotOrEvicted(before: Subscriber, msg: Message, after: Subscriber) {
    && after.room == before.room && after.written == before.written
    && (|before.msgs| < 16 ==> after.msgs == before.msgs + [msg] && after.evicting == before.evicting)
    && (|before.msgs| >= 16 ==> after.msgs == before.msgs && after.evicting)
  }

  function OfferedAll(subs: map<SubId, Subscriber>, to: set<SubId>, msg: Message, evict: bool): map<SubId, Subscriber> {
    map m | m in subs :: if m in to then Offered(subs[m], msg, evict) else subs[m]
  }

  /** The members of a room; a room no one created has none. */
  function Members(s: State, r: RoomId): set<SubId> {
    if r in s.rooms then s.rooms[r].members else {}
  }

  // ----- the steps -----

  /** The room an owner's joiner enters, created on first use. */
  function Entered(s: State, owner: string): (State, RoomId) {
    if owner in s.mapped then (s, s.mapped[owner])
    else
      (State(s.mapped[owner := s.nextRoom], s.rooms[s.nextRoom := Room(owner, {})], s.subs, s.nextRoom + 1),
       s.nextRoom)
  }

  function JoinStep(s: State, owner: string, sub: SubId): State {
    var (s1, r) := Entered(s, owner);
    if r !in s1.rooms then s1
    else
      var peers := s1.rooms[r].members;
      var joiner := Offered(Subscriber(Some(r), [], [], false), Presence(sub), false);
      State(s1.mapped, s1.rooms[r := s1.rooms[r].(members := peers + {sub})],
            OfferedAll(s1.subs[sub := joiner], peers - {sub}, Presence(sub), false), s1.nextRoom)
  }

  function LeaveStep(s: State, sub: SubId): State {
    if sub !in s.subs || s.subs[sub].room.None? || s.subs[sub].room.value !in s.rooms then s
    else
      var r := s.subs[sub].room.value;
      var rest := s.rooms[r].members - {sub};
      var rooms := s.rooms[r := s.rooms[r].(members := rest)];
      if rest == {} then s.(rooms := rooms, mapped := s.mapped - {s.rooms[r].id})
      else s.(rooms := rooms, subs := OfferedAll(s.subs, rest, Presence(sub), false))
  }

  function PublishStep(s: State, r: RoomId, msg: Message, sender: Option<SubId>): State {
    s.(subs := OfferedAll(s.subs, Members(s, r) - SenderOf(sender), msg, true))
  }

  function SenderOf(sender: Option<SubId>): set<SubId> {
    if sender.Some? then {sender.value} else {}
  }

  function SendToStep(s: State, sub: SubId, msg: Message): State {
    s.(subs := OfferedAll(s.subs, {sub}, msg, true))
  }

  /** The writer loop takes one message off the channel and writes it to the socket. */
  function WriteStep(s: State, sub: SubId): State {
    if sub !in s.subs || s.subs[sub].msgs == [] then s
    else
      var c := s.subs[sub];
      s.(subs := s.subs[sub := c.(msgs := c.msgs[1..], written := c.written + [c.msgs[0]])])
  }

  class Server {
    var mapped: map<string, RoomId>
    var rooms: map<RoomId, Room>
    var subs: map<SubId, Subscriber>
    var nextRoom: RoomId

    function Snapshot(): State
      reads this
    {
      State(mapped, rooms, subs, nextRoom)
    }

    constructor ()
      ensures Snapshot() == EMPTY
    {
      mapped, rooms, subs, nextRoom := map[], map[], map[], 0;
    }

    /** A loop over a set of subscribers with one non-blocking send each. */
    method OfferEach(to: set<SubId>, msg: Message, evict: bool)
      requires to <= subs.Keys
      modifies this`subs
      ensures subs == OfferedAll(old(subs), to, msg, evict)
    {
      var todo := to;
      while todo != {}
        invariant todo <= to && subs.Keys == old(subs).Keys
        invariant forall m :: m in subs ==>
          subs[m] == if m in to - todo then Offered(old(subs)[m], msg, evict) else old(subs)[m]
        decreases |todo|
      {
        var m :| m in todo;
        subs := subs[m := Offered(subs[m], msg, evict)];
        todo := todo - {m};
      }
    }

    method Join(owner: string, sub: SubId)
      requires Sound(Snapshot()) && sub !in subs
      modifies this
      ensures Snapshot() == JoinStep(old(Snapshot()), owner, sub)
    {
      if owner !in mapped {
        rooms := rooms[nextRoom := Room(owner, {})];
        mapped := mapped[owner := nextRoom];
        nextRoom := nextRoom + 1;
      }
      var r := mapped[owner];
      var peers := rooms[r].members;
      rooms := rooms[r := rooms[r].(members := peers + {sub})];
      subs := subs[sub := Subscriber(Some(r), [Presence(sub)], [], false)];
      assert [] + [Presence(sub)] == [Presence(sub)];
      OfferEach(peers - {sub}, Presence(sub), false);
    }

    method Leave(sub: SubId)
      requires Sound(Snapshot()) && sub in subs
      modifies this
      ensures Snapshot() == LeaveStep(old(Snapshot()), sub)
    {
      if subs[sub].room.None? {
        return;
      }
      var r := subs[sub].room.value;
      var rest := rooms[r].members - {sub};
      rooms := rooms[r := rooms[r].(members := rest)];
      if rest == {} {
        mapped := mapped - {rooms[r].id};
        return;
      }
      OfferEach(rest, Presence(sub), false);
    }

    method PublishRoom(r: RoomId, msg: Message, sender: Option<SubId>)
      requires Sound(Snapshot()) && r in rooms
      modifies this
      ensures Snapshot() == PublishStep(old(Snapshot()), r, msg, sender)
      ensures mapped == old(mapped) && rooms == old(rooms) && nextRoom == old(nextRoom) && subs.Keys == old(subs).Keys
      ensures forall m :: m in subs ==>
        if m in rooms[r].members && sender != Some(m) then GotOrEvicted(old(subs)[m], msg, subs[m])
        else subs[m] == old(subs)[m]
    {
      OfferEach(rooms[r].members - SenderOf(sender), msg, true);
    }

    method SendTo(sub: SubId, msg: Message)
      requires sub in subs
      modifies this
      ensures Snapshot() == SendToStep(old(Snapshot()), sub, msg)
      ensures mapped == old(mapped) && rooms == old(rooms) && nextRoom == old(nextRoom) && subs.Keys == old(subs).Keys
      ensures GotOrEvicted(old(subs)[sub], msg, subs[sub])
      ensures forall m :: m in subs && m != sub ==> subs[m] == old(subs)[m]
    {
      OfferEach({sub}, msg, true);
    }
  }

  // ----- what every run keeps -----

  /** Mapped rooms exist, are keyed by their own id and are not empty. */
  predicate MappedSound(s: State) {
    forall o :: o in s.mapped ==>
      s.mapped[o] in s.rooms && s.rooms[s.mapped[o]].id == o && s.rooms[s.mapped[o]].members != {}
  }

  /** Members point back to their room. */
  predicate MembersSound(s: State) {
    forall r, m :: r in s.rooms && m in s.rooms[r].members ==> m in s.subs && s.subs[m].room == Some(r)
  }

  /** No channel is over its buffer, and a subscriber's room exists. */
  predicate SubsSound(s: State) {
    forall m :: m in s.subs ==>
      |s.subs[m].msgs| <= BUFFER && (s.subs[m].room.Some? ==> s.subs[m].room.value in s.rooms)
  }

  predicate Sound(s: State) {
    && MappedSound(s)
    && MembersSound(s)
    && SubsSound(s)
    && (forall r :: r in s.rooms ==> r < s.nextRoom)
  }

  datatype Action =
    | Join(owner: string, sub: SubId)
    | Leave(sub: SubId)
    | Publish(r: RoomId, msg: Message, sender: Option<SubId>)
    | SendTo(sub: SubId, msg: Message)
    | Write(sub: SubId)

  function Step(s: State, a: Action): State {
    match a
    case Join(owner, sub) => if sub in s.subs then s else JoinStep(s, owner, sub)
    case Leave(sub) => LeaveStep(s, sub)
    case Publish(r, msg, sender) => PublishStep(s, r, msg, sender)
    case SendTo(sub, msg) => SendToStep(s, sub, msg)
    case Write(sub) => WriteStep(s, sub)
  }

  function Run(s: State, actions: seq<Action>): State
    decreases |actions|
  {
    if actions == [] then s else Run(Step(s, actions[0]), actions[1..])
  }

  lemma EnteredSound(s: State, owner: string)
    requires Sound(s)
    ensures var (s1, r) := Entered(s, owner);
            && r in s1.rooms && s1.rooms[r].id == owner && s1.subs == s.subs
            && Members(s1, r) == Members(s, r)
            && (forall q :: q in s.rooms ==> q in s1.rooms && s1.rooms[q] == s.rooms[q])
            && (forall q :: q in s1.rooms && q != r ==> q in s.rooms)
            && (forall o :: o in s1.mapped && s1.mapped[o] != r ==> o in s.mapped && s1.mapped[o] == s.mapped[o])
            && (forall o :: o in s1.mapped && s1.mapped[o] == r ==> o == owner)
            && (forall q :: q in s1.rooms ==> q < s1.nextRoom)
  {
  }

  lemma JoinedMembers(s: State, owner: string, sub: SubId)
    requires Sound(s) && sub !in s.subs
    ensures var r := Entered(s, owner).1; Members(JoinStep(s, owner, sub), r) == Members(s, r) + {sub}
    ensures MembersSound(JoinStep(s, owner, sub))
  {
    EnteredSound(s, owner);
    assert forall r :: r in s.rooms ==> sub !in s.rooms[r].members;
  }

  lemma JoinedSubs(s: State, owner: string, sub: SubId)
    requires Sound(s) && sub !in s.subs
    ensures SubsSound(JoinStep(s, owner, sub))
  {
    EnteredSound(s, owner);
  }

  lemma JoinSound(s: State, owner: string, sub: SubId)
    requires Sound(s) && sub !in s.subs
    ensures Sound(JoinStep(s, owner, sub))
    ensures var r := Entered(s, owner).1; Members(JoinStep(s, owner, sub), r) == Members(s, r) + {sub}
  {
    EnteredSound(s, owner);
    JoinedMembers(s, owner, sub);
    JoinedSubs(s, owner, sub);
  }

  lemma LeaveSound(s: State, sub: SubId)
    requires Sound(s)
    ensures Sound(LeaveStep(s, sub))
  {
  }

  /** Who is in a room after a step: its members, with the one that joined it and without the one that left it. */
  lemma StepMembers(s: State, a: Action, r: RoomId)
    requires Sound(s)
    ensures Members(Step(s, a), r) ==
            if a.Join? && a.sub !in s.subs && Step(s, a).mapped[a.owner] == r then Members(s, r) + {a.sub}
            else if a.Leave? && a.sub in s.subs && s.subs[a.sub].room == Some(r) then Members(s, r) - {a.sub}
            else Members(s, r)
    ensures a.Join? && a.sub !in s.subs && a.owner in s.mapped ==> Step(s, a).mapped[a.owner] == s.mapped[a.owner]
  {
    if a.Join? && a.sub !in s.subs {
      EnteredSound(s, a.owner);
    }
  }

  lemma StepSound(s: State, a: Action)
    requires Sound(s)
    ensures Sound(Step(s, a))
  {
    match a
    case Join(owner, sub) =>
      if sub !in s.subs {
        JoinSound(s, owner, sub);
      }
    case Leave(sub) => LeaveSound(s, sub);
    case _ =>
  }

  /** Every run keeps the rooms sound, even when a subscriber leaves twice. */
  lemma {:induction false} RunSound(s: State, actions: seq<Action>)
    requires Sound(s)
    ensures Sound(Run(s, actions))
    decreases |actions|
  {
    if actions != [] {
      StepSound(s, actions[0]);
      RunSound(Step(s, actions[0]), actions[1..]);
    }
  }

  // ----- one room per owner -----

  /** Every room that has members is the one mapped for its owner. */
  predicate AllMapped(s: State) {
    forall r :: r in s.rooms && s.rooms[r].members != {} ==>
      s.rooms[r].id in s.mapped && s.mapped[s.rooms[r].id] == r
  }

  /** The leave, if it empties its room, does not find another room mapped for the owner. */
  predicate Harmless(s: State, sub: SubId) {
    sub in s.subs && s.subs[sub].room.Some? && s.subs[sub].room.value in s.rooms ==>
      var r := s.subs[sub].room.value;
      !(Members(s, r) <= {sub}) || s.rooms[r].id !in s.mapped || s.mapped[s.rooms[r].id] == r
  }

  lemma LeaveAllMappedIff(s: State, sub: SubId)
    requires Sound(s) && AllMapped(s)
    ensures AllMapped(LeaveStep(s, sub)) <==> Harmless(s, sub)
  {
    if sub in s.subs && s.subs[sub].room.Some? {
      var r := s.subs[sub].room.value;
      var s' := LeaveStep(s, sub);
      assert s.rooms[r].members - {sub} == {} <==> Members(s, r) <= {sub};
      if !Harmless(s, sub) {
        var other := s.mapped[s.rooms[r].id];
        assert s'.rooms[other] == s.rooms[other] && s'.rooms[other].id !in s'.mapped;
      }
    }
  }

  /** A step keeps all rooms with members mapped exactly when it is not a harmful leave. */
  lemma StepAllMappedIff(s: State, a: Action)
    requires Sound(s) && AllMapped(s)
    ensures AllMapped(Step(s, a)) <==> (a.Leave? ==> Harmless(s, a.sub))
  {
    match a
    case Join(owner, sub) =>
    case Leave(sub) => LeaveAllMappedIff(s, sub);
    case _ =>
  }

  predicate HarmlessLeaves(s: State, actions: seq<Action>)
    decreases |actions|
  {
    actions != [] ==>
      && (actions[0].Leave? ==> Harmless(s, actions[0].sub))
      && HarmlessLeaves(Step(s, actions[0]), actions[1..])
  }

  /** In every state that the run goes through. */
  predicate AlwaysAllMapped(s: State, actions: seq<Action>)
    decreases |actions|
  {
    AllMapped(s) && (actions != [] ==> AlwaysAllMapped(Step(s, actions[0]), actions[1..]))
  }

  /** The mapped rooms are those with members throughout a run exactly when each of its leaves is harmless. */
  lemma {:induction false} RunAllMapped(s: State, actions: seq<Action>)
    requires Sound(s) && AllMapped(s)
    ensures AlwaysAllMapped(s, actions) <==> HarmlessLeaves(s, actions)
    ensures HarmlessLeaves(s, actions) ==> Sound(Run(s, actions)) && AllMapped(Run(s, actions))
    decreases |actions|
  {
    if actions != [] {
      var next := Step(s, actions[0]);
      StepSound(s, actions[0]);
      StepAllMappedIff(s, actions[0]);
      if AllMapped(next) {
        RunAllMapped(next, actions[1..]);
      } else {
        assert !AlwaysAllMapped(next, actions[1..]);
      }
    }
  }

  /** If no leave is harmful, all members of one owner share one room. */
  lemma OneRoomPerOwner(actions: seq<Action>, r1: RoomId, r2: RoomId)
    requires HarmlessLeaves(EMPTY, actions)
    requires var s := Run(EMPTY, actions);
             && Members(s, r1) != {} && Members(s, r2) != {} && s.rooms[r1].id == s.rooms[r2].id
    ensures r1 == r2
  {
    RunAllMapped(EMPTY, actions);
  }

  /** The subscriber is still in its room, so this is its first leave. */
  predicate StillIn(s: State, sub: SubId) {
    sub in s.subs && s.subs[sub].room.Some? && sub in Members(s, s.subs[sub].room.value)
  }

  predicate LeavesOnce(s: State, actions: seq<Action>)
    decreases |actions|
  {
    actions != [] ==>
      && (actions[0].Leave? ==> StillIn(s, actions[0].sub))
      && LeavesOnce(Step(s, actions[0]), actions[1..])
  }

  /** First leaves are harmless, so only a late second one can do harm. */
  lemma {:induction false} LeavingOnceIsHarmless(s: State, actions: seq<Action>)
    requires Sound(s) && AllMapped(s) && LeavesOnce(s, actions)
    ensures HarmlessLeaves(s, actions)
    decreases |actions|
  {
    if actions != [] {
      StepSound(s, actions[0]);
      StepAllMappedIff(s, actions[0]);
      LeavingOnceIsHarmless(Step(s, actions[0]), actions[1..]);
    }
  }

  /** A joiner whose owner has no mapped room opens a new one. */
  lemma JoinOpens(s: State, owner: string, sub: SubId)
    requires Sound(s) && owner !in s.mapped && sub !in s.subs
    ensures var s' := JoinStep(s, owner, sub);
            && Sound(s') && s'.mapped == s.mapped[owner := s.nextRoom]
            && Members(s', s.nextRoom) == {sub} && s'.rooms[s.nextRoom].id == owner
            && s'.nextRoom == s.nextRoom + 1 && s'.subs.Keys == s.subs.Keys + {sub}
            && (forall r :: r in s.rooms ==> r in s'.rooms && s'.rooms[r] == s.rooms[r])
            && s'.subs[sub].room == Some(s.nextRoom)
            && (forall m :: m in s.subs ==> s'.subs[m] == s.subs[m])
  {
    JoinSound(s, owner, sub);
    assert s.nextRoom !in s.rooms;
  }

  /** A leave that finds or makes its room empty unmaps whatever room its owner has now. */
  lemma LeaveUnmaps(s: State, sub: SubId, r: RoomId)
    requires Sound(s) && sub in s.subs && s.subs[sub].room == Some(r) && Members(s, r) <= {sub}
    ensures var s' := LeaveStep(s, sub);
            && Sound(s') && s'.mapped == s.mapped - {s.rooms[r].id} && s'.subs == s.subs && s'.nextRoom == s.nextRoom
            && s'.rooms == s.rooms[r := s.rooms[r].(members := {})]
  {
    LeaveSound(s, sub);
    assert s.rooms[r].members - {sub} == {};
  }

  /**
   An evicted subscriber is left twice, by the eviction and by its handler's
   deferred call. If its room was destroyed and created again in between, the
   second leave unmaps the new room, and the next joiner is on its own.
   */
  lemma LateLeaveSplitsRoom(s: State, owner: string, a: SubId, b: SubId, c: SubId)
    requires Sound(s) && owner !in s.mapped && a !in s.subs && b !in s.subs && c !in s.subs
    requires a != b && b != c && a != c
    ensures var s3 := Step(Step(Step(s, Join(owner, a)), Leave(a)), Join(owner, b));
            var s5 := Step(Step(s3, Leave(a)), Join(owner, c));
            && owner in s3.mapped && owner in s5.mapped
            && b in Members(s3, s3.mapped[owner]) && b in Members(s5, s3.mapped[owner])
            && Members(s5, s5.mapped[owner]) == {c}
  {
    var n := s.nextRoom;
    var s1 := Step(s, Join(owner, a));
    JoinOpens(s, owner, a);
    var s2 := Step(s1, Leave(a));
    LeaveUnmaps(s1, a, n);
    var s3 := Step(s2, Join(owner, b));
    JoinOpens(s2, owner, b);
    var s4 := Step(s3, Leave(a));
    assert s3.subs[a].room == Some(n) && Members(s3, n) == {};
    LeaveUnmaps(s3, a, n);
    JoinOpens(s4, owner, c);
  }
}
