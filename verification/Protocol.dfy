/**
 Collaborative editing of one chapter: the editor changes its own tree at once,
 the server applies the message and fans it out, and every other client applies
 the broadcasts in the order they arrive (frontend/src/store/state.ts,
 frontend/src/hooks/useWebsocket.ts, backend/internal/ws/dispatch.go).

 An editor must have drained its own queue, and the server handles an edit, and
 a reload it answers with, before the next edit. Other clients may lag behind.
 A client whose buffer overflowed or whose connection closed is lost: nothing is
 claimed of it until it connects again, which fetches nothing by itself.
 */
module Protocol {
  import opened Wrappers
  import opened Paths
  import opened MoveTree
  import opened PathTable
  import opened ChapterRows
  import opened Messages
  import opened Dispatch
  import opened HeldNodes
  import ClientChapter

  datatype Peer = Peer(username: string, root: Tree, inbox: seq<Message>, lost: bool)

  datatype State = State(rows: Rows, peers: seq<Peer>)

  /**
   The optimistic edit. A new move and a card go to the node that the store
   action holds, wherever the message says it is; deletes and comments go to the
   node that `nodeAtPath` finds.
   */
  function Local(t: Tree, h: Held, m: Message): Tree {
    match m
    case MoveCreated(_, move) => PushedTree(t, h, move)
    case NodeDeleted(path) => DeleteNodeAt(t, path)
    case CommentSet(path, text) => UpdateNearest(t, path, Writing(Commenting(text)))
    case TrainingUpdated(_, user, card) => CardedTree(t, h, user, card)
  }

  /** A broadcast applied by another client. */
  function Remote(t: Tree, m: Message): Tree {
    match m
    case MoveCreated(path, move) => UpdateAt(t, path, Pushing(Node(move, [])))
    case NodeDeleted(path) => DeleteNodeAt(t, path)
    case CommentSet(path, text) => UpdateNearest(t, path, Writing(Commenting(text)))
    case TrainingUpdated(path, user, card) => UpdateNearest(t, path, Writing(Carding(user, card)))
  }

  /** These are the trees that the store's actions leave behind. */
  lemma StoreActionsMatch(c: ClientChapter.Client, h: Held, m: Message, username: string)
    ensures match m
      case MoveCreated(path, move) =>
        && Local(c.root, h, m) == MadeAt(c, h, move).root
        && (Reaches(c.root, path) ==>
             Remote(c.root, m) == ClientChapter.Added(c, path, move, Some(username)).value.root)
      case NodeDeleted(path) =>
        Local(c.root, h, m) == Remote(c.root, m) == ClientChapter.Deleted(c, path, Some(username)).root
      case CommentSet(path, text) =>
        Local(c.root, h, m) == Remote(c.root, m) == ClientChapter.Commented(c, path, text).root
      case TrainingUpdated(path, user, card) =>
        && Local(c.root, h, m) == LearnedAt(c, h, user, card).root
        && Local(c.root, h, m) == TrainedAt(c, h, user, card).root
        && Remote(c.root, m) == ClientChapter.Carded(c, path, user, card).root
  {
  }

  /** The tree a client holds once it has applied everything in its queue. */
  function CatchUp(t: Tree, inbox: seq<Message>): Tree
    decreases |inbox|
  {
    if inbox == [] then t else CatchUp(Remote(t, inbox[0]), inbox[1..])
  }

  /** The tree and the server say the same. */
  predicate Agrees(t: Tree, rows: Rows) {
    WellFormed(t) && Flatten(t) == Joined(rows)
  }

  /** What a client fetches over HTTP: the joined rows, rebuilt in some order. */
  function Fetched(rows: Rows, order: seq<string>): Tree
    requires Consistent(rows) && SortedKeys(Joined(rows), order)
  {
    Rebuild(Joined(rows), order, "")
  }

  /**
   What the UI sends: comments within the limit, cards under the sender's own
   name, and moves with a two-character id and without cards.
   */
  predicate Authored(m: Message, username: string) {
    match m
    case MoveCreated(_, move) => |move.id| == 2 && move.training == map[]
    case NodeDeleted(_) => true
    case CommentSet(_, text) => |text| <= MAX_COMMENT_CHARS
    case TrainingUpdated(_, user, _) => user == username
  }

  lemma AuthoredUnchanged(m: Message, username: string)
    requires Authored(m, username)
    ensures Canonical(m, username) == m
  {
  }

  /**
   An edit names the node that the store action works on, and `full` holds the
   clients whose buffers are full when the server answers it. `Offline` is an
   action of a client that is not connected, so that nothing is sent.
   */
  datatype Step =
    | Edit(i: nat, h: Held, m: Message, order: seq<string>, full: set<nat>)
    | Deliver(j: nat)
    | Join(username: string, order: seq<string>)
    | Lose(j: nat)
    | Offline(j: nat, h: Held, m: Message)
    | Rejoin(j: nat)

  ghost predicate Enabled(s: State, step: Step) {
    match step
    case Edit(i, h, m, order, _) =>
      && i < |s.peers| && s.peers[i].inbox == [] && !s.peers[i].lost
      && Holding(s.peers[i].root, h).Some? && Authored(m, s.peers[i].username)
      && Consistent(s.rows) && SortedKeys(Joined(s.rows), order)
    case Deliver(j) => j < |s.peers| && s.peers[j].inbox != []
    case Join(_, order) => Consistent(s.rows) && SortedKeys(Joined(s.rows), order)
    case Lose(j) => j < |s.peers|
    case Offline(j, _, _) => j < |s.peers| && s.peers[j].lost
    case Rejoin(j) => j < |s.peers| && s.peers[j].lost
  }

  /** The non-blocking send of a broadcast. */
  function Offer(p: Peer, m: Message, full: bool): Peer {
    if full then p.(lost := true) else p.(inbox := p.inbox + [m])
  }

  ghost function Execute(s: State, step: Step, cap: nat): State
    requires Enabled(s, step)
  {
    match step
    case Edit(i, h, m, order, full) =>
      var p := s.peers[i];
      (match Handle(s.rows, m, p.username, cap)
       case Broadcast(rows', event) =>
         State(rows', seq(|s.peers|, j requires 0 <= j < |s.peers| =>
           if j == i then p.(root := Local(p.root, h, m)) else Offer(s.peers[j], event, j in full)))
       case ReloadSender =>
         s.(peers := s.peers[i := if i in full then p.(lost := true) else p.(root := Fetched(s.rows, order))]))
    case Deliver(j) =>
      var p := s.peers[j];
      s.(peers := s.peers[j := p.(root := Remote(p.root, p.inbox[0]), inbox := p.inbox[1..])])
    case Join(username, order) =>
      s.(peers := s.peers + [Peer(username, Fetched(s.rows, order), [], false)])
    case Lose(j) => s.(peers := s.peers[j := s.peers[j].(lost := true)])
    case Offline(j, h, m) => s.(peers := s.peers[j := s.peers[j].(root := Local(s.peers[j].root, h, m))])
    case Rejoin(j) => s.(peers := s.peers[j := s.peers[j].(inbox := [], lost := false)])
  }

  // ----- one message -----

  lemma AgreesView(t: Tree, rows: Rows, q: string)
    requires Agrees(t, rows)
    ensures View(t, q) == Find(Joined(rows), q)
  {
    FlattenView(t, q);
  }

  lemma ViewsAgree(t: Tree, rows: Rows)
    requires WellFormed(t) && forall q :: View(t, q) == Find(Joined(rows), q)
    ensures Agrees(t, rows)
  {
    FlattenIsView(t, Joined(rows));
  }

  lemma LeafView(move: MoveData, r: string)
    ensures View(Node(move, []), r) == if r == "" then Some(move) else None
  {
  }

  lemma JoinedUpsert(rows: Rows, path: string, move: MoveData, q: string)
    requires Consistent(rows) && move.training == map[] && path + move.id !in rows.moves
    ensures Find(Joined(Upsert(rows, path, move)), q) ==
            if q == path + move.id then Some(move) else Find(Joined(rows), q)
  {
  }

  /** The pushed leaf shows at its own path only. */
  lemma ViewPushLeaf(t: Tree, path: string, move: MoveData, q: string)
    requires WellFormed(t) && Reaches(t, path) && |move.id| == 2 && !Reaches(t, path + move.id)
    ensures View(UpdateAt(t, path, Pushing(Node(move, []))), q) ==
            if q == path + move.id then Some(move) else View(t, q)
  {
    ViewPush(t, path, Node(move, []), q);
    assert Whole(path + move.id) by {
      ReachesWhole(t, path);
      WholeAppend(path, move.id);
    }
    LeafBelow(t, path + move.id, move, q);
  }

  lemma LeafBelow(t: Tree, p: string, move: MoveData, q: string)
    requires Whole(p) && !Reaches(t, p)
    ensures p <= q ==> View(t, q) == None
    ensures p <= q ==> View(Node(move, []), q[|p|..]) == if q == p then Some(move) else None
  {
    if p <= q {
      LeafView(move, q[|p|..]);
      NothingBelowMissing(t, p, q);
      assert q == p + q[|p|..];
    }
  }

  lemma NothingBelowMissing(t: Tree, p: string, q: string)
    requires Whole(p) && !Reaches(t, p) && p <= q
    ensures View(t, q) == None
  {
    if Reaches(t, q) {
      ReachesPrefix(t, p, q);
    }
  }

  lemma CreateAgrees(t: Tree, rows: Rows, path: string, move: MoveData)
    requires Consistent(rows) && Agrees(t, rows)
    requires |move.id| == 2 && move.training == map[] && path in rows.moves && !Reaches(t, path + move.id)
    ensures Reaches(t, path)
    ensures Agrees(UpdateAt(t, path, Pushing(Node(move, []))), Upsert(rows, path, move))
  {
    AgreesView(t, rows, path);
    AgreesView(t, rows, path + move.id);
    PushWellFormed(t, path, Node(move, []));
    forall q
      ensures View(UpdateAt(t, path, Pushing(Node(move, []))), q) == Find(Joined(Upsert(rows, path, move)), q)
    {
      ViewPushLeaf(t, path, move, q);
      AgreesView(t, rows, q);
      JoinedUpsert(rows, path, move, q);
    }
    ViewsAgree(UpdateAt(t, path, Pushing(Node(move, []))), Upsert(rows, path, move));
  }

  lemma DeleteAgrees(t: Tree, rows: Rows, path: string)
    requires Consistent(rows) && Agrees(t, rows) && DeleteNode(rows, path).Stored?
    ensures Agrees(DeleteNodeAt(t, path), DeleteNode(rows, path).rows)
  {
    var t', rows' := DeleteNodeAt(t, path), DeleteNode(rows, path).rows;
    DeleteWellFormed(t, path);
    if path == "" {
      DeleteRootIsNothing(t);
    } else {
      AgreesView(t, rows, path);
      DeletedConsistent(rows, path);
      forall q
        ensures View(t', q) == Find(Joined(rows'), q)
      {
        ViewDelete(t, path, q);
        AgreesView(t, rows, q);
      }
      ViewsAgree(t', rows');
    }
  }

  /** No child has an empty id, so deleting the root's path removes nothing. */
  lemma DeleteRootIsNothing(t: Tree)
    requires WellFormed(t)
    ensures DeleteNodeAt(t, "") == t
  {
    WithoutAbsent(t.children, "");
  }

  lemma {:induction false} WithoutAbsent(kids: seq<Tree>, id: string)
    requires forall i :: 0 <= i < |kids| ==> kids[i].data.id != id
    ensures Without(kids, id) == kids
  {
    if kids != [] {
      WithoutAbsent(kids[1..], id);
    }
  }

  lemma JoinedComment(rows: Rows, path: string, text: string, q: string)
    requires path in rows.moves
    ensures Find(Joined(SetComment(rows, path, text).rows), q) ==
            if q == path then Some(Commenting(text)(Joined(rows)[path])) else Find(Joined(rows), q)
  {
  }

  lemma JoinedCard(rows: Rows, path: string, user: string, card: Card, q: string)
    requires path in rows.moves
    ensures Find(Joined(UpdateTraining(rows, path, user, card).rows), q) ==
            if q == path then Some(Carding(user, card)(Joined(rows)[path])) else Find(Joined(rows), q)
  {
  }

  lemma {:induction false} CommentAgrees(t: Tree, rows: Rows, path: string, text: string)
    requires Consistent(rows) && Agrees(t, rows) && path in rows.moves
    ensures Reaches(t, path)
    ensures Agrees(UpdateAt(t, path, Writing(Commenting(text))), SetComment(rows, path, text).rows)
  {
    AgreesView(t, rows, path);
    ViewWrite(t, path, Commenting(text), "");
    forall q
      ensures View(UpdateAt(t, path, Writing(Commenting(text))), q) ==
              Find(Joined(SetComment(rows, path, text).rows), q)
    {
      ViewWrite(t, path, Commenting(text), q);
      AgreesView(t, rows, q);
      JoinedComment(rows, path, text, q);
    }
    ViewsAgree(UpdateAt(t, path, Writing(Commenting(text))), SetComment(rows, path, text).rows);
  }

  lemma CardAgrees(t: Tree, rows: Rows, path: string, user: string, card: Card)
    requires Consistent(rows) && Agrees(t, rows) && path in rows.moves
    ensures Reaches(t, path)
    ensures Agrees(UpdateAt(t, path, Writing(Carding(user, card))), UpdateTraining(rows, path, user, card).rows)
  {
    AgreesView(t, rows, path);
    ViewWrite(t, path, Carding(user, card), "");
    forall q
      ensures View(UpdateAt(t, path, Writing(Carding(user, card))), q) ==
              Find(Joined(UpdateTraining(rows, path, user, card).rows), q)
    {
      ViewWrite(t, path, Carding(user, card), q);
      AgreesView(t, rows, q);
      JoinedCard(rows, path, user, card, q);
    }
    ViewsAgree(UpdateAt(t, path, Writing(Carding(user, card))), UpdateTraining(rows, path, user, card).rows);
  }

  // ----- when an edit leaves agreement behind -----

  predicate HasCard(rows: Rows, path: string, user: string, card: Card) {
    user in CardsAt(rows.cards, path) && CardsAt(rows.cards, path)[user] == card
  }

  /**
   The sender's own change is the one that its accepted message describes. A new
   move must have been pushed at the very path in the message, and be new there;
   on a node that has left the tree it must be a move the server has already. A
   card must have gone to that path, or change nothing.
   */
  predicate LandsRight(rows: Rows, h: Held, m: Message) {
    match m
    case MoveCreated(path, move) =>
      (match h
       case InTree(at) => at == path && path + move.id !in rows.moves
       case Loose(_) => path + move.id in rows.moves && rows.moves[path + move.id] == RowOf(move))
    case TrainingUpdated(path, user, card) =>
      (match h
       case InTree(at) => at == path || (HasCard(rows, at, user, card) && HasCard(rows, path, user, card))
       case Loose(_) => HasCard(rows, path, user, card))
    case _ => true
  }

  /** The others' change is, too: they push every move they are sent. */
  predicate NewToAll(rows: Rows, m: Message) {
    m.MoveCreated? ==> m.path + m.move.id !in rows.moves
  }

  /** A move pushed at one place and stored under another path. */
  lemma PushedAgreesIff(t: Tree, rows: Rows, at: string, path: string, move: MoveData)
    requires Consistent(rows) && Agrees(t, rows) && Reaches(t, at)
    requires |move.id| == 2 && move.training == map[] && path in rows.moves
    ensures Agrees(UpdateAt(t, at, Pushing(Node(move, []))), Upsert(rows, path, move)) <==>
            at == path && path + move.id !in rows.moves
  {
    var t', rows' := UpdateAt(t, at, Pushing(Node(move, []))), Upsert(rows, path, move);
    AgreesView(t, rows, at + move.id);
    if Reaches(t, at + move.id) {
      DuplicateNotWellFormed(t, at, move);
    } else if at == path {
      CreateAgrees(t, rows, path, move);
    } else {
      AgreesView(t, rows, at);
      assert Whole(at) by { ReachesWhole(t, at); }
      InitLastOf(at, move.id);
      InitLastOf(path, move.id);
      assert at + move.id != path + move.id;
      ViewPushLeaf(t, at, move, at + move.id);
      if Agrees(t', rows') {
        AgreesView(t', rows', at + move.id);
      }
    }
  }

  /** A move pushed to a node that has left the tree, but accepted by the server. */
  lemma LoosePushAgreesIff(t: Tree, rows: Rows, path: string, move: MoveData)
    requires Consistent(rows) && Agrees(t, rows) && |move.id| == 2 && path in rows.moves
    ensures Agrees(t, Upsert(rows, path, move)) <==>
            path + move.id in rows.moves && rows.moves[path + move.id] == RowOf(move)
  {
    var p, rows' := path + move.id, Upsert(rows, path, move);
    UpsertSameIff(rows, path, move);
    AgreesView(t, rows, p);
    if p in rows.moves && rows.moves[p] == RowOf(move) {
      assert rows'.moves == rows.moves;
    } else if Agrees(t, rows') {
      AgreesView(t, rows', p);
    }
  }

  lemma UpsertSameIff(rows: Rows, path: string, move: MoveData)
    requires Consistent(rows)
    ensures var p := path + move.id;
            Find(Joined(Upsert(rows, path, move)), p) == Find(Joined(rows), p) <==>
            p in rows.moves && rows.moves[p] == RowOf(move)
  {
    var p, cards := path + move.id, CardsAt(rows.cards, path + move.id);
    assert Joined(Upsert(rows, path, move))[p] == RowOf(move).(training := cards);
    if p in rows.moves {
      assert Joined(rows)[p] == rows.moves[p].(training := cards);
      assert rows.moves[p] == Joined(rows)[p].(training := map[]);
    }
  }

  /** Putting on a card that is there already. */
  lemma CardThereIff(rows: Rows, p: string, user: string, card: Card)
    requires p in rows.moves
    ensures Carding(user, card)(Joined(rows)[p]) == Joined(rows)[p] <==> HasCard(rows, p, user, card)
  {
    var cards := CardsAt(rows.cards, p);
    assert cards[user := card] == cards <==> user in cards && cards[user] == card;
  }

  /** A card put on one node and stored under another path. */
  lemma CardedAgreesIff(t: Tree, rows: Rows, h: Held, path: string, user: string, card: Card)
    requires Consistent(rows) && Agrees(t, rows) && Holding(t, h).Some? && path in rows.moves
    ensures Agrees(CardedTree(t, h, user, card), UpdateTraining(rows, path, user, card).rows) <==>
            LandsRight(rows, h, TrainingUpdated(path, user, card))
  {
    AgreesView(t, rows, path);
    CardThereIff(rows, path, user, card);
    match h
    case Loose(_) => UntouchedAgreesIff(t, rows, path, user, card);
    case InTree(at) =>
      if at == path {
        CardAgrees(t, rows, path, user, card);
      } else {
        AgreesView(t, rows, at);
        CardThereIff(rows, at, user, card);
        MisplacedCardIff(t, rows, at, path, user, card);
      }
  }

  lemma UntouchedAgreesIff(t: Tree, rows: Rows, path: string, user: string, card: Card)
    requires Agrees(t, rows) && path in rows.moves
    ensures Agrees(t, UpdateTraining(rows, path, user, card).rows) <==> HasCard(rows, path, user, card)
  {
    var rows' := UpdateTraining(rows, path, user, card).rows;
    CardThereIff(rows, path, user, card);
    AgreesView(t, rows, path);
    JoinedCard(rows, path, user, card, path);
    if Agrees(t, rows') {
      AgreesView(t, rows', path);
    } else if HasCard(rows, path, user, card) {
      forall q
        ensures View(t, q) == Find(Joined(rows'), q)
      {
        AgreesView(t, rows, q);
        JoinedCard(rows, path, user, card, q);
      }
      ViewsAgree(t, rows');
    }
  }

  lemma MisplacedCardIff(t: Tree, rows: Rows, at: string, path: string, user: string, card: Card)
    requires Agrees(t, rows) && path in rows.moves && at in rows.moves && Reaches(t, at) && at != path
    ensures Agrees(UpdateAt(t, at, Writing(Carding(user, card))), UpdateTraining(rows, path, user, card).rows) <==>
            HasCard(rows, at, user, card) && HasCard(rows, path, user, card)
  {
    var t', rows' := UpdateAt(t, at, Writing(Carding(user, card))), UpdateTraining(rows, path, user, card).rows;
    CardThereIff(rows, at, user, card);
    CardThereIff(rows, path, user, card);
    MisplacedViews(t, rows, at, path, user, card, at);
    MisplacedViews(t, rows, at, path, user, card, path);
    if Agrees(t', rows') {
      AgreesView(t', rows', at);
      AgreesView(t', rows', path);
    } else if HasCard(rows, at, user, card) && HasCard(rows, path, user, card) {
      forall q
        ensures View(t', q) == Find(Joined(rows'), q)
      {
        MisplacedViews(t, rows, at, path, user, card, q);
      }
      ViewsAgree(t', rows');
    }
  }

  lemma MisplacedViews(t: Tree, rows: Rows, at: string, path: string, user: string, card: Card, q: string)
    requires Agrees(t, rows) && path in rows.moves && at in rows.moves && Reaches(t, at)
    ensures var t' := UpdateAt(t, at, Writing(Carding(user, card)));
            && WellFormed(t')
            && View(t', q) == if q == at then Some(Carding(user, card)(Joined(rows)[at])) else Find(Joined(rows), q)
    ensures Find(Joined(UpdateTraining(rows, path, user, card).rows), q) ==
            if q == path then Some(Carding(user, card)(Joined(rows)[path])) else Find(Joined(rows), q)
  {
    AgreesView(t, rows, at);
    AgreesView(t, rows, q);
    ViewWrite(t, at, Carding(user, card), q);
    JoinedCard(rows, path, user, card, q);
  }

  lemma AcceptedRow(rows: Rows, m: Message, username: string, cap: nat)
    requires Consistent(rows) && Authored(m, username) && Handle(rows, m, username, cap).Broadcast?
    ensures Handle(rows, m, username, cap).message == m
    ensures Consistent(Handle(rows, m, username, cap).rows)
    ensures m.NodeDeleted? || m.path in rows.moves
  {
    AuthoredUnchanged(m, username);
    StepConsistent(rows, OpOf(m), cap);
  }

  lemma HandleStored(rows: Rows, m: Message, username: string, cap: nat)
    requires Authored(m, username) && Apply(rows, OpOf(m), cap).Stored?
    ensures Handle(rows, m, username, cap) == Broadcast(Apply(rows, OpOf(m), cap).rows, m)
  {
    AuthoredUnchanged(m, username);
  }

  /** A message that the store refuses is broadcast to nobody and answered by a reload. */
  lemma RefusedReloads(rows: Rows, m: Message, username: string, cap: nat)
    requires Authored(m, username)
    ensures Handle(rows, m, username, cap) == ReloadSender <==> Apply(rows, OpOf(m), cap).Refused?
  {
    AuthoredUnchanged(m, username);
  }

  lemma SenderAgreesIff(t: Tree, rows: Rows, h: Held, m: Message, username: string, cap: nat)
    requires Consistent(rows) && Agrees(t, rows) && Holding(t, h).Some? && Authored(m, username)
    requires Apply(rows, OpOf(m), cap).Stored?
    ensures Agrees(Local(t, h, m), Apply(rows, OpOf(m), cap).rows) <==> LandsRight(rows, h, m)
  {
    match m
    case MoveCreated(path, move) => CreatedAgreesIff(t, rows, h, path, move);
    case NodeDeleted(path) => DeleteAgrees(t, rows, path);
    case CommentSet(path, text) => CommentedNearest(t, rows, path, text);
    case TrainingUpdated(path, user, card) => CardedAgreesIff(t, rows, h, path, user, card);
  }

  /** Whatever a client sends, the server acts on a message that the UI could have sent for the session's user. */
  lemma HandledAsAuthored(rows: Rows, m: Message, username: string, cap: nat)
    requires m.MoveCreated? ==> |m.move.id| == 2 && m.move.training == map[]
    ensures Authored(Canonical(m, username), username)
    ensures Handle(rows, m, username, cap) == Handle(rows, Canonical(m, username), username, cap)
  {
    CanonicalForm(m, username);
    AuthoredUnchanged(Canonical(m, username), username);
  }

  /** An accepted message leaves the sender in agreement exactly when its own change lands right. */
  lemma LocalAgreesIff(t: Tree, rows: Rows, h: Held, m: Message, username: string, cap: nat)
    requires Consistent(rows) && Agrees(t, rows) && Holding(t, h).Some? && Authored(m, username)
    requires Handle(rows, m, username, cap).Broadcast?
    ensures Agrees(Local(t, h, m), Handle(rows, m, username, cap).rows) <==> LandsRight(rows, h, m)
  {
    AuthoredUnchanged(m, username);
    HandleStored(rows, m, username, cap);
    SenderAgreesIff(t, rows, h, m, username, cap);
  }

  lemma CreatedAgreesIff(t: Tree, rows: Rows, h: Held, path: string, move: MoveData)
    requires Consistent(rows) && Agrees(t, rows) && Holding(t, h).Some?
    requires |move.id| == 2 && move.training == map[] && path in rows.moves
    ensures Agrees(PushedTree(t, h, move), Upsert(rows, path, move)) <==>
            LandsRight(rows, h, MoveCreated(path, move))
  {
    if h.InTree? {
      PushedAgreesIff(t, rows, h.path, path, move);
    } else {
      LoosePushAgreesIff(t, rows, path, move);
    }
  }

  lemma CommentedNearest(t: Tree, rows: Rows, path: string, text: string)
    requires Consistent(rows) && Agrees(t, rows) && path in rows.moves
    ensures Agrees(UpdateNearest(t, path, Writing(Commenting(text))), SetComment(rows, path, text).rows)
  {
    CommentAgrees(t, rows, path, text);
    NodeAtPathReached(t, path);
  }

  lemma ReceiverAgreesIff(t: Tree, rows: Rows, m: Message, username: string, cap: nat)
    requires Consistent(rows) && Agrees(t, rows) && Authored(m, username)
    requires Apply(rows, OpOf(m), cap).Stored?
    ensures Agrees(Remote(t, m), Apply(rows, OpOf(m), cap).rows) <==> NewToAll(rows, m)
  {
    AgreesView(t, rows, m.path);
    match m
    case MoveCreated(path, move) => PushedAgreesIff(t, rows, path, path, move);
    case NodeDeleted(path) => DeleteAgrees(t, rows, path);
    case CommentSet(path, text) => CommentedNearest(t, rows, path, text);
    case TrainingUpdated(path, user, card) => CardedNearest(t, rows, path, user, card);
  }

  lemma CardedNearest(t: Tree, rows: Rows, path: string, user: string, card: Card)
    requires Consistent(rows) && Agrees(t, rows) && path in rows.moves
    ensures Agrees(UpdateNearest(t, path, Writing(Carding(user, card))), UpdateTraining(rows, path, user, card).rows)
  {
    CardAgrees(t, rows, path, user, card);
    NodeAtPathReached(t, path);
  }

  /** An accepted message leaves another client in agreement exactly when it is not a move the server had. */
  lemma RemoteAgreesIff(t: Tree, rows: Rows, m: Message, username: string, cap: nat)
    requires Consistent(rows) && Agrees(t, rows) && Authored(m, username)
    requires Handle(rows, m, username, cap).Broadcast?
    ensures Agrees(Remote(t, m), Handle(rows, m, username, cap).rows) <==> NewToAll(rows, m)
  {
    AuthoredUnchanged(m, username);
    HandleStored(rows, m, username, cap);
    ReceiverAgreesIff(t, rows, m, username, cap);
  }

  lemma FetchedAgrees(rows: Rows, order: seq<string>)
    requires Consistent(rows) && SortedKeys(Joined(rows), order)
    ensures Agrees(Fetched(rows, order), rows)
  {
    JoinedTable(rows);
    FlattenRebuild(Joined(rows), order);
  }

  /** The tree fetched straight after a chapter's creation shows what the submitted tree shows, cards aside. */
  lemma FetchedAfterCreation(root: Tree, order: seq<string>, q: string)
    requires WellFormed(root) && SortedKeys(Joined(Created(root)), order)
    ensures Consistent(Created(root))
    ensures View(Fetched(Created(root), order), q) == CardsCleared(View(root, q))
  {
    CreatedConsistent(root);
    CreatedRows(root, q);
    FetchedAgrees(Created(root), order);
    AgreesView(Fetched(Created(root), order), Created(root), q);
  }

  // ----- whole runs -----

  /** Once caught up, the client says what the server says, unless it is lost. */
  predicate Current(p: Peer, rows: Rows) {
    p.lost || Agrees(CatchUp(p.root, p.inbox), rows)
  }

  /** What runs keep. */
  predicate Synced(s: State) {
    Consistent(s.rows) && forall j :: 0 <= j < |s.peers| ==> Current(s.peers[j], s.rows)
  }

  lemma {:induction false} CatchUpSnoc(t: Tree, inbox: seq<Message>, m: Message)
    ensures CatchUp(t, inbox + [m]) == Remote(CatchUp(t, inbox), m)
    decreases |inbox|
  {
    if inbox == [] {
      assert (inbox + [m])[1..] == [];
    } else {
      assert (inbox + [m])[1..] == inbox[1..] + [m];
      CatchUpSnoc(Remote(t, inbox[0]), inbox[1..], m);
    }
  }

  /** Nobody else is there to get the broadcast. */
  predicate NobodyElse(s: State, i: nat, full: set<nat>) {
    forall j :: 0 <= j < |s.peers| && j != i ==> s.peers[j].lost || j in full
  }

  /**
   A step after which every client that is not lost still agrees: an edit that
   is refused, or lands right at the sender and is new to all who get it; a
   client that connects again with a tree that agrees; anything else.
   */
  ghost predicate Harmless(s: State, step: Step, cap: nat)
    requires Enabled(s, step)
  {
    match step
    case Edit(i, h, m, _, full) =>
      || Handle(s.rows, m, s.peers[i].username, cap).ReloadSender?
      || (LandsRight(s.rows, h, m) && (NewToAll(s.rows, m) || NobodyElse(s, i, full)))
    case Rejoin(j) => Agrees(s.peers[j].root, s.rows)
    case _ => true
  }

  lemma RefusedSynced(s: State, i: nat, h: Held, m: Message, order: seq<string>, full: set<nat>, cap: nat)
    requires Synced(s) && Enabled(s, Edit(i, h, m, order, full))
    requires Handle(s.rows, m, s.peers[i].username, cap).ReloadSender?
    ensures Synced(Execute(s, Edit(i, h, m, order, full), cap))
  {
    FetchedAgrees(s.rows, order);
    var s' := Execute(s, Edit(i, h, m, order, full), cap);
    forall j | 0 <= j < |s'.peers|
      ensures Current(s'.peers[j], s.rows)
    {
      assert j != i ==> s'.peers[j] == s.peers[j];
    }
  }

  /** One client's side of an accepted edit. */
  lemma PeerAfterEdit(s: State, i: nat, h: Held, m: Message, order: seq<string>, full: set<nat>, cap: nat, j: nat)
    requires Synced(s) && Enabled(s, Edit(i, h, m, order, full)) && j < |s.peers|
    requires Handle(s.rows, m, s.peers[i].username, cap).Broadcast?
    ensures var s' := Execute(s, Edit(i, h, m, order, full), cap);
            && |s'.peers| == |s.peers|
            && (Current(s'.peers[j], s'.rows) <==>
                 if j == i then LandsRight(s.rows, h, m)
                 else s.peers[j].lost || j in full || NewToAll(s.rows, m))
  {
    var username, p := s.peers[i].username, s.peers[j];
    AcceptedRow(s.rows, m, username, cap);
    assert Current(p, s.rows);
    if j == i {
      LocalAgreesIff(p.root, s.rows, h, m, username, cap);
    } else if !p.lost && j !in full {
      RemoteAgreesIff(CatchUp(p.root, p.inbox), s.rows, m, username, cap);
      CatchUpSnoc(p.root, p.inbox, m);
    }
  }

  lemma EditSyncedIff(s: State, i: nat, h: Held, m: Message, order: seq<string>, full: set<nat>, cap: nat)
    requires Synced(s) && Enabled(s, Edit(i, h, m, order, full))
    ensures Synced(Execute(s, Edit(i, h, m, order, full), cap)) <==> Harmless(s, Edit(i, h, m, order, full), cap)
  {
    if Handle(s.rows, m, s.peers[i].username, cap).ReloadSender? {
      RefusedSynced(s, i, h, m, order, full, cap);
    } else {
      AcceptedRow(s.rows, m, s.peers[i].username, cap);
      var s' := Execute(s, Edit(i, h, m, order, full), cap);
      forall j | 0 <= j < |s.peers|
        ensures |s'.peers| == |s.peers|
        ensures Current(s'.peers[j], s'.rows) <==>
          if j == i then LandsRight(s.rows, h, m) else s.peers[j].lost || j in full || NewToAll(s.rows, m)
      {
        PeerAfterEdit(s, i, h, m, order, full, cap, j);
      }
    }
  }

  /** A step keeps everyone in agreement exactly when it is harmless. */
  lemma StepSyncedIff(s: State, step: Step, cap: nat)
    requires Synced(s) && Enabled(s, step)
    ensures Synced(Execute(s, step, cap)) <==> Harmless(s, step, cap)
  {
    match step
    case Edit(i, h, m, order, full) => EditSyncedIff(s, i, h, m, order, full, cap);
    case Deliver(j) =>
      assert Current(s.peers[j], s.rows);
    case Join(_, order) => FetchedAgrees(s.rows, order);
    case Rejoin(j) =>
      var s' := Execute(s, step, cap);
      assert CatchUp(s'.peers[j].root, s'.peers[j].inbox) == s.peers[j].root;
    case _ =>
  }

  /** Who joins with a fetch takes part at once, and agrees with the server. */
  lemma JoinerAgrees(s: State, username: string, order: seq<string>, cap: nat)
    requires Enabled(s, Join(username, order))
    ensures var s' := Execute(s, Join(username, order), cap);
            && s'.rows == s.rows && |s'.peers| == |s.peers| + 1 && s'.peers[..|s.peers|] == s.peers
            && var joiner := s'.peers[|s.peers|];
               joiner.username == username && joiner.inbox == [] && !joiner.lost && Agrees(joiner.root, s.rows)
  {
    FetchedAgrees(s.rows, order);
  }

  ghost predicate IsRun(s: State, steps: seq<Step>, cap: nat)
    decreases |steps|
  {
    steps == [] || (Enabled(s, steps[0]) && IsRun(Execute(s, steps[0], cap), steps[1..], cap))
  }

  ghost function EndOf(s: State, steps: seq<Step>, cap: nat): State
    requires IsRun(s, steps, cap)
    decreases |steps|
  {
    if steps == [] then s else EndOf(Execute(s, steps[0], cap), steps[1..], cap)
  }

  ghost predicate AllHarmless(s: State, steps: seq<Step>, cap: nat)
    requires IsRun(s, steps, cap)
    decreases |steps|
  {
    steps != [] ==> Harmless(s, steps[0], cap) && AllHarmless(Execute(s, steps[0], cap), steps[1..], cap)
  }

  /** In every state that the run goes through. */
  ghost predicate AlwaysSynced(s: State, steps: seq<Step>, cap: nat)
    requires IsRun(s, steps, cap)
    decreases |steps|
  {
    Synced(s) && (steps != [] ==> AlwaysSynced(Execute(s, steps[0], cap), steps[1..], cap))
  }

  /** Clients agree with the server throughout a run exactly when each of its steps is harmless. */
  lemma {:induction false} RunSyncedIff(s: State, steps: seq<Step>, cap: nat)
    requires Synced(s) && IsRun(s, steps, cap)
    ensures AlwaysSynced(s, steps, cap) <==> AllHarmless(s, steps, cap)
    ensures AllHarmless(s, steps, cap) ==> Synced(EndOf(s, steps, cap))
    decreases |steps|
  {
    if steps != [] {
      var next := Execute(s, steps[0], cap);
      StepSyncedIff(s, steps[0], cap);
      if Synced(next) {
        RunSyncedIff(next, steps[1..], cap);
      } else {
        assert !AlwaysSynced(next, steps[1..], cap);
      }
    }
  }

  /**
   What an editor can see in its own tree: the node it works on is the one at the
   path it sends, and a move it makes is not there yet.
   */
  ghost predicate InStep(s: State, step: Step)
    requires Enabled(s, step)
  {
    match step
    case Edit(i, h, m, _, _) =>
      && (m.MoveCreated? || m.TrainingUpdated? ==> h == InTree(m.path))
      && (m.MoveCreated? ==> !Reaches(s.peers[i].root, m.path + m.move.id))
    case Rejoin(_) => false
    case _ => true
  }

  lemma InStepHarmless(s: State, step: Step, cap: nat)
    requires Synced(s) && Enabled(s, step) && InStep(s, step)
    ensures Harmless(s, step, cap)
  {
    if step.Edit? && step.m.MoveCreated? {
      var p := s.peers[step.i];
      assert Current(p, s.rows) && CatchUp(p.root, p.inbox) == p.root;
      AgreesView(p.root, s.rows, step.m.path + step.m.move.id);
    }
  }

  ghost predicate AllInStep(s: State, steps: seq<Step>, cap: nat)
    requires IsRun(s, steps, cap)
    decreases |steps|
  {
    steps != [] ==> InStep(s, steps[0]) && AllInStep(Execute(s, steps[0], cap), steps[1..], cap)
  }

  /** Editors that are in step when they edit do no harm, as long as nobody connects again. */
  lemma {:induction false} RunInStep(s: State, steps: seq<Step>, cap: nat)
    requires Synced(s) && IsRun(s, steps, cap) && AllInStep(s, steps, cap)
    ensures AllHarmless(s, steps, cap)
    decreases |steps|
  {
    if steps != [] {
      InStepHarmless(s, steps[0], cap);
      StepSyncedIff(s, steps[0], cap);
      RunInStep(Execute(s, steps[0], cap), steps[1..], cap);
    }
  }

  /**
   After any run of harmless steps from an empty room, whoever has an empty queue
   and is not lost holds exactly the server's rows joined with their cards, and
   any two such clients hold the same tree up to the order of siblings.
   */
  lemma {:induction false} Convergence(rows: Rows, steps: seq<Step>, cap: nat, i: nat, j: nat)
    requires Consistent(rows) && IsRun(State(rows, []), steps, cap) && AllHarmless(State(rows, []), steps, cap)
    requires var end := EndOf(State(rows, []), steps, cap);
             && i < |end.peers| && end.peers[i].inbox == [] && !end.peers[i].lost
             && j < |end.peers| && end.peers[j].inbox == [] && !end.peers[j].lost
    ensures var end := EndOf(State(rows, []), steps, cap);
            && Flatten(end.peers[i].root) == Joined(end.rows)
            && SameUpToOrder(end.peers[i].root, end.peers[j].root)
  {
    RunSyncedIff(State(rows, []), steps, cap);
    var end := EndOf(State(rows, []), steps, cap);
    var t, u := end.peers[i].root, end.peers[j].root;
    assert Current(end.peers[i], end.rows) && Current(end.peers[j], end.rows);
    forall q
      ensures View(t, q) == View(u, q)
    {
      AgreesView(t, end.rows, q);
      AgreesView(u, end.rows, q);
    }
    SameViewsSameTree(t, u);
  }

  // ----- where the hypotheses bite -----

  lemma DuplicateNotWellFormed(t: Tree, path: string, move: MoveData)
    requires WellFormed(t) && Reaches(t, path) && |move.id| == 2 && Reaches(t, path + move.id)
    ensures !WellFormed(UpdateAt(t, path, Pushing(Node(move, []))))
  {
    var n, c := NodeAtPathOrNull(t, path).value, Node(move, []);
    var t' := UpdateAt(t, path, Pushing(c));
    ReachesWhole(t, path);
    NotChild(t, path, move.id);
    UpdateReplaces(t, path, Pushing(c));
    var kids := n.children + [c];
    var i := ChildIndex(n.children, move.id);
    assert NodeAtPathOrNull(t', path) == Some(n.(children := kids));
    assert kids[i].data.id == kids[|n.children|].data.id;
    if WellFormed(t') {
      ReachesWhole(t', path);
    }
  }

  /**
   Work on a node that is in the tree, but not at the path the message gives: the
   message is refused, or it takes the sender out of agreement.
   */
  lemma OutOfStep(t: Tree, rows: Rows, at: string, path: string, move: MoveData, username: string, cap: nat)
    requires Consistent(rows) && Agrees(t, rows) && Reaches(t, at) && at != path
    requires |move.id| == 2 && move.training == map[]
    ensures var m := MoveCreated(path, move);
            match Handle(rows, m, username, cap)
            case ReloadSender => true
            case Broadcast(rows', _) => path in rows.moves && !Agrees(Local(t, InTree(at), m), rows')
  {
    if Handle(rows, MoveCreated(path, move), username, cap).Broadcast? {
      LocalAgreesIff(t, rows, InTree(at), MoveCreated(path, move), username, cap);
    }
  }

  /**
   A reload that is fetched late breaks the agreement: if the fetch already
   contains a move whose broadcast is still queued, applying it adds the move twice.
   */
  lemma LateReloadDuplicates(rows: Rows, order: seq<string>, path: string, move: MoveData)
    requires Consistent(rows) && SortedKeys(Joined(rows), order)
    requires |move.id| == 2 && path in rows.moves && path + move.id in rows.moves
    ensures !WellFormed(CatchUp(Fetched(rows, order), [MoveCreated(path, move)]))
  {
    var t := Fetched(rows, order);
    FetchedAgrees(rows, order);
    AgreesView(t, rows, path);
    AgreesView(t, rows, path + move.id);
    DuplicateNotWellFormed(t, path, move);
    assert CatchUp(t, [MoveCreated(path, move)]) == CatchUp(Remote(t, MoveCreated(path, move)), []);
  }

  /** What a client that is up to date does with a create it has seen, or has not seen, before. */
  lemma RepeatedCreateIff(t: Tree, rows: Rows, path: string, move: MoveData)
    requires Consistent(rows) && Agrees(t, rows) && |move.id| == 2
    ensures Agrees(UpdateAt(t, path, Pushing(Node(move, []))), rows) <==> path !in rows.moves
  {
    var t' := UpdateAt(t, path, Pushing(Node(move, [])));
    AgreesView(t, rows, path);
    if path !in rows.moves {
      UpdateMissing(t, path, Pushing(Node(move, [])));
    } else if Reaches(t, path + move.id) {
      DuplicateNotWellFormed(t, path, move);
    } else {
      AgreesView(t, rows, path + move.id);
      ViewPushLeaf(t, path, move, path + move.id);
      if Agrees(t', rows) {
        AgreesView(t', rows, path + move.id);
      }
    }
  }

  lemma RepeatedDeleteIff(t: Tree, rows: Rows, path: string)
    requires Consistent(rows) && Agrees(t, rows) && Whole(path)
    ensures Agrees(DeleteNodeAt(t, path), rows) <==>
            path == "" || (path !in rows.moves && ReachedPart(t, path) + Last(path) !in rows.moves)
  {
    AgreesView(t, rows, path);
    if path == "" {
      DeleteRootIsNothing(t);
    } else if path in rows.moves {
      DeletedDisagrees(t, rows, path);
    } else {
      var other := ReachedPart(t, path) + Last(path);
      ClientChapter.DriftedDeleteIff(t, path);
      ChildRow(t, rows, path);
      if other in rows.moves {
        DeletedDisagrees(t, rows, other);
      }
    }
  }

  lemma DeletedDisagrees(t: Tree, rows: Rows, path: string)
    requires Agrees(t, rows) && path in rows.moves && path != ""
    ensures !Agrees(DeleteNodeAt(t, path), rows)
  {
    AgreesView(t, rows, path);
    ViewDelete(t, path, path);
    if Agrees(DeleteNodeAt(t, path), rows) {
      AgreesView(DeleteNodeAt(t, path), rows, path);
    }
  }

  /** The child that a drifted delete would hit, seen in the table. */
  lemma ChildRow(t: Tree, rows: Rows, path: string)
    requires Agrees(t, rows) && Whole(path) && path != ""
    ensures HasChild(NodeAtPath(t, path), Last(path)) <==> ReachedPart(t, path) + Last(path) in rows.moves
  {
    var at := ReachedPart(t, path);
    NodeAtPathReached(t, path);
    assert Whole(at) by { ReachesWhole(t, at); }
    InitWhole(path);
    NotChild(t, at, Last(path));
    AgreesView(t, rows, at + Last(path));
  }

  /** A write that lands on the nearest row agrees exactly when it writes what is there. */
  lemma RepeatedWriteIff(t: Tree, rows: Rows, path: string, g: MoveData -> MoveData)
    requires Agrees(t, rows) && forall d :: g(d).id == d.id
    ensures ReachedPart(t, path) in rows.moves
    ensures Agrees(UpdateNearest(t, path, Writing(g)), rows) <==>
            g(Joined(rows)[ReachedPart(t, path)]) == Joined(rows)[ReachedPart(t, path)]
  {
    var at := ReachedPart(t, path);
    var t' := UpdateAt(t, at, Writing(g));
    NodeAtPathReached(t, path);
    AgreesView(t, rows, at);
    forall q
      ensures WellFormed(t') && View(t', q) == if at == q then Some(g(Joined(rows)[at])) else Find(Joined(rows), q)
    {
      ViewWrite(t, at, g, q);
      AgreesView(t, rows, q);
    }
    if Agrees(t', rows) {
      AgreesView(t', rows, at);
    } else if g(Joined(rows)[at]) == Joined(rows)[at] {
      ViewsAgree(t', rows);
    }
  }

  /** The message changes nothing in a tree that agrees with the rows. */
  predicate NothingNew(t: Tree, rows: Rows, m: Message) {
    var at := ReachedPart(t, m.path);
    match m
    case MoveCreated(path, _) => path !in rows.moves
    case NodeDeleted(path) => path == "" || (path !in rows.moves && at + Last(path) !in rows.moves)
    case CommentSet(_, text) => at in rows.moves && rows.moves[at].comment == text
    case TrainingUpdated(_, user, card) =>
      user in CardsAt(rows.cards, at) && CardsAt(rows.cards, at)[user] == card
  }

  lemma RepeatedCommentIff(t: Tree, rows: Rows, path: string, text: string)
    requires Agrees(t, rows)
    ensures Agrees(UpdateNearest(t, path, Writing(Commenting(text))), rows) <==>
            NothingNew(t, rows, CommentSet(path, text))
  {
    RepeatedWriteIff(t, rows, path, Commenting(text));
  }

  lemma RepeatedCardIff(t: Tree, rows: Rows, path: string, user: string, card: Card)
    requires Agrees(t, rows)
    ensures Agrees(UpdateNearest(t, path, Writing(Carding(user, card))), rows) <==>
            NothingNew(t, rows, TrainingUpdated(path, user, card))
  {
    RepeatedWriteIff(t, rows, path, Carding(user, card));
    var cards := CardsAt(rows.cards, ReachedPart(t, path));
    assert cards[user := card] == cards <==> user in cards && cards[user] == card;
  }

  /** Move ids of two characters, and paths made of such ids. */
  predicate ProperMessage(m: Message) {
    && (m.MoveCreated? ==> |m.move.id| == 2)
    && (m.NodeDeleted? ==> Whole(m.path))
  }

  /** Applied to a tree that agrees already, a message is harmless exactly when there is nothing new in it. */
  lemma RepeatedIff(t: Tree, rows: Rows, m: Message)
    requires Consistent(rows) && Agrees(t, rows) && ProperMessage(m)
    ensures Agrees(Remote(t, m), rows) <==> NothingNew(t, rows, m)
  {
    match m
    case MoveCreated(path, move) => RepeatedCreateIff(t, rows, path, move);
    case NodeDeleted(path) => RepeatedDeleteIff(t, rows, path);
    case CommentSet(path, text) => RepeatedCommentIff(t, rows, path, text);
    case TrainingUpdated(path, user, card) => RepeatedCardIff(t, rows, path, user, card);
  }

  lemma CatchUpOne(t: Tree, m: Message)
    ensures CatchUp(t, [m]) == Remote(t, m)
  {
    assert [m][1..] == [];
  }

  /**
   A broadcast still queued when a reload is fetched is harmless exactly when
   the fetched rows leave it nothing to do: a create whose parent is gone, a
   delete that finds neither its move nor one of the same id under its nearest
   ancestor, a comment or a card that is there already.
   */
  lemma LateReloadIff(rows: Rows, order: seq<string>, m: Message)
    requires Consistent(rows) && SortedKeys(Joined(rows), order) && ProperMessage(m)
    ensures Agrees(CatchUp(Fetched(rows, order), [m]), rows) <==> NothingNew(Fetched(rows, order), rows, m)
  {
    var t := Fetched(rows, order);
    FetchedAgrees(rows, order);
    RepeatedIff(t, rows, m);
    CatchUpOne(t, m);
  }

  /** Trees that agree with the same rows are followed equally far. */
  lemma SameReached(t: Tree, u: Tree, rows: Rows, p: string)
    requires Agrees(t, rows) && Agrees(u, rows)
    ensures ReachedPart(t, p) == ReachedPart(u, p)
  {
    var a, b := ReachedPart(t, p), ReachedPart(u, p);
    NodeAtPathReached(t, p);
    NodeAtPathReached(u, p);
    AgreesView(t, rows, a);
    AgreesView(u, rows, a);
    AgreesView(t, rows, b);
    AgreesView(u, rows, b);
    ReachedLongest(u, p, a);
    ReachedLongest(t, p, b);
  }

  /** The tree agrees now and after each message of the queue. */
  predicate AgreesThroughout(t: Tree, rows: Rows, inbox: seq<Message>)
    decreases |inbox|
  {
    Agrees(t, rows) && (inbox != [] ==> AgreesThroughout(Remote(t, inbox[0]), rows, inbox[1..]))
  }

  /** A queue leaves an agreeing tree in agreement all the way exactly when none of its messages has anything new. */
  lemma {:induction false} QueueIff(t: Tree, rows: Rows, inbox: seq<Message>)
    requires Consistent(rows) && Agrees(t, rows) && forall m :: m in inbox ==> ProperMessage(m)
    ensures AgreesThroughout(t, rows, inbox) <==> forall m :: m in inbox ==> NothingNew(t, rows, m)
    ensures AgreesThroughout(t, rows, inbox) ==> Agrees(CatchUp(t, inbox), rows)
    decreases |inbox|
  {
    if inbox != [] {
      var first, rest := inbox[0], inbox[1..];
      var u := Remote(t, first);
      assert forall m :: m in inbox <==> m == first || m in rest;
      assert ProperMessage(first);
      RepeatedIff(t, rows, first);
      if NothingNew(t, rows, first) {
        QueueIff(u, rows, rest);
        forall m
          ensures NothingNew(t, rows, m) <==> NothingNew(u, rows, m)
        {
          SameReached(t, u, rows, m.path);
        }
      }
    }
  }

  /** The same for a reload that is fetched while messages are still queued. */
  lemma LateReloadQueueIff(rows: Rows, order: seq<string>, inbox: seq<Message>)
    requires Consistent(rows) && SortedKeys(Joined(rows), order) && forall m :: m in inbox ==> ProperMessage(m)
    ensures var t := Fetched(rows, order);
            && (AgreesThroughout(t, rows, inbox) <==> forall m :: m in inbox ==> NothingNew(t, rows, m))
            && (AgreesThroughout(t, rows, inbox) ==> Agrees(CatchUp(t, inbox), rows))
  {
    FetchedAgrees(rows, order);
    QueueIff(Fetched(rows, order), rows, inbox);
  }

  /** A queue can also be right again at its end: a create and the delete of the same move cancel out. */
  lemma CreateAndDeleteCancel(rows: Rows, order: seq<string>, path: string, move: MoveData)
    requires Consistent(rows) && SortedKeys(Joined(rows), order)
    requires |move.id| == 2 && path in rows.moves && path + move.id !in rows.moves
    ensures var t, queue := Fetched(rows, order), [MoveCreated(path, move), NodeDeleted(path + move.id)];
            Agrees(CatchUp(t, queue), rows) && !AgreesThroughout(t, rows, queue)
  {
    var t, p := Fetched(rows, order), path + move.id;
    var created, deleted := MoveCreated(path, move), NodeDeleted(p);
    FetchedAgrees(rows, order);
    AgreesView(t, rows, path);
    AgreesView(t, rows, p);
    assert ProperMessage(created);
    RepeatedIff(t, rows, created);
    PushWellFormed(t, path, Node(move, []));
    var u := Remote(t, created);
    ViewPushLeaf(t, path, move, p);
    DeleteWellFormed(u, p);
    forall q
      ensures View(DeleteNodeAt(u, p), q) == Find(Joined(rows), q)
    {
      ViewDelete(u, p, q);
      ViewPushLeaf(t, path, move, q);
      AgreesView(t, rows, q);
      assert Whole(p) by {
        ReachesWhole(t, path);
        WholeAppend(path, move.id);
      }
      LeafBelow(t, p, move, q);
    }
    ViewsAgree(DeleteNodeAt(u, p), rows);
    CatchUpTwo(t, created, deleted);
  }

  lemma CatchUpTwo(t: Tree, first: Message, second: Message)
    ensures CatchUp(t, [first, second]) == Remote(Remote(t, first), second)
  {
    assert [first, second][1..] == [second];
    CatchUpOne(Remote(t, first), second);
  }

  /**
   A client whose selected path was deleted, while it still works on the parent
   node, sends its next move under a path that the server refuses.
   */
  lemma StaleParentReloads(rows: Rows, path: string, move: MoveData, username: string, cap: nat)
    requires Consistent(rows) && PathExists(rows, path)
    ensures Handle(DeleteNode(rows, path).rows, MoveCreated(path, move), username, cap) == ReloadSender
  {
    DeletedConsistent(rows, path);
  }

  // ----- a run that diverges -----

  /**
   One client deletes a move that it has not selected, which leaves the deleted
   path selected and the parent as the selected node. Another creates the move
   again, and the first makes a move.
   */
  function RecreateSteps(x: string, again: MoveData, move: MoveData, orders: seq<seq<string>>): seq<Step>
    requires |orders| == 3
  {
    var h := InTree(Init(x));
    Turn(0, h, NodeDeleted(x), orders[0]) +
    (Turn(1, h, MoveCreated(Init(x), again), orders[1]) +
     (Turn(0, h, MoveCreated(x, move), orders[2]) + []))
  }

  /** An edit of one of two clients, and its delivery to the other. */
  function Turn(i: nat, h: Held, m: Message, order: seq<string>): seq<Step>
    requires i < 2
  {
    [Edit(i, h, m, order, {}), Deliver(1 - i)]
  }

  ghost predicate Settled(s: State) {
    |s.peers| == 2 && forall j :: 0 <= j < 2 ==> s.peers[j].inbox == [] && !s.peers[j].lost
  }

  /** The state after an accepted edit that has been delivered to the other client. */
  function Delivered(s: State, i: nat, h: Held, m: Message, rows': Rows): State
    requires |s.peers| == 2 && i < 2
  {
    State(rows', seq(2, j requires 0 <= j < 2 =>
      s.peers[j].(root := if j == i then Local(s.peers[j].root, h, m) else Remote(s.peers[j].root, m))))
  }

  /** One client's side of an accepted edit that finds no full buffers. */
  lemma EditReached(s: State, i: nat, h: Held, m: Message, order: seq<string>, cap: nat, j: nat)
    requires Enabled(s, Edit(i, h, m, order, {})) && j < |s.peers|
    requires var reply := Handle(s.rows, m, s.peers[i].username, cap);
             reply.Broadcast? && reply.message == m
    ensures var s1 := Execute(s, Edit(i, h, m, order, {}), cap);
            && |s1.peers| == |s.peers| && s1.rows == Handle(s.rows, m, s.peers[i].username, cap).rows
            && s1.peers[j] == if j == i then s.peers[j].(root := Local(s.peers[j].root, h, m))
                              else s.peers[j].(inbox := s.peers[j].inbox + [m])
  {
  }

  lemma EditAnswered(s: State, i: nat, h: Held, m: Message, order: seq<string>, cap: nat)
    requires Settled(s) && i < 2 && Enabled(s, Edit(i, h, m, order, {}))
    requires Handle(s.rows, m, s.peers[i].username, cap).Broadcast?
    ensures var s1 := Execute(s, Edit(i, h, m, order, {}), cap);
            && s1.rows == Handle(s.rows, m, s.peers[i].username, cap).rows && |s1.peers| == 2
            && s1.peers[i] == s.peers[i].(root := Local(s.peers[i].root, h, m))
            && s1.peers[1 - i] == s.peers[1 - i].(inbox := [m])
  {
    AuthoredUnchanged(m, s.peers[i].username);
    assert [] + [m] == [m];
    EditReached(s, i, h, m, order, cap, i);
    EditReached(s, i, h, m, order, cap, 1 - i);
  }

  lemma EditDelivered(s: State, i: nat, h: Held, m: Message, order: seq<string>, cap: nat)
    requires Settled(s) && i < 2 && Enabled(s, Edit(i, h, m, order, {}))
    requires Handle(s.rows, m, s.peers[i].username, cap).Broadcast?
    ensures var s1 := Execute(s, Edit(i, h, m, order, {}), cap);
            && Enabled(s1, Deliver(1 - i))
            && Execute(s1, Deliver(1 - i), cap) ==
               Delivered(s, i, h, m, Handle(s.rows, m, s.peers[i].username, cap).rows)
  {
    EditAnswered(s, i, h, m, order, cap);
    var s2 := Execute(Execute(s, Edit(i, h, m, order, {}), cap), Deliver(1 - i), cap);
    var expected := Delivered(s, i, h, m, Handle(s.rows, m, s.peers[i].username, cap).rows);
    assert [m][1..] == [];
    assert s2.peers[i] == expected.peers[i];
    assert s2.peers[1 - i] == expected.peers[1 - i];
    assert s2.peers == expected.peers;
  }

  /** One client's side of it. */
  lemma DeliveredCurrent(s: State, i: nat, h: Held, m: Message, cap: nat, j: nat)
    requires Settled(s) && Synced(s) && i < 2 && j < 2 && Holding(s.peers[i].root, h).Some?
    requires Authored(m, s.peers[i].username) && Handle(s.rows, m, s.peers[i].username, cap).Broadcast?
    ensures var s' := Delivered(s, i, h, m, Handle(s.rows, m, s.peers[i].username, cap).rows);
            && s'.peers[j].inbox == [] && !s'.peers[j].lost && s'.peers[j].username == s.peers[j].username
            && (Agrees(s'.peers[j].root, s'.rows) <==>
                 if j == i then LandsRight(s.rows, h, m) else NewToAll(s.rows, m))
  {
    var p := s.peers[j];
    assert Current(p, s.rows) && CatchUp(p.root, p.inbox) == p.root;
    if j == i {
      LocalAgreesIff(p.root, s.rows, h, m, p.username, cap);
    } else {
      RemoteAgreesIff(p.root, s.rows, m, s.peers[i].username, cap);
    }
  }

  /** Rows that accept the delete, the second create and the new move, in that order. */
  lemma RecreateAccepted(rows: Rows, x: string, move: MoveData, cap: nat)
    requires Consistent(rows) && PathExists(rows, x) && MoveCount(rows.moves) + 1 < cap && |move.id| == 2
    ensures var again, deleted := rows.moves[x], DeleteNode(rows, x);
            && deleted.Stored? && |again.id| == 2 && Init(x) + again.id == x && again.training == map[]
            && x !in deleted.rows.moves && Init(x) in deleted.rows.moves
            && var created := AddMove(deleted.rows, Init(x), again, cap);
               && created.Stored? && x in created.rows.moves
               && AddMove(created.rows, x, move, cap).Stored?
  {
    var again, rows1 := rows.moves[x], DeleteNode(rows, x).rows;
    HeadTail(x);
    PrefixClosedWhole(rows.moves, x);
    InitWhole(x);
    DeletedConsistent(rows, x);
    SubsetCount(rows1.moves, rows.moves);
    UpsertCount(rows1.moves, x, RowOf(again));
  }

  lemma TurnFirst(s: State, i: nat, h: Held, m: Message, order: seq<string>, rest: seq<Step>, cap: nat)
    requires Settled(s) && i < 2 && Enabled(s, Edit(i, h, m, order, {}))
    requires Handle(s.rows, m, s.peers[i].username, cap).Broadcast?
    requires IsRun(Delivered(s, i, h, m, Handle(s.rows, m, s.peers[i].username, cap).rows), rest, cap)
    ensures IsRun(s, Turn(i, h, m, order) + rest, cap)
    ensures EndOf(s, Turn(i, h, m, order) + rest, cap) ==
            EndOf(Delivered(s, i, h, m, Handle(s.rows, m, s.peers[i].username, cap).rows), rest, cap)
  {
    var steps := Turn(i, h, m, order) + rest;
    EditDelivered(s, i, h, m, order, cap);
    assert steps[0] == Edit(i, h, m, order, {}) && steps[1..][0] == Deliver(1 - i) && steps[1..][1..] == rest;
  }

  /** An edit that is accepted and then delivered. */
  ghost predicate Turns(s: State, i: nat, h: Held, m: Message, order: seq<string>, s': State, cap: nat) {
    && Settled(s) && i < 2 && Enabled(s, Edit(i, h, m, order, {}))
    && Handle(s.rows, m, s.peers[i].username, cap).Broadcast?
    && s' == Delivered(s, i, h, m, Handle(s.rows, m, s.peers[i].username, cap).rows)
  }

  /** What an accepted and delivered edit leaves of two clients that agreed. */
  lemma Round(s: State, i: nat, h: Held, m: Message, order: seq<string>, cap: nat) returns (s': State)
    requires Settled(s) && Synced(s) && i < 2 && Enabled(s, Edit(i, h, m, order, {}))
    requires Apply(s.rows, OpOf(m), cap).Stored?
    ensures Handle(s.rows, m, s.peers[i].username, cap) == Broadcast(Apply(s.rows, OpOf(m), cap).rows, m)
    ensures s' == Delivered(s, i, h, m, Apply(s.rows, OpOf(m), cap).rows)
    ensures Settled(s') && s'.rows == Apply(s.rows, OpOf(m), cap).rows
    ensures LandsRight(s.rows, h, m) && NewToAll(s.rows, m) ==> Synced(s')
    ensures !LandsRight(s.rows, h, m) ==> !Agrees(s'.peers[i].root, s'.rows)
  {
    HandleStored(s.rows, m, s.peers[i].username, cap);
    AcceptedRow(s.rows, m, s.peers[i].username, cap);
    s' := Delivered(s, i, h, m, Apply(s.rows, OpOf(m), cap).rows);
    forall j | 0 <= j < 2
      ensures s'.peers[j].inbox == [] && !s'.peers[j].lost
      ensures CatchUp(s'.peers[j].root, s'.peers[j].inbox) == s'.peers[j].root
      ensures Agrees(s'.peers[j].root, s'.rows) <==>
        if j == i then LandsRight(s.rows, h, m) else NewToAll(s.rows, m)
    {
      DeliveredCurrent(s, i, h, m, cap, j);
    }
  }

  /** Either client can work on any move of the table. */
  lemma CanEdit(s: State, i: nat, at: string, m: Message, order: seq<string>)
    requires Settled(s) && Synced(s) && i < 2 && at in s.rows.moves && Authored(m, s.peers[i].username)
    requires SortedKeys(Joined(s.rows), order)
    ensures Enabled(s, Edit(i, InTree(at), m, order, {}))
  {
    var p := s.peers[i];
    assert Current(p, s.rows) && CatchUp(p.root, p.inbox) == p.root;
    AgreesView(p.root, s.rows, at);
  }

  lemma DeleteTurn(s: State, at: string, x: string, order: seq<string>, cap: nat) returns (s': State)
    requires Settled(s) && Synced(s) && at in s.rows.moves && DeleteNode(s.rows, x).Stored?
    requires SortedKeys(Joined(s.rows), order)
    ensures Turns(s, 0, InTree(at), NodeDeleted(x), order, s', cap)
    ensures Settled(s') && Synced(s') && s'.rows == DeleteNode(s.rows, x).rows
  {
    CanEdit(s, 0, at, NodeDeleted(x), order);
    s' := Round(s, 0, InTree(at), NodeDeleted(x), order, cap);
  }

  lemma CreateTurn(s: State, i: nat, at: string, path: string, move: MoveData, order: seq<string>, cap: nat)
    returns (s': State)
    requires Settled(s) && Synced(s) && i < 2 && at in s.rows.moves && SortedKeys(Joined(s.rows), order)
    requires |move.id| == 2 && move.training == map[] && AddMove(s.rows, path, move, cap).Stored?
    ensures Turns(s, i, InTree(at), MoveCreated(path, move), order, s', cap)
    ensures Settled(s') && s'.rows == AddMove(s.rows, path, move, cap).rows
    ensures at == path && path + move.id !in s.rows.moves ==> Synced(s')
    ensures at != path ==> !Agrees(s'.peers[i].root, s'.rows)
  {
    CanEdit(s, i, at, MoveCreated(path, move), order);
    s' := Round(s, i, InTree(at), MoveCreated(path, move), order, cap);
  }

  /** The rows at the three edits. */
  function RecreateRows(rows: Rows, x: string, cap: nat): (Rows, Rows, Rows)
    requires Consistent(rows) && PathExists(rows, x) && MoveCount(rows.moves) + 1 < cap
  {
    RecreateAccepted(rows, x, rows.moves[x], cap);
    var deleted := DeleteNode(rows, x).rows;
    (rows, deleted, AddMove(deleted, Init(x), rows.moves[x], cap).rows)
  }

  lemma RecreateStates(s: State, x: string, move: MoveData, orders: seq<seq<string>>, cap: nat)
    returns (s1: State, s2: State, s3: State)
    requires Settled(s) && Synced(s) && PathExists(s.rows, x) && MoveCount(s.rows.moves) + 1 < cap
    requires |move.id| == 2 && move.training == map[] && |orders| == 3
    requires var (rows0, rows1, rows2) := RecreateRows(s.rows, x, cap);
             SortedKeys(Joined(rows0), orders[0]) && SortedKeys(Joined(rows1), orders[1])
             && SortedKeys(Joined(rows2), orders[2])
    ensures var h := InTree(Init(x));
            && Turns(s, 0, h, NodeDeleted(x), orders[0], s1, cap)
            && Turns(s1, 1, h, MoveCreated(Init(x), s.rows.moves[x]), orders[1], s2, cap)
            && Turns(s2, 0, h, MoveCreated(x, move), orders[2], s3, cap)
    ensures Settled(s3) && !Agrees(s3.peers[0].root, s3.rows)
  {
    var again := s.rows.moves[x];
    RecreateAccepted(s.rows, x, move, cap);
    assert Init(x) in s.rows.moves && Init(x) != x;
    s1 := DeleteTurn(s, Init(x), x, orders[0], cap);
    s2 := CreateTurn(s1, 1, Init(x), Init(x), again, orders[1], cap);
    s3 := CreateTurn(s2, 0, Init(x), x, move, orders[2], cap);
  }

  /**
   From any two settled clients that agree, that is a run. Every message of it is
   accepted and delivered before the next edit, yet the two clients end up apart:
   the move sits under the parent at its maker and under x everywhere else.
   */
  lemma RecreatedPathDiverges(s: State, x: string, move: MoveData, orders: seq<seq<string>>, cap: nat)
    requires Settled(s) && Synced(s) && PathExists(s.rows, x) && MoveCount(s.rows.moves) + 1 < cap
    requires |move.id| == 2 && move.training == map[] && |orders| == 3
    requires var (rows0, rows1, rows2) := RecreateRows(s.rows, x, cap);
             SortedKeys(Joined(rows0), orders[0]) && SortedKeys(Joined(rows1), orders[1])
             && SortedKeys(Joined(rows2), orders[2])
    ensures var steps := RecreateSteps(x, s.rows.moves[x], move, orders);
            && IsRun(s, steps, cap)
            && Settled(EndOf(s, steps, cap))
            && !Agrees(EndOf(s, steps, cap).peers[0].root, EndOf(s, steps, cap).rows)
  {
    var again, h := s.rows.moves[x], InTree(Init(x));
    var delete, create, make := NodeDeleted(x), MoveCreated(Init(x), again), MoveCreated(x, move);
    var s1, s2, s3 := RecreateStates(s, x, move, orders, cap);
    TurnFirst(s2, 0, h, make, orders[2], [], cap);
    TurnFirst(s1, 1, h, create, orders[1], Turn(0, h, make, orders[2]) + [], cap);
    TurnFirst(s, 0, h, delete, orders[0],
              Turn(1, h, create, orders[1]) + (Turn(0, h, make, orders[2]) + []), cap);
  }
}
