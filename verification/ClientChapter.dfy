/**
 A chapter as the browser holds it (frontend/src/store/state.ts): the move tree
 and two incremental counters. Each function is the effect of one store action
 on the chapter; TrainerStore.dfy holds the actions themselves. The counters
 are compared with the full recount of frontend/src/util/chapters.ts.
 */
module ClientChapter {
  import opened Wrappers
  import opened Paths
  import opened MoveTree

  datatype Client = Client(root: Tree, enabledCount: int, unseenCount: int)

  /** `userCard` for the current user key; None while the user is not known. */
  function UserCard(d: MoveData, key: Option<string>): Option<Card> {
    if key.Some? && key.value in d.training then Some(d.training[key.value]) else None
  }

  /** A card put on a move is that user's card, everyone else keeps theirs, and nobody has none. */
  lemma CardOfUser(d: MoveData, user: string, card: Card, key: Option<string>)
    ensures UserCard(Carding(user, card)(d), key) == if key == Some(user) then Some(card) else UserCard(d, key)
    ensures UserCard(d.(training := map[]), key) == None && UserCard(d, None) == None
  {
  }

  predicate IsEnabled(d: MoveData) {
    d.enabled
  }

  predicate Unseen(d: MoveData, key: Option<string>) {
    d.enabled && UserCard(d, key).None?
  }

  function UnseenBy(key: Option<string>): MoveData -> bool {
    (d: MoveData) => Unseen(d, key)
  }

  /** The counters agree with what `parseChapters` would compute. */
  predicate Exact(c: Client, key: Option<string>) {
    c.enabledCount == Count(c.root, IsEnabled) && c.unseenCount == Count(c.root, UnseenBy(key))
  }

  /** `parseChapters`: one traversal that fills both counters from scratch. */
  method ParseChapter(root: Tree, key: Option<string>) returns (c: Client)
    ensures c.root == root && Exact(c, key)
  {
    var enabled, unseen := Recount(root, key, 0, 0);
    c := Client(root, enabled, unseen);
  }

  method Recount(node: Tree, key: Option<string>, enabled0: int, unseen0: int) returns (enabled: int, unseen: int)
    ensures enabled == enabled0 + Count(node, IsEnabled)
    ensures unseen == unseen0 + Count(node, UnseenBy(key))
    decreases node
  {
    enabled, unseen := enabled0, unseen0;
    if node.data.enabled {
      enabled := enabled + 1;
      if UserCard(node.data, key).None? {
        unseen := unseen + 1;
      }
    }
    var i := 0;
    while i < |node.children|
      invariant 0 <= i <= |node.children|
      invariant enabled + CountAll(node.children[i..], IsEnabled) == enabled0 + Count(node, IsEnabled)
      invariant unseen + CountAll(node.children[i..], UnseenBy(key)) == unseen0 + Count(node, UnseenBy(key))
    {
      assert node.children[i..][1..] == node.children[i + 1..];
      enabled, unseen := Recount(node.children[i], key, enabled, unseen);
      i := i + 1;
    }
  }

  function One(b: bool): nat {
    if b then 1 else 0
  }

  // ----- effects -----

  /** `makeMove` pushing a new move under the selected node. */
  function Made(c: Client, at: string, move: MoveData): Client {
    Client(UpdateAt(c.root, at, Pushing(Node(move, []))),
           c.enabledCount + One(move.enabled), c.unseenCount + One(move.enabled))
  }

  /** `addMove`: None when the parent is missing, which makes the client resync. */
  function Added(c: Client, path: string, move: MoveData, key: Option<string>): Option<Client> {
    if !Reaches(c.root, path) then None
    else Some(Client(UpdateAt(c.root, path, Pushing(Node(move, []))),
                     c.enabledCount + One(move.enabled), c.unseenCount + One(UserCard(move, key).None?)))
  }

  /** `deleteLine` and `deleteNodeRemote`: the counts are taken at `nodeAtPath`. */
  function Deleted(c: Client, path: string, key: Option<string>): Client {
    var node := NodeAtPath(c.root, path);
    Client(DeleteNodeAt(c.root, path),
           c.enabledCount - Count(node, IsEnabled), c.unseenCount - Count(node, UnseenBy(key)))
  }

  /** `setCommentAt` and `setCommentRemote`: written at `nodeAtPath`. */
  function Commented(c: Client, path: string, comment: string): Client {
    c.(root := UpdateNearest(c.root, path, Writing(Commenting(comment))))
  }

  /** `updateTrainingRemote`: written at `nodeAtPath`, counters untouched. */
  function Carded(c: Client, path: string, user: string, card: Card): Client {
    c.(root := UpdateNearest(c.root, path, Writing(Carding(user, card))))
  }

  /** `learn`: the target gets its first card. A target that left the tree still lowers the counter. */
  function Learned(c: Client, target: string, user: string, card: Card): Client {
    c.(root := UpdateAt(c.root, target, Writing(Carding(user, card))), unseenCount := c.unseenCount - 1)
  }

  /** `train`: a card that exists is replaced. */
  function Trained(c: Client, target: string, user: string, card: Card): Client {
    c.(root := UpdateAt(c.root, target, Writing(Carding(user, card))))
  }

  // ----- counters -----

  lemma CountLeaf(move: MoveData, test: MoveData -> bool)
    ensures Count(Node(move, []), test) == if test(move) then 1 else 0
  {
  }

  lemma CountPush(t: Tree, path: string, move: MoveData, test: MoveData -> bool)
    requires Reaches(t, path)
    ensures Count(UpdateAt(t, path, Pushing(Node(move, []))), test) == Count(t, test) + if test(move) then 1 else 0
  {
    var n := NodeAtPathOrNull(t, path).value;
    CountUpdate(t, path, Pushing(Node(move, [])), test);
    CountAllSplit(n.children, [Node(move, [])], test);
    CountLeaf(move, test);
  }

  lemma CountWrite(t: Tree, path: string, g: MoveData -> MoveData, test: MoveData -> bool)
    requires Reaches(t, path)
    ensures var d := View(t, path).value;
            Count(UpdateAt(t, path, Writing(g)), test) ==
            Count(t, test) - (if test(d) then 1 else 0) + if test(g(d)) then 1 else 0
  {
    CountUpdate(t, path, Writing(g), test);
  }

  /** A move made in the UI starts without cards, so both counters follow its enabled flag. */
  lemma MadeExact(c: Client, at: string, move: MoveData, key: Option<string>)
    requires Exact(c, key) && Reaches(c.root, at) && move.training == map[]
    ensures Exact(Made(c, at, move), key)
  {
    CountPush(c.root, at, move, IsEnabled);
    CountPush(c.root, at, move, UnseenBy(key));
  }

  /** `addMove` counts a disabled move without a card as unseen: the recount does not. */
  lemma AddedExactIff(c: Client, path: string, move: MoveData, key: Option<string>)
    requires Exact(c, key) && Reaches(c.root, path)
    ensures Exact(Added(c, path, move, key).value, key) <==> move.enabled || UserCard(move, key).Some?
  {
    CountPush(c.root, path, move, IsEnabled);
    CountPush(c.root, path, move, UnseenBy(key));
  }

  /** The children that the delete takes away. */
  function RemovedBy(t: Tree, path: string, test: MoveData -> bool): nat {
    CountRemoved(NodeAtPath(t, Init(path)).children, Last(path), test)
  }

  lemma CountDelete(t: Tree, path: string, test: MoveData -> bool)
    ensures Count(DeleteNodeAt(t, path), test) == Count(t, test) - RemovedBy(t, path, test)
  {
    NodeAtPathReached(t, Init(path));
    var parent := NodeAtPath(t, Init(path));
    CountUpdate(t, ReachedPart(t, Init(path)), Removing(Last(path)), test);
    CountWithout(parent.children, Last(path), test);
  }

  lemma {:induction false} EnabledCoversUnseen(t: Tree, key: Option<string>)
    ensures Count(t, UnseenBy(key)) <= Count(t, IsEnabled)
    decreases t, 1
  {
    AllEnabledCoversUnseen(t.children, key);
  }

  lemma {:induction false} AllEnabledCoversUnseen(kids: seq<Tree>, key: Option<string>)
    ensures CountAll(kids, UnseenBy(key)) <= CountAll(kids, IsEnabled)
    decreases kids, 0
  {
    if kids != [] {
      EnabledCoversUnseen(kids[0], key);
      AllEnabledCoversUnseen(kids[1..], key);
    }
  }

  /** Deleting a move that is in the tree keeps both counters. */
  lemma DeletedExact(c: Client, path: string, key: Option<string>)
    requires WellFormed(c.root) && Exact(c, key) && Reaches(c.root, path) && path != ""
    ensures Exact(Deleted(c, path, key), key)
  {
    DeleteReaches(c.root, path);
    NodeAtPathReached(c.root, path);
    NodeAtPathReached(c.root, Init(path));
    HeadTail(path);
    var parent := NodeAtPath(c.root, Init(path));
    ReachesWhole(c.root, Init(path));
    NotChild(c.root, Init(path), Last(path));
    NodeAtAppend(c.root, Init(path), Last(path));
    CountDelete(c.root, path, IsEnabled);
    CountDelete(c.root, path, UnseenBy(key));
    CountRemovedDistinct(parent.children, Last(path), IsEnabled);
    CountRemovedDistinct(parent.children, Last(path), UnseenBy(key));
  }

  lemma {:induction false} MissedParent(t: Tree, path: string)
    requires Whole(path) && (Reaches(t, path) ==> path == "")
    ensures NodeAtPath(t, Init(path)) == NodeAtPath(t, path)
    decreases |path|
  {
    if path != "" {
      var i := ChildIndex(t.children, Head(path));
      if i < |t.children| {
        assert NodeAtPathOrNull(t.children[i], "").Some?;
        assert Head(Init(path)) == Head(path) && Tail(Init(path)) == Init(Tail(path));
        MissedParent(t.children[i], Tail(path));
      } else if Init(path) != "" {
        assert Head(Init(path)) == Head(path);
      }
    }
  }

  predicate AllDisabled(t: Tree)
    decreases t
  {
    !t.data.enabled && forall i :: 0 <= i < |t.children| ==> AllDisabled(t.children[i])
  }

  /** Nothing at the node or below it is enabled, its children with this id aside. */
  predicate DisabledOutside(t: Tree, id: string) {
    && !t.data.enabled
    && forall i :: 0 <= i < |t.children| && t.children[i].data.id != id ==> AllDisabled(t.children[i])
  }

  lemma {:induction false} NoneEnabled(t: Tree)
    ensures Count(t, IsEnabled) == 0 <==> AllDisabled(t)
    decreases t, 1
  {
    NoneEnabledAmong(t.children);
  }

  lemma {:induction false} NoneEnabledAmong(kids: seq<Tree>)
    ensures CountAll(kids, IsEnabled) == 0 <==> forall i :: 0 <= i < |kids| ==> AllDisabled(kids[i])
    decreases kids, 0
  {
    if kids != [] {
      NoneEnabled(kids[0]);
      NoneEnabledAmong(kids[1..]);
      assert forall i :: 1 <= i < |kids| ==> kids[i] == kids[1..][i - 1];
    }
  }

  /** What stays of a node after the removal holds nothing enabled. */
  lemma NoneEnabledOutside(t: Tree, id: string)
    ensures (!t.data.enabled && CountAll(Without(t.children, id), IsEnabled) == 0) <==> DisabledOutside(t, id)
  {
    var kept := Without(t.children, id);
    NoneEnabledAmong(kept);
    assert (forall i :: 0 <= i < |kept| ==> AllDisabled(kept[i])) <==> (forall c :: c in kept ==> AllDisabled(c));
    assert (forall i :: 0 <= i < |t.children| && t.children[i].data.id != id ==> AllDisabled(t.children[i])) <==>
           (forall c :: c in t.children && c.data.id != id ==> AllDisabled(c));
  }

  /** Nothing enabled in the children with this id after the first one. */
  predicate LaterTwinsDisabled(kids: seq<Tree>, id: string) {
    forall i :: ChildIndex(kids, id) < i < |kids| && kids[i].data.id == id ==> AllDisabled(kids[i])
  }

  lemma {:induction false} NoneEnabledRemoved(kids: seq<Tree>, id: string)
    ensures CountRemoved(kids, id, IsEnabled) == 0 <==>
            forall i :: 0 <= i < |kids| && kids[i].data.id == id ==> AllDisabled(kids[i])
  {
    if kids != [] {
      NoneEnabled(kids[0]);
      NoneEnabledRemoved(kids[1..], id);
      assert forall i :: 1 <= i < |kids| ==> kids[i] == kids[1..][i - 1];
    }
  }

  /** What goes besides the first child with the id. */
  lemma {:induction false} RemovedSplit(kids: seq<Tree>, id: string, test: MoveData -> bool)
    requires ChildIndex(kids, id) < |kids|
    ensures var i := ChildIndex(kids, id);
            CountRemoved(kids, id, test) == Count(kids[i], test) + CountRemoved(kids[i + 1..], id, test)
  {
    var i := ChildIndex(kids, id);
    if i > 0 {
      RemovedSplit(kids[1..], id, test);
      assert kids[1..][i..] == kids[i + 1..];
    }
  }

  lemma {:induction false} RemovedUnseen(kids: seq<Tree>, id: string, key: Option<string>)
    ensures CountRemoved(kids, id, UnseenBy(key)) <= CountRemoved(kids, id, IsEnabled)
  {
    if kids != [] {
      EnabledCoversUnseen(kids[0], key);
      RemovedUnseen(kids[1..], id, key);
    }
  }

  /** A delete of a move that is there, even when siblings share an id: look-up takes the first, removal all. */
  lemma PresentDeleteIff(c: Client, path: string, key: Option<string>)
    requires Exact(c, key) && Whole(path) && path != "" && Reaches(c.root, path)
    ensures Exact(Deleted(c, path, key), key) <==>
            LaterTwinsDisabled(NodeAtPath(c.root, Init(path)).children, Last(path))
  {
    var kids, id := NodeAtPath(c.root, Init(path)).children, Last(path);
    assert ChildIndex(kids, id) < |kids| by { FoundChild(c.root, path); }
    TwinsMissed(c.root, path, IsEnabled);
    TwinsMissed(c.root, path, UnseenBy(key));
    RemovedUnseen(LaterKids(kids, id), id, key);
    TwinsDisabledIff(kids, id);
  }

  /** The children after the first one with the id. */
  function LaterKids(kids: seq<Tree>, id: string): seq<Tree>
    requires ChildIndex(kids, id) < |kids|
  {
    kids[ChildIndex(kids, id) + 1..]
  }

  lemma TwinsDisabledIff(kids: seq<Tree>, id: string)
    requires ChildIndex(kids, id) < |kids|
    ensures LaterTwinsDisabled(kids, id) <==> CountRemoved(LaterKids(kids, id), id, IsEnabled) == 0
  {
    var i, later := ChildIndex(kids, id), LaterKids(kids, id);
    NoneEnabledRemoved(later, id);
    if LaterTwinsDisabled(kids, id) {
      forall j | 0 <= j < |later| && later[j].data.id == id
        ensures AllDisabled(later[j])
      {
        assert later[j] == kids[i + 1 + j];
      }
    } else {
      var j :| i < j < |kids| && kids[j].data.id == id && !AllDisabled(kids[j]);
      assert later[j - i - 1] == kids[j];
    }
  }

  /** The counts taken at `nodeAtPath` miss the later children that the removal takes away as well. */
  lemma TwinsMissed(t: Tree, path: string, test: MoveData -> bool)
    requires Whole(path) && path != "" && Reaches(t, path)
    ensures var kids := NodeAtPath(t, Init(path)).children;
            && ChildIndex(kids, Last(path)) < |kids|
            && Count(DeleteNodeAt(t, path), test) + CountRemoved(LaterKids(kids, Last(path)), Last(path), test) ==
               Count(t, test) - Count(NodeAtPath(t, path), test)
  {
    var kids := NodeAtPath(t, Init(path)).children;
    assert ChildIndex(kids, Last(path)) < |kids| && kids[ChildIndex(kids, Last(path))] == NodeAtPath(t, path) by {
      FoundChild(t, path);
    }
    CountDelete(t, path, test);
    RemovedSplit(kids, Last(path), test);
  }

  /** The move at a path is the first child of its parent with its id. */
  lemma FoundChild(t: Tree, path: string)
    requires Whole(path) && path != "" && Reaches(t, path)
    ensures var kids := NodeAtPath(t, Init(path)).children;
            ChildIndex(kids, Last(path)) < |kids| && kids[ChildIndex(kids, Last(path))] == NodeAtPath(t, path)
  {
    var u, id := Init(path), Last(path);
    InitWhole(path);
    HeadTail(path);
    ReachesPrefix(t, u, path);
    NodeAtPathReached(t, u);
    NodeAtPathReached(t, path);
    NodeAtAppend(t, u, id);
    assert Head(id) == id && Tail(id) == "";
  }

  /**
   The whole answer for a delete, in any tree. The guard meant to catch a missing
   path never fires, because `nodeAtPath` always returns a node. For a missing
   path the counters lose the nearest ancestor's whole subtree, and stay right
   only when that ancestor has nothing enabled outside the children that happen
   to carry the path's last id. For a present one they miss its later twins.
   */
  lemma DeletedExactIff(c: Client, path: string, key: Option<string>)
    requires Exact(c, key) && Whole(path)
    ensures Exact(Deleted(c, path, key), key) <==>
            if path != "" && Reaches(c.root, path)
            then LaterTwinsDisabled(NodeAtPath(c.root, Init(path)).children, Last(path))
            else DisabledOutside(NodeAtPath(c.root, path), Last(path))
  {
    if path != "" && Reaches(c.root, path) {
      PresentDeleteIff(c, path, key);
    } else {
      var near := NodeAtPath(c.root, path);
      MissedParent(c.root, path);
      DeletedCounts(c.root, path, IsEnabled);
      DeletedCounts(c.root, path, UnseenBy(key));
      NoneEnabledOutside(near, Last(path));
      AllEnabledCoversUnseen(Without(near.children, Last(path)), key);
    }
  }

  /** How far the count falls behind when the parent is what `nodeAtPath` returns. */
  lemma DeletedCounts(t: Tree, path: string, test: MoveData -> bool)
    requires NodeAtPath(t, Init(path)) == NodeAtPath(t, path)
    ensures var near := NodeAtPath(t, path);
            Count(DeleteNodeAt(t, path), test) - (Count(t, test) - Count(near, test)) ==
            One(test(near.data)) + CountAll(Without(near.children, Last(path)), test)
  {
    CountDelete(t, path, test);
    CountWithout(NodeAtPath(t, path).children, Last(path), test);
  }

  lemma {:induction false} WithoutSame(kids: seq<Tree>, id: string)
    ensures Without(kids, id) == kids <==> forall i :: 0 <= i < |kids| ==> kids[i].data.id != id
  {
    if kids != [] {
      WithoutSame(kids[1..], id);
      assert forall i :: 1 <= i < |kids| ==> kids[i] == kids[1..][i - 1];
      if kids[0].data.id == id {
        WithoutShorter(kids[1..], id);
      }
    }
  }

  lemma WithoutShorter(kids: seq<Tree>, id: string)
    ensures |Without(kids, id)| <= |kids|
  {
  }

  /**
   What a delete of a missing path does to the tree: nothing, exactly when the
   nearest ancestor has no child with the path's last id. Otherwise it removes
   that child, a move nobody asked to delete.
   */
  lemma DriftedDeleteIff(t: Tree, path: string)
    requires WellFormed(t) && Whole(path) && !Reaches(t, path)
    ensures DeleteNodeAt(t, path) == t <==> !HasChild(NodeAtPath(t, path), Last(path))
    ensures HasChild(NodeAtPath(t, path), Last(path)) ==>
      var other := ReachedPart(t, path) + Last(path);
      Reaches(t, other) && DeleteNodeAt(t, path) == DeleteNodeAt(t, other)
  {
    var at, id := ReachedPart(t, path), Last(path);
    var n := NodeAtPath(t, path);
    MissedParent(t, path);
    SameReach(t, path);
    NodeAtPathReached(t, path);
    UpdateReplaces(t, at, Removing(id));
    WithoutSame(n.children, id);
    if HasChild(n, id) {
      ReachesWhole(t, at);
      assert |id| == 2;
      InitLastOf(at, id);
      NotChild(t, at, id);
      DeleteReaches(t, at + id);
    } else {
      assert Removing(id)(n) == n;
      UpdateSame(t, at, Removing(id));
    }
  }

  /** A missing path and its parent's path are followed equally far. */
  lemma {:induction false} SameReach(t: Tree, path: string)
    requires WellFormed(t) && Whole(path) && !Reaches(t, path)
    ensures ReachedPart(t, Init(path)) == ReachedPart(t, path)
    decreases |path|
  {
    var i := ChildIndex(t.children, Head(path));
    if i < |t.children| {
      assert NodeAtPathOrNull(t.children[i], "").Some?;
      assert Head(Init(path)) == Head(path) && Tail(Init(path)) == Init(Tail(path));
      SameReach(t.children[i], Tail(path));
    } else if Init(path) != "" {
      assert Head(Init(path)) == Head(path);
    }
  }

  lemma {:induction false} UpdateSame(t: Tree, p: string, f: Tree -> Tree)
    requires Reaches(t, p) && f(NodeAtPathOrNull(t, p).value) == NodeAtPathOrNull(t, p).value
    ensures UpdateAt(t, p, f) == t
    decreases |p|
  {
    if p != "" {
      var i := ChildIndex(t.children, Head(p));
      UpdateSame(t.children[i], Tail(p), f);
      assert t.children[i := t.children[i]] == t.children;
    }
  }

  /** A delete that lost its parent can remove an unrelated move of the same id. */
  lemma DriftedDeleteHitsAnotherMove(t: Tree, missing: string, id: string)
    requires WellFormed(t) && |missing| == 2 && |id| == 2
    requires !Reaches(t, missing) && Reaches(t, id)
    ensures !Reaches(t, missing + id) && Reaches(t, id) && !Reaches(DeleteNodeAt(t, missing + id), id)
  {
    InitLastOf(missing, id);
    NodeAtAppend(t, missing, id);
    assert Head(missing) == missing && Tail(missing) == "" && Head(id) == id && Tail(id) == "";
    assert ReachedPart(t, missing) == "";
    assert DeleteNodeAt(t, missing + id) == Removing(id)(t);
    RemoveView(t, id, id);
  }

  lemma CommentedExact(c: Client, path: string, comment: string, key: Option<string>)
    requires Exact(c, key)
    ensures Exact(Commented(c, path, comment), key)
  {
    NodeAtPathReached(c.root, path);
    var at := ReachedPart(c.root, path);
    CountWrite(c.root, at, Commenting(comment), IsEnabled);
    CountWrite(c.root, at, Commenting(comment), UnseenBy(key));
  }

  /** A remote card leaves the counters right unless it is the user's own first card there. */
  lemma CardedExactIff(c: Client, path: string, user: string, card: Card, key: Option<string>)
    requires Exact(c, key)
    ensures Exact(Carded(c, path, user, card), key) <==>
            !(Some(user) == key && Unseen(NodeAtPath(c.root, path).data, key))
  {
    NodeAtPathReached(c.root, path);
    var at := ReachedPart(c.root, path);
    CountWrite(c.root, at, Carding(user, card), IsEnabled);
    CountWrite(c.root, at, Carding(user, card), UnseenBy(key));
  }

  /** Learning is right exactly on a target that is in the tree and unseen. */
  lemma LearnedExactIff(c: Client, target: string, user: string, card: Card)
    requires Exact(c, Some(user))
    ensures Exact(Learned(c, target, user, card), Some(user)) <==>
            Reaches(c.root, target) && Unseen(View(c.root, target).value, Some(user))
  {
    if Reaches(c.root, target) {
      CountWrite(c.root, target, Carding(user, card), IsEnabled);
      CountWrite(c.root, target, Carding(user, card), UnseenBy(Some(user)));
    } else {
      UpdateMissing(c.root, target, Writing(Carding(user, card)));
    }
  }

  lemma TrainedExact(c: Client, target: string, user: string, card: Card)
    requires Exact(c, Some(user))
    requires Reaches(c.root, target) ==> UserCard(View(c.root, target).value, Some(user)).Some?
    ensures Exact(Trained(c, target, user, card), Some(user))
  {
    if Reaches(c.root, target) {
      CountWrite(c.root, target, Carding(user, card), IsEnabled);
      CountWrite(c.root, target, Carding(user, card), UnseenBy(Some(user)));
    } else {
      UpdateMissing(c.root, target, Writing(Carding(user, card)));
    }
  }

  // ----- whole runs -----

  datatype Action =
    | Make(at: string, move: MoveData)
    | Add(path: string, move: MoveData)
    | Delete(path: string)
    | Comment(path: string, text: string)
    | Learn(target: string, card: Card)
    | Train(target: string, card: Card)
    | RemoteCard(path: string, user: string, card: Card)

  function Perform(c: Client, a: Action, user: string): Client {
    match a
    case Make(at, move) => Made(c, at, move)
    case Add(path, move) =>
      (match Added(c, path, move, Some(user)) case None => c case Some(c') => c')
    case Delete(path) => Deleted(c, path, Some(user))
    case Comment(path, text) => Commented(c, path, text)
    case Learn(target, card) => Learned(c, target, user, card)
    case Train(target, card) => Trained(c, target, user, card)
    case RemoteCard(path, other, card) => Carded(c, path, other, card)
  }

  /** The tree has no move at this path yet, and the id is a character pair. */
  predicate NewMove(t: Tree, path: string, move: MoveData) {
    |move.id| == 2 && Reaches(t, path) && !Reaches(t, path + move.id)
  }

  /** What the UI and the room offer an up-to-date client. */
  predicate Sensible(c: Client, a: Action, user: string) {
    match a
    case Make(at, move) => NewMove(c.root, at, move) && move.training == map[]
    case Add(path, move) => Reaches(c.root, path) ==> NewMove(c.root, path, move) && move.enabled
    case Delete(path) => path != "" && Reaches(c.root, path)
    case Comment(_, _) => true
    case Learn(target, _) => Reaches(c.root, target) && Unseen(View(c.root, target).value, Some(user))
    case Train(target, _) => Reaches(c.root, target) && UserCard(View(c.root, target).value, Some(user)).Some?
    case RemoteCard(_, other, _) => other != user
  }

  function PerformAll(c: Client, actions: seq<Action>, user: string): Client
    decreases |actions|
  {
    if actions == [] then c else PerformAll(Perform(c, actions[0], user), actions[1..], user)
  }

  predicate AllSensible(c: Client, actions: seq<Action>, user: string)
    decreases |actions|
  {
    actions == [] || (Sensible(c, actions[0], user) && AllSensible(Perform(c, actions[0], user), actions[1..], user))
  }

  lemma PerformWellFormed(c: Client, a: Action, user: string)
    requires WellFormed(c.root) && Sensible(c, a, user)
    ensures WellFormed(Perform(c, a, user).root)
  {
    match a
    case Make(at, move) => PushWellFormed(c.root, at, Node(move, []));
    case Add(path, move) =>
      if Reaches(c.root, path) {
        PushWellFormed(c.root, path, Node(move, []));
      }
    case Delete(path) => DeleteWellFormed(c.root, path);
    case Comment(path, text) =>
      NodeAtPathReached(c.root, path);
      ViewWrite(c.root, ReachedPart(c.root, path), Commenting(text), "");
    case Learn(target, card) => ViewWrite(c.root, target, Carding(user, card), "");
    case Train(target, card) => ViewWrite(c.root, target, Carding(user, card), "");
    case RemoteCard(path, other, card) =>
      NodeAtPathReached(c.root, path);
      ViewWrite(c.root, ReachedPart(c.root, path), Carding(other, card), "");
  }

  lemma PerformExact(c: Client, a: Action, user: string)
    requires WellFormed(c.root) && Exact(c, Some(user)) && Sensible(c, a, user)
    ensures Exact(Perform(c, a, user), Some(user))
  {
    match a
    case Make(at, move) => MadeExact(c, at, move, Some(user));
    case Add(path, move) =>
      if Reaches(c.root, path) {
        AddedExactIff(c, path, move, Some(user));
      }
    case Delete(path) => DeletedExact(c, path, Some(user));
    case Comment(path, text) => CommentedExact(c, path, text, Some(user));
    case Learn(target, card) => LearnedExactIff(c, target, user, card);
    case Train(target, card) => TrainedExact(c, target, user, card);
    case RemoteCard(path, other, card) => CardedExactIff(c, path, other, card, Some(user));
  }

  /** After every run of sensible actions the counters equal the recount. */
  lemma {:induction false} CountersAgree(c: Client, actions: seq<Action>, user: string)
    requires WellFormed(c.root) && Exact(c, Some(user)) && AllSensible(c, actions, user)
    ensures WellFormed(PerformAll(c, actions, user).root)
    ensures Exact(PerformAll(c, actions, user), Some(user))
    decreases |actions|
  {
    if actions != [] {
      PerformWellFormed(c, actions[0], user);
      PerformExact(c, actions[0], user);
      CountersAgree(Perform(c, actions[0], user), actions[1..], user);
    }
  }
}
