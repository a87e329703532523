/**
 The store actions that change the selected chapter
 (frontend/src/store/state.ts), as methods of an object whose fields they
 update. The tree is a value: a node object that the store holds is named by the
 path at which it sits, and becomes a value of its own once it has left the tree.
 */
module TrainerStore {
  import opened Wrappers
  import opened Paths
  import opened MoveTree
  import opened ClientChapter
  import opened HeldNodes
  import opened Messages
  import TrainableSearch

  datatype Color = White | Black

  datatype Target = Target(startingPath: string, move: Held)

  /** What chessops makes of a move typed in a position: id, canonical SAN, next position. */
  datatype Played = Played(id: string, san: string, fen: string)

  function ColorFromPly(ply: int): Color {
    if ply % 2 == 1 then White else Black
  }

  /** The nodes from the root along a path, as far as it can be followed. */
  function Spine(t: Tree, path: string): (nodes: seq<Tree>)
    ensures |nodes| >= 1
    decreases |path|
  {
    if path == "" then [t]
    else
      var i := ChildIndex(t.children, Head(path));
      if i < |t.children| then [t] + Spine(t.children[i], Tail(path)) else [t]
  }

  lemma SpineStep(t: Tree, path: string)
    requires path != "" && HasChild(t, Head(path))
    ensures var c := t.children[ChildIndex(t.children, Head(path))];
            Spine(t, path) == [t] + Spine(c, Tail(path)) && Spine(t, path)[1..] == [c] + Spine(c, Tail(path))[1..]
  {
    var c := t.children[ChildIndex(t.children, Head(path))];
    assert Spine(c, Tail(path))[0] == c;
  }

  /** `getNodeList`: the closure's `path` and `collect`'s `n` are the loop variables. */
  method GetNodeList(root: Tree, path: string) returns (nodes: seq<Tree>)
    ensures nodes == Spine(root, path)
  {
    nodes := [root];
    var n, rest := root, path;
    while rest != "" && HasChild(n, Head(rest))
      invariant nodes + Spine(n, rest)[1..] == Spine(root, path)
      decreases |rest|
    {
      SpineStep(n, rest);
      var c := n.children[ChildIndex(n.children, Head(rest))];
      assert nodes + ([c] + Spine(c, Tail(rest))[1..]) == (nodes + [c]) + Spine(c, Tail(rest))[1..];
      nodes, n, rest := nodes + [c], c, Tail(rest);
    }
    assert Spine(n, rest) == [n] && nodes + [] == nodes;
  }

  /** `fromNodeList` over a list of nodes. */
  method FromNodeList(nodes: seq<Tree>) returns (path: string)
    ensures path == IdsOf(nodes)
  {
    path := "";
    for i := 0 to |nodes|
      invariant path + IdsOf(nodes[i..]) == IdsOf(nodes)
    {
      assert nodes[i..][1..] == nodes[i + 1..];
      path := path + nodes[i].data.id;
    }
  }

  function IdsOf(nodes: seq<Tree>): string {
    if nodes == [] then "" else nodes[0].data.id + IdsOf(nodes[1..])
  }

  /** Listing the nodes of a path and reading their ids back gives the part that was followed. */
  lemma {:induction false} SpineRoundTrip(t: Tree, path: string)
    ensures IdsOf(Spine(t, path)[1..]) == ReachedPart(t, path)
    ensures Spine(t, path)[|Spine(t, path)| - 1] == NodeAtPath(t, path)
    decreases |path|
  {
    if path != "" && HasChild(t, Head(path)) {
      var c := t.children[ChildIndex(t.children, Head(path))];
      var rest := Spine(c, Tail(path))[1..];
      assert IdsOf(rest) == ReachedPart(c, Tail(path)) by {
        SpineRoundTrip(c, Tail(path));
      }
      assert Spine(t, path)[|Spine(t, path)| - 1] == NodeAtPath(t, path) by {
        SpineRoundTrip(c, Tail(path));
        SpineStep(t, path);
      }
      SpineStep(t, path);
      IdsOfCons(c, rest);
    }
  }

  lemma IdsOfCons(c: Tree, rest: seq<Tree>)
    ensures IdsOf([c] + rest) == c.data.id + IdsOf(rest)
  {
    assert ([c] + rest)[1..] == rest;
  }

  /** `children.find(x => x.data.san === san)` */
  function SanIndex(kids: seq<Tree>, san: string): (i: nat)
    ensures i <= |kids|
    ensures i < |kids| ==> kids[i].data.san == san
    ensures forall j :: 0 <= j < i ==> kids[j].data.san != san
  {
    if kids == [] || kids[0].data.san == san then 0 else 1 + SanIndex(kids[1..], san)
  }

  /** The node data `makeMove` builds under a parent. */
  function NewMoveData(parent: MoveData, trainAs: Color, played: Played): MoveData {
    MoveData(played.id, played.fen, parent.ply + 1, played.san, "", ColorFromPly(parent.ply) != trainAs, map[])
  }

  /**
   A move as the board makes it: one ply on, without comment or cards, and to be
   trained exactly when the side that makes it is the trained one. White makes
   the moves of odd plies.
   */
  predicate TypedBy(parent: MoveData, trainAs: Color, played: Played, move: MoveData) {
    && move.id == played.id && move.san == played.san && move.fen == played.fen
    && move.ply == parent.ply + 1 && move.comment == "" && move.training == map[]
    && (move.enabled <==> trainAs == if move.ply % 2 == 1 then White else Black)
  }

  // ----- held nodes -----

  function KeptNode(before: Tree, after: Tree, node: Option<Held>): Option<Held>
    requires node.Some? ==> Holding(before, node.value).Some?
  {
    match node case None => None case Some(h) => Some(Kept(before, after, h))
  }

  function KeptTarget(before: Tree, after: Tree, target: Option<Target>): Option<Target>
    requires target.Some? ==> Holding(before, target.value.move).Some?
  {
    match target case None => None case Some(x) => Some(x.(move := Kept(before, after, x.move)))
  }

  // ----- the next position to train -----

  predicate Trains(mode: Option<TrainingMethod>) {
    mode.Some? && mode.value != EditMode
  }

  function TargetFor(t: Tree, c: TrainableSearch.Context): Target {
    Target(c.startingPath, Name(t, c.startingPath + c.targetMove.data.id, c.targetMove))
  }

  /**
   What `setNextTrainablePosition` leaves in learn and recall mode: the first
   candidate of the search with its parent selected, or nothing at all.
   */
  ghost predicate Positioned(t: Tree, q: TrainableSearch.Query, algorithm: TrainableSearch.Algorithm,
                             path: string, node: Option<Held>, target: Option<Target>)
  {
    || (path == "" && node == None && target == None && forall idx :: !TrainableSearch.Candidate(t, idx, q))
    || exists idx ::
         && TrainableSearch.FirstCandidate(t, idx, q, algorithm)
         && var c := TrainableSearch.ContextAt(t, idx);
            && path == c.startingPath && node == Some(InTree(ReachedPart(t, path)))
            && target == Some(TargetFor(t, c))
  }

  lemma NotPositioned(t: Tree, q: TrainableSearch.Query, algorithm: TrainableSearch.Algorithm)
    requires forall idx :: !TrainableSearch.Candidate(t, idx, q)
    ensures Positioned(t, q, algorithm, "", None, None)
  {
  }

  lemma PositionedAt(t: Tree, q: TrainableSearch.Query, algorithm: TrainableSearch.Algorithm,
                     c: TrainableSearch.Context)
    requires exists idx ::
      TrainableSearch.FirstCandidate(t, idx, q, algorithm) && c == TrainableSearch.ContextAt(t, idx)
    ensures Positioned(t, q, algorithm, c.startingPath, Some(InTree(ReachedPart(t, c.startingPath))),
                       Some(TargetFor(t, c)))
  {
  }

  /** The search's answer, with the node at its starting path. */
  method NextPosition(t: Tree, q: TrainableSearch.Query, algorithm: TrainableSearch.Algorithm)
    returns (path: string, node: Option<Held>, target: Option<Target>)
    ensures Positioned(t, q, algorithm, path, node, target)
    ensures node.Some? ==> Holding(t, node.value).Some?
    ensures target.Some? ==> Holding(t, target.value.move).Some?
  {
    var context := TrainableSearch.ComputeNextTrainableNode(t, q, algorithm);
    match context {
      case None =>
        NotPositioned(t, q, algorithm);
        path, node, target := "", None, None;
      case Some(c) =>
        PositionedAt(t, q, algorithm, c);
        var nodes := GetNodeList(t, c.startingPath);
        var at := FromNodeList(nodes[1..]);
        SpineRoundTrip(t, c.startingPath);
        NodeAtPathReached(t, c.startingPath);
        path, node, target := c.startingPath, Some(InTree(at)), Some(TargetFor(t, c));
    }
  }

  /** In a tree with distinct sibling ids the target is in the tree, right below the selected node. */
  lemma PositionedInTree(t: Tree, q: TrainableSearch.Query, algorithm: TrainableSearch.Algorithm,
                         path: string, node: Option<Held>, target: Option<Target>)
    requires WellFormed(t) && Positioned(t, q, algorithm, path, node, target) && target.Some?
    ensures target.value.startingPath == path && node == Some(InTree(path))
    ensures var h := target.value.move;
            && h.InTree? && Init(h.path) == path && Reaches(t, h.path)
            && h.path == path + NodeAtPathOrNull(t, h.path).value.data.id
            && TrainableSearch.IsMatch(NodeAtPathOrNull(t, h.path).value.data, q)
  {
    var idx :| && TrainableSearch.FirstCandidate(t, idx, q, algorithm)
               && path == TrainableSearch.ContextAt(t, idx).startingPath
               && target == Some(TargetFor(t, TrainableSearch.ContextAt(t, idx)));
    var c := TrainableSearch.ContextAt(t, idx);
    TrainableSearch.AnswerIsInTree(t, idx);
    var p := path + c.targetMove.data.id;
    assert Reaches(t, path) && |c.targetMove.data.id| == 2 by {
      TrainableSearch.ParentAndChild(t, idx);
    }
    InitLastOf(path, c.targetMove.data.id);
    NodeAtPathReached(t, path);
  }

  /** A typed move on a node of the tree keeps both counters, and on any node the plies of the tree. */
  lemma TypedKeeps(c: Client, h: Held, move: MoveData, key: Option<string>)
    requires Holding(c.root, h).Some? && move.training == map[]
    ensures Exact(c, key) && h.InTree? ==> Exact(MadeAt(c, h, move), key)
    ensures PliesCount(c.root) && move.ply == Holding(c.root, h).value.data.ply + 1 ==>
      PliesCount(PushedTree(c.root, h, move))
  {
    if h.InTree? {
      if Exact(c, key) {
        MadeExact(c, h.path, move, key);
      }
      if PliesCount(c.root) && move.ply == Holding(c.root, h).value.data.ply + 1 {
        PushKeepsPlies(c.root, h.path, move);
      }
    }
  }

  /** What goes out over the socket, if it is open. */
  function Outgoing(open: bool, m: Message): seq<Message> {
    if open then [m] else []
  }

  class TrainerStore {
    var user: Option<string>
    var authenticated: bool
    var online: bool
    var trainAs: Color
    var mode: Option<TrainingMethod>
    var limit: int
    var algorithm: TrainableSearch.Algorithm
    var root: Tree
    var enabledCount: int
    var unseenCount: int
    var selectedPath: string
    var selectedNode: Option<Held>
    var target: Option<Target>
    var sent: seq<Message>

    /** The held nodes are where they are said to be. */
    predicate Valid()
      reads this`root, this`selectedNode, this`target
    {
      && (selectedNode.Some? ==> Holding(root, selectedNode.value).Some?)
      && (target.Some? ==> Holding(root, target.value.move).Some?)
    }

    /** The selected node is the one at the selected path. */
    predicate InStep()
      reads this`selectedPath, this`selectedNode
    {
      selectedNode == Some(InTree(selectedPath))
    }

    /** The chapter part of the state, for comparison with the effect functions. */
    function Chapter(): Client
      reads this`root, this`enabledCount, this`unseenCount
    {
      Client(root, enabledCount, unseenCount)
    }

    function QueryAt(now: int): TrainableSearch.Query
      reads this`mode, this`limit, this`user
    {
      TrainableSearch.Query(mode, limit, user, now)
    }

    method Send(m: Message)
      modifies this`sent
      ensures sent == old(sent) + Outgoing(authenticated && online, m)
    {
      if authenticated && online {
        sent := sent + [m];
      }
    }

    method Jump(path: string)
      requires Valid()
      modifies this`selectedPath, this`selectedNode
      ensures Valid()
      ensures selectedPath == path && selectedNode == Some(InTree(ReachedPart(root, path)))
      ensures InStep() <==> Reaches(root, path)
    {
      var nodes := GetNodeList(root, path);
      var at := FromNodeList(nodes[1..]);
      SpineRoundTrip(root, path);
      NodeAtPathReached(root, path);
      selectedPath, selectedNode := path, Some(InTree(at));
    }

    /** `setNextTrainablePosition`, which does nothing in edit mode or without a mode. */
    method SetNextTrainablePosition(now: int)
      requires Valid()
      modifies this`selectedPath, this`selectedNode, this`target
      ensures Valid()
      ensures match mode
              case Some(LearnMode) | Some(RecallMode) =>
                Positioned(root, TrainableSearch.Query(mode, limit, user, now), algorithm,
                           selectedPath, selectedNode, target)
              case _ => selectedPath == old(selectedPath) && selectedNode == old(selectedNode) && target == old(target)
    {
      if Trains(mode) {
        selectedPath, selectedNode, target := NextPosition(root, QueryAt(now), algorithm);
      }
    }

    /** Removes the node and takes its subtree's counts off the counters. */
    method Cut(path: string)
      requires Valid()
      modifies this`root, this`enabledCount, this`unseenCount, this`selectedNode, this`target
      ensures Valid()
      ensures Chapter() == Deleted(old(Chapter()), path, user)
      ensures selectedNode == old(KeptNode(root, DeleteNodeAt(root, path), selectedNode))
      ensures target == old(KeptTarget(root, DeleteNodeAt(root, path), target))
    {
      var enabled, unseen := Recount(NodeAtPath(root, path), user, 0, 0);
      var after := DeleteNodeAt(root, path);
      selectedNode, target := KeptNode(root, after, selectedNode), KeptTarget(root, after, target);
      root := after;
      enabledCount, unseenCount := enabledCount - enabled, unseenCount - unseen;
    }

    method DeleteLine(path: string)
      requires Valid()
      modifies this`root, this`enabledCount, this`unseenCount
      modifies this`selectedPath, this`selectedNode, this`target, this`sent
      ensures Valid()
      ensures Chapter() == Deleted(old(Chapter()), path, user)
      ensures sent == old(sent) + Outgoing(authenticated && online, NodeDeleted(path))
      ensures selectedPath == if Contains(old(selectedPath), path) then Init(path) else path
      ensures selectedNode == Some(InTree(ReachedPart(root, selectedPath)))
      ensures target == old(KeptTarget(root, DeleteNodeAt(root, path), target))
      ensures old(WellFormed(root) && Reaches(root, path) && path != "") ==>
        (InStep() <==> Contains(old(selectedPath), path))
    {
      if WellFormed(root) && Reaches(root, path) && path != "" {
        InStepAfterDelete(root, path, selectedPath);
      }
      Cut(path);
      Send(NodeDeleted(path));
      assert Chapter() == Deleted(old(Chapter()), path, user);
      assert sent == old(sent) + Outgoing(authenticated && online, NodeDeleted(path));
      if Contains(selectedPath, path) {
        Jump(Init(path));
      } else {
        Jump(path);
      }
    }

    method DeleteNodeRemote(path: string, now: int)
      requires Valid()
      modifies this`root, this`enabledCount, this`unseenCount, this`selectedPath, this`selectedNode, this`target
      ensures Valid()
      ensures Chapter() == Deleted(old(Chapter()), path, user)
      ensures !Contains(old(selectedPath), path) ==>
        && selectedPath == old(selectedPath)
        && selectedNode == old(KeptNode(root, DeleteNodeAt(root, path), selectedNode))
      ensures Contains(old(selectedPath), path) && !Trains(mode) ==>
        selectedPath == Init(path) && selectedNode == Some(InTree(ReachedPart(root, Init(path))))
      ensures Contains(old(selectedPath), path) && Trains(mode) ==>
        Positioned(root, QueryAt(now), algorithm, selectedPath, selectedNode, target)
      ensures !(Contains(old(selectedPath), path) && Trains(mode)) ==>
        target == old(KeptTarget(root, DeleteNodeAt(root, path), target))
      ensures old(InStep() && WellFormed(root) && Reaches(root, path) && path != "") && !Trains(mode) ==> InStep()
    {
      if InStep() && WellFormed(root) && Reaches(root, path) && path != "" {
        StaysInStep(root, path, selectedPath);
      }
      Cut(path);
      if Contains(selectedPath, path) {
        MoveOff(path, now);
      }
    }

    /** The selection moves to the parent, and on to the next position to train. */
    method MoveOff(path: string, now: int)
      requires Valid()
      modifies this`selectedPath, this`selectedNode, this`target
      ensures Valid()
      ensures if Trains(mode)
              then Positioned(root, QueryAt(now), algorithm, selectedPath, selectedNode, target)
              else selectedPath == Init(path) && selectedNode == Some(InTree(ReachedPart(root, Init(path))))
                   && target == old(target)
    {
      Jump(Init(path));
      SetNextTrainablePosition(now);
    }

    function NodeOf(h: Held): Tree
      requires Holding(root, h).Some?
      reads this`root
    {
      Holding(root, h).value
    }

    /** The move typed on the board, as it would be added under the held node. */
    function Typed(h: Held, san: string, play: (string, string) -> Played): MoveData
      requires Holding(root, h).Some?
      reads this`root, this`trainAs
    {
      NewMoveData(NodeOf(h).data, trainAs, play(NodeOf(h).data.fen, san))
    }

    predicate Known(h: Held, san: string)
      requires Holding(root, h).Some?
      reads this`root
    {
      SanIndex(NodeOf(h).children, san) < |NodeOf(h).children|
    }

    function KnownChild(h: Held, san: string): Tree
      requires Holding(root, h).Some? && Known(h, san)
      reads this`root
    {
      NodeOf(h).children[SanIndex(NodeOf(h).children, san)]
    }

    /** The part of `makeMove` that adds a SAN the selected node does not have yet. */
    method AddTyped(h: Held, san: string, play: (string, string) -> Played) returns (h': Held)
      requires Valid() && selectedNode == Some(h) && !Known(h, san)
      modifies this`root, this`enabledCount, this`unseenCount, this`selectedNode, this`sent
      ensures Valid() && selectedNode == Some(h') && h' == Pushed(h, old(Typed(h, san, play)))
      ensures old(TypedBy(NodeOf(h).data, trainAs, play(NodeOf(h).data.fen, san), Typed(h, san, play)))
      ensures Chapter() == MadeAt(old(Chapter()), h, old(Typed(h, san, play)))
      ensures sent == old(sent) + Outgoing(authenticated && online, MoveCreated(selectedPath, old(Typed(h, san, play))))
      ensures Known(h', san) <==> old(Typed(h, san, play)).san == san
      ensures old(Exact(Chapter(), user)) && h.InTree? ==> Exact(Chapter(), user)
      ensures old(PliesCount(root)) ==> PliesCount(root)
    {
      var move := Typed(h, san, play);
      TypedKeeps(Chapter(), h, move, user);
      PushedNode(root, h, move);
      SanIndexPushed(NodeOf(h).children, Node(move, []), san);
      h' := PushHeld(h, move);
      ghost var pushed := Chapter();
      Send(MoveCreated(selectedPath, move));
      assert Chapter() == pushed;
    }

    /** `selectedNode.children.push` and the two counters. */
    method PushHeld(h: Held, move: MoveData) returns (h': Held)
      requires Valid() && selectedNode == Some(h)
      modifies this`root, this`enabledCount, this`unseenCount, this`selectedNode
      ensures Valid() && selectedNode == Some(h') && h' == Pushed(h, move)
      ensures Chapter() == MadeAt(old(Chapter()), h, move) && root == PushedTree(old(root), h, move)
    {
      PushedNode(root, h, move);
      if target.Some? {
        PushKeeps(root, h, move, target.value.move);
      }
      if move.enabled {
        enabledCount, unseenCount := enabledCount + 1, unseenCount + 1;
      }
      h' := Pushed(h, move);
      root, selectedNode := PushedTree(root, h, move), Some(h');
    }

    /**
     A move made on the board. `stuck` stands for the exception thrown in edit
     mode when no child carries the SAN that was typed.
     */
    method MakeMove(san: string, play: (string, string) -> Played) returns (stuck: bool)
      requires Valid()
      modifies this`root, this`enabledCount, this`unseenCount, this`selectedPath, this`selectedNode, this`sent
      ensures Valid()
      ensures old(selectedNode).None? ==>
        !stuck && Chapter() == old(Chapter()) && sent == old(sent) && selectedNode.None?
      ensures old(selectedNode.Some? && Known(selectedNode.value, san)) ==>
        Chapter() == old(Chapter()) && sent == old(sent)
      ensures old(selectedNode.Some? && !Known(selectedNode.value, san)) ==>
        var move := old(Typed(selectedNode.value, san, play));
        && old(TypedBy(NodeOf(selectedNode.value).data, trainAs,
                       play(NodeOf(selectedNode.value).data.fen, san), move))
        && Chapter() == MadeAt(old(Chapter()), old(selectedNode).value, move)
        && enabledCount == old(enabledCount) + (if move.enabled then 1 else 0)
        && unseenCount == old(unseenCount) + (if move.enabled then 1 else 0)
        && sent == old(sent) + Outgoing(authenticated && online, MoveCreated(old(selectedPath), move))
      ensures stuck <==>
        && mode == Some(EditMode) && old(selectedNode.Some? && !Known(selectedNode.value, san))
        && old(Typed(selectedNode.value, san, play)).san != san
      ensures old(selectedNode).Some? ==>
        var h := old(selectedNode).value;
        var h' := if old(Known(h, san)) then h else Pushed(h, old(Typed(h, san, play)));
        && Holding(root, h').Some?
        && if stuck || mode != Some(EditMode)
           then selectedPath == old(selectedPath) && selectedNode == Some(h')
           else Known(h', san)
                && selectedPath == old(selectedPath) + KnownChild(h', san).data.id
                && selectedNode == Some(Follow(h', san))
      ensures old(InStep()) && WellFormed(root) ==> InStep()
      ensures old(Exact(Chapter(), user) && (selectedNode.Some? ==> selectedNode.value.InTree?)) ==>
        Exact(Chapter(), user)
      ensures old(PliesCount(root)) ==> PliesCount(root)
    {
      stuck := false;
      if selectedNode.None? {
        return;
      }
      var h := selectedNode.value;
      if !Known(h, san) {
        h := AddTyped(h, san, play);
      }
      stuck := GoTo(h, san);
    }

    /** The part of `makeMove` that follows the move in edit mode. */
    method GoTo(h: Held, san: string) returns (stuck: bool)
      requires Valid() && selectedNode == Some(h)
      modifies this`selectedPath, this`selectedNode
      ensures Valid()
      ensures stuck <==> mode == Some(EditMode) && !Known(h, san)
      ensures if mode == Some(EditMode) && Known(h, san)
              then selectedPath == old(selectedPath) + KnownChild(h, san).data.id
                   && selectedNode == Some(Follow(h, san))
              else selectedPath == old(selectedPath) && selectedNode == old(selectedNode)
      ensures old(InStep()) && WellFormed(root) ==> InStep()
    {
      stuck := mode == Some(EditMode) && !Known(h, san);
      if mode == Some(EditMode) && Known(h, san) {
        if h.InTree? && WellFormed(root) {
          ChildFound(root, h.path, SanIndex(NodeOf(h).children, san));
        }
        selectedPath, selectedNode := selectedPath + KnownChild(h, san).data.id, Some(Follow(h, san));
      }
    }

    /** The child with the SAN, as the store holds it. */
    function Follow(h: Held, san: string): Held
      requires Holding(root, h).Some? && Known(h, san)
      reads this`root
    {
      var c := KnownChild(h, san);
      match h
      case InTree(p) => Name(root, p + c.data.id, c)
      case Loose(_) => Loose(c)
    }

    /** A move_created broadcast. The result says whether the client resyncs instead. */
    method AddMove(path: string, move: MoveData) returns (resync: bool)
      requires Valid()
      modifies this`root, this`enabledCount, this`unseenCount
      ensures Valid()
      ensures resync <==> Added(old(Chapter()), path, move, user).None?
      ensures Chapter() == if resync then old(Chapter()) else Added(old(Chapter()), path, move, user).value
    {
      resync := !Reaches(root, path);
      if !resync {
        HeldStay(path, Pushing(Node(move, [])));
        root := UpdateAt(root, path, Pushing(Node(move, [])));
        if move.enabled {
          enabledCount := enabledCount + 1;
        }
        if UserCard(move, user).None? {
          unseenCount := unseenCount + 1;
        }
      }
    }

    /** Growing or rewriting a node leaves the held nodes in place. */
    lemma HeldStay(path: string, f: Tree -> Tree)
      requires Valid() && Reaches(root, path) && Grows(f, NodeAtPathOrNull(root, path).value)
      ensures selectedNode.Some? ==> Holding(UpdateAt(root, path, f), selectedNode.value).Some?
      ensures target.Some? ==> Holding(UpdateAt(root, path, f), target.value.move).Some?
    {
      if selectedNode.Some? && selectedNode.value.InTree? {
        GrowthKeepsPaths(root, path, f, selectedNode.value.path);
      }
      if target.Some? && target.value.move.InTree? {
        GrowthKeepsPaths(root, path, f, target.value.move.path);
      }
    }

    /** Writes the data of the node that `nodeAtPath` finds. */
    method WriteNearest(path: string, g: MoveData -> MoveData)
      requires Valid() && forall d :: g(d).id == d.id
      modifies this`root
      ensures Valid() && root == UpdateNearest(old(root), path, Writing(g))
    {
      NodeAtPathReached(root, path);
      HeldStay(ReachedPart(root, path), Writing(g));
      root := UpdateNearest(root, path, Writing(g));
    }

    method SetCommentAt(comment: string, path: string)
      requires Valid()
      modifies this`root, this`sent
      ensures Valid()
      ensures Chapter() == Commented(old(Chapter()), path, Truncated(comment))
      ensures sent == old(sent) + Outgoing(authenticated && online, CommentSet(path, Truncated(comment)))
    {
      WriteNearest(path, Commenting(Truncated(comment)));
      Send(CommentSet(path, Truncated(comment)));
    }

    method SetCommentRemote(path: string, comment: string)
      requires Valid()
      modifies this`root
      ensures Valid() && Chapter() == Commented(old(Chapter()), path, comment)
    {
      WriteNearest(path, Commenting(comment));
    }

    method UpdateTrainingRemote(path: string, username: string, card: Card)
      requires Valid()
      modifies this`root
      ensures Valid() && Chapter() == Carded(old(Chapter()), path, username, card)
    {
      WriteNearest(path, Carding(username, card));
    }

    /** Puts a card on the target, wherever that node is by now. */
    method PutCard(key: string, card: Card)
      requires Valid() && target.Some?
      modifies this`root, this`target, this`sent
      ensures Valid()
      ensures root == match old(target).value.move
                      case InTree(p) => UpdateAt(old(root), p, Writing(Carding(key, card)))
                      case Loose(_) => old(root)
      ensures target == Some(Target(old(target).value.startingPath, WithCard(old(target).value.move, key, card)))
      ensures NodeOf(target.value.move).data == Carding(key, card)(old(NodeOf(target.value.move)).data)
      ensures sent == old(sent) + Outgoing(authenticated && online,
        TrainingUpdated(old(target.value.startingPath + NodeOf(target.value.move).data.id), key, card))
    {
      var path := target.value.startingPath + NodeOf(target.value.move).data.id;
      CardedNode(root, target.value.move, key, card);
      match target.value.move {
        case InTree(p) =>
          HeldStay(p, Writing(Carding(key, card)));
          root := UpdateAt(root, p, Writing(Carding(key, card)));
        case Loose(_) =>
          target := Some(target.value.(move := WithCard(target.value.move, key, card)));
      }
      Send(TrainingUpdated(path, key, card));
    }

    /** `learn`, with the new card from the scheduler. */
    method Learn(card: Card)
      requires Valid()
      modifies this`root, this`unseenCount, this`target, this`sent
      ensures Valid()
      ensures target.None? || user.None? ==> Chapter() == old(Chapter()) && sent == old(sent)
      ensures target.None? <==> old(target).None?
      ensures old(target).Some? && user.Some? ==>
        && Chapter() == LearnedAt(old(Chapter()), old(target).value.move, user.value, card)
        && enabledCount == old(enabledCount) && unseenCount == old(unseenCount) - 1
        && NodeOf(target.value.move).data == Carding(user.value, card)(old(NodeOf(target.value.move)).data)
        && target.value.move == WithCard(old(target).value.move, user.value, card)
        && sent == old(sent) + Outgoing(authenticated && online,
             TrainingUpdated(old(target.value.startingPath + NodeOf(target.value.move).data.id), user.value, card))
    {
      if target.Some? && user.Some? {
        PutCard(user.value, card);
        unseenCount := unseenCount - 1;
      }
    }

    /** `train`, with the scheduler's review as a function. */
    method Train(review: Card -> Card) returns (reviewed: Option<Card>)
      requires Valid()
      modifies this`root, this`target, this`sent
      ensures Valid()
      ensures reviewed.Some? <==>
        old(target.Some? && user.Some? && user.value in NodeOf(target.value.move).data.training)
      ensures reviewed.Some? ==>
        reviewed.value == review(old(NodeOf(target.value.move).data.training)[user.value])
      ensures reviewed.Some? ==>
        && Chapter() == TrainedAt(old(Chapter()), old(target).value.move, user.value, reviewed.value)
        && enabledCount == old(enabledCount) && unseenCount == old(unseenCount)
        && target == Some(Target(old(target).value.startingPath,
                                 WithCard(old(target).value.move, user.value, reviewed.value)))
        && NodeOf(target.value.move).data == Carding(user.value, reviewed.value)(old(NodeOf(target.value.move)).data)
        && sent == old(sent) + Outgoing(authenticated && online,
             TrainingUpdated(old(target.value.startingPath + NodeOf(target.value.move).data.id),
                             user.value, reviewed.value))
      ensures reviewed.None? ==> Chapter() == old(Chapter()) && sent == old(sent) && target == old(target)
    {
      reviewed := None;
      if target.Some? && user.Some? {
        var was := UserCard(NodeOf(target.value.move).data, user);
        if was.Some? {
          reviewed := Some(review(was.value));
          PutCard(user.value, reviewed.value);
        }
      }
    }

    /**
     `resyncAndRestore`: the fetched tree replaces the local one, the counts are
     rebuilt, and the selection is restored or set to the next position to train.
     */
    method ResyncAndRestore(fetched: Tree, now: int)
      modifies this`root, this`enabledCount, this`unseenCount, this`selectedPath, this`selectedNode, this`target
      ensures Valid()
      ensures root == fetched && Exact(Chapter(), user)
      ensures Trains(mode) ==> Positioned(root, QueryAt(now), algorithm, selectedPath, selectedNode, target)
      ensures !Trains(mode) ==>
        && target.None?
        && if old(selectedPath) != "" && Reaches(fetched, old(selectedPath))
           then selectedPath == old(selectedPath) && InStep()
           else selectedPath == "" && selectedNode.None?
    {
      selectedNode, target := None, None;
      var c := ParseChapter(fetched, user);
      root, enabledCount, unseenCount := c.root, c.enabledCount, c.unseenCount;
      if selectedPath != "" && Reaches(root, selectedPath) {
        NodeAtPathReached(root, selectedPath);
        Jump(selectedPath);
      } else {
        selectedPath, selectedNode := "", None;
      }
      SetNextTrainablePosition(now);
    }
  }

  /** After the push, the SAN that was typed is found exactly when it is the canonical one. */
  lemma {:induction false} SanIndexPushed(kids: seq<Tree>, c: Tree, san: string)
    requires SanIndex(kids, san) == |kids|
    ensures SanIndex(kids + [c], san) < |kids| + 1 <==> c.data.san == san
    ensures c.data.san == san ==> SanIndex(kids + [c], san) == |kids|
  {
    var i := SanIndex(kids + [c], san);
    assert forall j :: 0 <= j < |kids| ==> (kids + [c])[j] == kids[j];
    assert (kids + [c])[|kids|] == c;
  }

  /** Once added, a move typed by its canonical SAN is found again, so edit mode can follow it. */
  lemma AddedIsKnown(t: Tree, at: string, move: MoveData)
    requires Reaches(t, at)
    requires var kids := NodeAtPathOrNull(t, at).value.children; SanIndex(kids, move.san) == |kids|
    ensures var t' := UpdateAt(t, at, Pushing(Node(move, [])));
            && Reaches(t', at)
            && var kids := NodeAtPathOrNull(t', at).value.children;
               SanIndex(kids, move.san) < |kids| && kids[SanIndex(kids, move.san)].data == move
  {
    var n := NodeAtPathOrNull(t, at).value;
    var c := Node(move, []);
    UpdateReplaces(t, at, Pushing(c));
    var kids := n.children + [c];
    assert NodeAtPathOrNull(UpdateAt(t, at, Pushing(c)), at) == Some(n.(children := kids));
    assert forall j :: 0 <= j < |n.children| ==> kids[j] == n.children[j];
    assert kids[|n.children|] == c;
  }

  lemma OnlyInit(path: string, r: string)
    requires Whole(path) && Whole(r) && r <= path && r != path && |Init(path)| <= |r|
    ensures r == Init(path)
  {
  }

  /** A deleted path can be followed to its parent, and no further. */
  lemma ReachedAfterDelete(t: Tree, path: string)
    requires WellFormed(t) && Reaches(t, path) && path != ""
    ensures ReachedPart(DeleteNodeAt(t, path), path) == Init(path)
  {
    var t' := DeleteNodeAt(t, path);
    var r := ReachedPart(t', path);
    DeleteWellFormed(t, path);
    DeleteReaches(t, path);
    HeadTail(path);
    ReachesWhole(t, path);
    ViewDelete(t, path, Init(path));
    ViewDelete(t, path, path);
    NodeAtPathReached(t', path);
    ReachesWhole(t', r);
    ReachedLongest(t', path, Init(path));
    OnlyInit(path, r);
  }

  /**
   Where deleting a move leaves the selection: on the deleted move's parent,
   whether or not the selection was inside the deleted subtree.
   */
  lemma {:induction false} SelectionAfterDelete(t: Tree, path: string, selected: string)
    requires WellFormed(t) && Reaches(t, path) && path != ""
    ensures ReachedPart(DeleteNodeAt(t, path), if Contains(selected, path) then Init(path) else path) == Init(path)
  {
    ReachedAfterDelete(t, path);
    DeleteReaches(t, path);
    HeadTail(path);
    ViewDelete(t, path, Init(path));
    NodeAtPathReached(DeleteNodeAt(t, path), Init(path));
  }

  /** A delete by someone else leaves the selection on a path that exists. */
  lemma StaysInStep(t: Tree, path: string, selected: string)
    requires WellFormed(t) && Reaches(t, path) && path != "" && Reaches(t, selected)
    ensures if Contains(selected, path) then ReachedPart(DeleteNodeAt(t, path), Init(path)) == Init(path)
            else Kept(t, DeleteNodeAt(t, path), InTree(selected)) == InTree(selected)
  {
    SelectionAfterDelete(t, path, selected);
    CutOutIff(t, path, selected);
  }

  /**
   Deleting a line that the selection is not in selects the deleted path itself,
   while the selected node is its parent.
   */
  lemma InStepAfterDelete(t: Tree, path: string, selected: string)
    requires WellFormed(t) && Reaches(t, path) && path != ""
    ensures var next := if Contains(selected, path) then Init(path) else path;
            ReachedPart(DeleteNodeAt(t, path), next) == next <==> Contains(selected, path)
  {
    SelectionAfterDelete(t, path, selected);
    assert |Init(path)| < |path|;
  }

  /**
   Straight after the search in learn mode, learning its answer keeps the
   counters right; in recall mode, so does reviewing it.
   */
  lemma WorkOnPositionedExact(c: Client, q: TrainableSearch.Query, algorithm: TrainableSearch.Algorithm,
                              path: string, node: Option<Held>, target: Option<Target>, user: string, card: Card)
    requires WellFormed(c.root) && Exact(c, Some(user)) && q.key == Some(user)
    requires Positioned(c.root, q, algorithm, path, node, target) && target.Some?
    ensures q.mode == Some(LearnMode) ==> Exact(LearnedAt(c, target.value.move, user, card), Some(user))
    ensures q.mode == Some(RecallMode) ==> Exact(TrainedAt(c, target.value.move, user, card), Some(user))
  {
    PositionedInTree(c.root, q, algorithm, path, node, target);
    var p := target.value.move.path;
    LearnedExactIff(c, p, user, card);
    if q.mode == Some(RecallMode) {
      TrainedExact(c, p, user, card);
    }
  }

  lemma DeletedAndBack(t: Tree, x: string, again: MoveData)
    requires WellFormed(t) && Reaches(t, x) && x != "" && again.id == Last(x)
    ensures var deleted := DeleteNodeAt(t, x);
            && ReachedPart(deleted, x) == Init(x) && Reaches(deleted, Init(x))
            && var back := UpdateAt(deleted, Init(x), Pushing(Node(again, [])));
               Reaches(back, Init(x)) && Reaches(back, x)
  {
    var deleted := DeleteNodeAt(t, x);
    ReachedAfterDelete(t, x);
    NodeAtPathReached(deleted, x);
    assert Whole(x) by { ReachesWhole(t, x); }
    InitWhole(x);
    HeadTail(x);
    PushedFound(deleted, Init(x), again);
  }

  /** A client deletes a line that it has not selected, and someone else creates the deleted move again. */
  method DeleteAndRecreate(store: TrainerStore, x: string, again: MoveData)
    requires store.Valid() && WellFormed(store.root) && Reaches(store.root, x) && x != ""
    requires !Contains(store.selectedPath, x) && again.id == Last(x)
    requires store.authenticated && store.online
    modifies store`root, store`enabledCount, store`unseenCount
    modifies store`selectedPath, store`selectedNode, store`target, store`sent
    ensures store.Valid() && store.selectedPath == x && store.selectedNode == Some(InTree(Init(x)))
    ensures Reaches(store.root, x) && Reaches(store.root, Init(x))
    ensures store.sent == old(store.sent) + [NodeDeleted(x)]
  {
    DeletedAndBack(store.root, x, again);
    store.DeleteLine(x);
    var resync := store.AddMove(Init(x), again);
  }

  /** A new move goes to the selected node and is sent under the selected path, whatever the two are. */
  method MoveOnStale(store: TrainerStore, at: string, san: string, play: (string, string) -> Played)
    returns (stuck: bool)
    requires store.Valid() && store.selectedNode == Some(InTree(at)) && !store.Known(InTree(at), san)
    requires store.authenticated && store.online
    modifies store`root, store`enabledCount, store`unseenCount
    modifies store`selectedPath, store`selectedNode, store`sent
    ensures var move := old(store.Typed(InTree(at), san, play));
            && store.root == UpdateAt(old(store.root), at, Pushing(Node(move, [])))
            && store.sent == old(store.sent) + [MoveCreated(old(store.selectedPath), move)]
  {
    stuck := store.MakeMove(san, play);
  }

  /**
   Then it is out of step: the next new move is pushed to the parent and sent
   under the path of the move created again.
   */
  method StaleSelectionRun(store: TrainerStore, x: string, again: MoveData, san: string,
                           play: (string, string) -> Played)
    returns (ghost before: Tree, ghost move: MoveData, known: bool)
    requires store.Valid() && WellFormed(store.root) && Reaches(store.root, x) && x != ""
    requires !Contains(store.selectedPath, x) && again.id == Last(x)
    requires store.authenticated && store.online
    modifies store`root, store`enabledCount, store`unseenCount
    modifies store`selectedPath, store`selectedNode, store`target, store`sent
    ensures Reaches(before, x) && Reaches(before, Init(x))
    ensures !known ==>
      && store.root == UpdateAt(before, Init(x), Pushing(Node(move, [])))
      && store.sent == old(store.sent) + [NodeDeleted(x), MoveCreated(x, move)]
  {
    DeleteAndRecreate(store, x, again);
    before, move := store.root, store.Typed(InTree(Init(x)), san, play);
    known := store.Known(InTree(Init(x)), san);
    if !known {
      var stuck := MoveOnStale(store, Init(x), san, play);
      assert (old(store.sent) + [NodeDeleted(x)]) + [MoveCreated(x, move)] ==
             old(store.sent) + [NodeDeleted(x), MoveCreated(x, move)];
    }
  }

  lemma PushedFound(t: Tree, at: string, move: MoveData)
    requires Reaches(t, at) && Whole(at) && |move.id| == 2
    ensures var t' := UpdateAt(t, at, Pushing(Node(move, [])));
            Reaches(t', at) && Reaches(t', at + move.id)
  {
    var t', n := UpdateAt(t, at, Pushing(Node(move, []))), NodeAtPathOrNull(t, at).value;
    UpdateReplaces(t, at, Pushing(Node(move, [])));
    NodeAtAppend(t', at, move.id);
    PushedIndex(n.children, Node(move, []), move.id);
    assert Head(move.id) == move.id && Tail(move.id) == "";
  }
}
