/**
 The node objects that the store actions hold on to across other changes
 (`selectedNode` and the target move of frontend/src/store/state.ts): where they
 are by now, and what work on them does to the tree and to the counters.
 */
module HeldNodes {
  import opened Wrappers
  import opened Paths
  import opened MoveTree
  import opened ClientChapter

  /** A node object that the store holds: one in the tree, under its path, or one cut out of it. */
  datatype Held = InTree(path: string) | Loose(node: Tree)

  function Holding(t: Tree, h: Held): Option<Tree> {
    match h
    case InTree(p) => NodeAtPathOrNull(t, p)
    case Loose(n) => Some(n)
  }

  /** The node n, which sits at p if look-ups find it there. */
  function Name(t: Tree, p: string, n: Tree): (h: Held)
    ensures Holding(t, h) == Some(n)
  {
    if NodeAtPathOrNull(t, p) == Some(n) then InTree(p) else Loose(n)
  }

  /** A held node after the tree has changed: it is cut out when its path is gone. */
  function Kept(before: Tree, after: Tree, h: Held): (h': Held)
    requires Holding(before, h).Some?
    ensures Holding(after, h').Some?
  {
    if h.InTree? && !Reaches(after, h.path) then Loose(NodeAtPathOrNull(before, h.path).value) else h
  }

  /** A delete cuts out exactly the held nodes at and below the deleted move. */
  lemma CutOutIff(t: Tree, path: string, p: string)
    requires WellFormed(t) && Reaches(t, path) && path != "" && Reaches(t, p)
    ensures Kept(t, DeleteNodeAt(t, path), InTree(p)) ==
            if path <= p then Loose(NodeAtPathOrNull(t, p).value) else InTree(p)
  {
    ViewDelete(t, path, p);
  }

  /** Growing a node or rewriting its data loses no path. */
  predicate Grows(f: Tree -> Tree, n: Tree) {
    f(n).data.id == n.data.id && n.children <= f(n).children
  }

  lemma {:induction false} GrowthKeepsPaths(t: Tree, at: string, f: Tree -> Tree, q: string)
    requires Reaches(t, at) && Grows(f, NodeAtPathOrNull(t, at).value) && Reaches(t, q)
    ensures Reaches(UpdateAt(t, at, f), q) && UpdateAt(t, at, f).data.id == t.data.id
    decreases |at|
  {
    if at == "" {
      if q != "" {
        GrownIndex(t.children, f(t).children, Head(q));
      }
    } else {
      var i := ChildIndex(t.children, Head(at));
      var c := t.children[i];
      GrowthKeepsPaths(c, Tail(at), f, "");
      var kids := t.children[i := UpdateAt(c, Tail(at), f)];
      SameIdsSameIndex(t.children, kids, Head(q));
      if q != "" && ChildIndex(t.children, Head(q)) == i {
        GrowthKeepsPaths(c, Tail(at), f, Tail(q));
      }
    }
  }

  lemma GrownIndex(kids: seq<Tree>, grown: seq<Tree>, id: string)
    requires kids <= grown && ChildIndex(kids, id) < |kids|
    ensures ChildIndex(grown, id) == ChildIndex(kids, id) && grown[ChildIndex(kids, id)] == kids[ChildIndex(kids, id)]
  {
    FirstOf(grown, id, ChildIndex(kids, id));
  }

  lemma FirstOf(kids: seq<Tree>, id: string, i: nat)
    requires i < |kids| && kids[i].data.id == id && forall j :: 0 <= j < i ==> kids[j].data.id != id
    ensures ChildIndex(kids, id) == i
  {
  }

  // ----- work on a held node -----

  /** `makeMove` counts the new move even when the node it is pushed to has left the tree. */
  function MadeAt(c: Client, h: Held, move: MoveData): Client {
    match h
    case InTree(p) => Made(c, p, move)
    case Loose(_) =>
      c.(enabledCount := c.enabledCount + One(move.enabled), unseenCount := c.unseenCount + One(move.enabled))
  }

  function Pushed(h: Held, move: MoveData): Held {
    match h
    case InTree(_) => h
    case Loose(n) => Loose(Pushing(Node(move, []))(n))
  }

  /** `selectedNode.children.push`: seen in the tree only if the node is still there. */
  function PushedTree(t: Tree, h: Held, move: MoveData): Tree {
    match h
    case InTree(p) => UpdateAt(t, p, Pushing(Node(move, [])))
    case Loose(_) => t
  }

  lemma PushedNode(t: Tree, h: Held, move: MoveData)
    requires Holding(t, h).Some?
    ensures Holding(PushedTree(t, h, move), Pushed(h, move)) == Some(Pushing(Node(move, []))(Holding(t, h).value))
  {
    if h.InTree? {
      UpdateReplaces(t, h.path, Pushing(Node(move, [])));
    }
  }

  lemma PushKeeps(t: Tree, h: Held, move: MoveData, other: Held)
    requires Holding(t, h).Some? && Holding(t, other).Some?
    ensures Holding(PushedTree(t, h, move), other).Some?
  {
    if h.InTree? && other.InTree? {
      GrowthKeepsPaths(t, h.path, Pushing(Node(move, [])), other.path);
    }
  }

  /** `learn` lowers the counter in either case. */
  function LearnedAt(c: Client, h: Held, user: string, card: Card): Client {
    match h
    case InTree(p) => Learned(c, p, user, card)
    case Loose(_) => c.(unseenCount := c.unseenCount - 1)
  }

  /** Work on a node that has been cut out is counted all the same, which the recount would not do. */
  lemma LooseExactIff(c: Client, n: Tree, move: MoveData, user: string, card: Card, key: Option<string>)
    requires Exact(c, key)
    ensures Exact(MadeAt(c, Loose(n), move), key) <==> !move.enabled
    ensures !Exact(LearnedAt(c, Loose(n), user, card), key)
  {
  }

  function TrainedAt(c: Client, h: Held, user: string, card: Card): Client {
    match h
    case InTree(p) => Trained(c, p, user, card)
    case Loose(_) => c
  }

  function WithCard(h: Held, user: string, card: Card): Held {
    match h
    case InTree(_) => h
    case Loose(n) => Loose(Writing(Carding(user, card))(n))
  }

  /** The card is on the held node afterwards, and the node is otherwise as it was. */
  lemma CardedNode(t: Tree, h: Held, user: string, card: Card)
    requires Holding(t, h).Some?
    ensures var n := Holding(t, h).value;
            Holding(CardedTree(t, h, user, card), WithCard(h, user, card)) ==
            Some(Node(n.data.(training := n.data.training[user := card]), n.children))
  {
    if h.InTree? {
      UpdateReplaces(t, h.path, Writing(Carding(user, card)));
    }
  }

  /** The tree after a card has been put on the held node. */
  function CardedTree(t: Tree, h: Held, user: string, card: Card): Tree {
    match h
    case InTree(p) => UpdateAt(t, p, Writing(Carding(user, card)))
    case Loose(_) => t
  }
}
