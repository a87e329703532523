/**
 The move list (frontend/src/components/pgn/Tree.tsx:139-140, 274-440,
 563-589) in edit mode, where every child is visible: the layout functions
 as functions from nodes to the items they put on the page.
 */
module MoveList {
  import opened Wrappers
  import opened Paths
  import opened MoveTree

  /**
   `.index` cells, moves, the `...` placeholder, comments, and the three
   containers: a full-width `.interrupt`, an `.inline` parenthesis, a `.line`.
   */
  datatype Item =
    | Index(turn: int)
    | Move(path: string, node: Tree, numbered: bool)
    | Empty
    | Comment(path: string)
    | Interrupt(items: seq<Item>)
    | Inline(items: seq<Item>)
    | Line(items: seq<Item>)

  /** `args` without the path: the parent and whether siblings go in parentheses. */
  datatype Args = Args(parentPath: string, parent: Tree, parenthetical: bool)

  function PlyToTurn(ply: int): int {
    (ply - 1) / 2 + 1
  }

  predicate IsWhite(ply: int) {
    ply % 2 == 1
  }

  predicate HasBranching(t: Tree, depth: int) {
    if depth <= 0 then false
    else if |t.children| > 1 then true
    else if |t.children| == 0 then false
    else HasBranching(t.children[0], depth - 1)
  }

  /** Exactly two continuations, the second one short and straight. */
  predicate IsParenthetical(kids: seq<Tree>) {
    |kids| == 2 && !HasBranching(kids[1], 6)
  }

  function CommentsOf(show: bool, t: Tree, path: string): seq<Item> {
    if show && t.data.comment != "" then [Comment(path)] else []
  }

  /** A sideline move's own number: always for white, and for black when it opens a branch. */
  predicate Numbered(t: Tree, args: Args) {
    IsWhite(t.data.ply) ||
    (|args.parent.children| > 1 && (!args.parenthetical || args.parent.children[0] != t))
  }

  function Lines(show: bool, nodes: seq<Tree>, args: Args, isMainline: bool): seq<Item>
    decreases SizeAll(nodes), 2
  {
    if nodes == [] then []
    else if !isMainline && args.parenthetical then
      [Inline(SidelineNodes(show, nodes, args.(parenthetical := false)))]
    else EachLine(show, nodes, args.(parenthetical := false))
  }

  function EachLine(show: bool, nodes: seq<Tree>, args: Args): seq<Item>
    decreases SizeAll(nodes), 1
  {
    if nodes == [] then []
    else
      assert SizeAll([nodes[0]]) == Size(nodes[0]);
      [Line(SidelineNodes(show, [nodes[0]], args))] + EachLine(show, nodes[1..], args)
  }

  function SidelineNodes(show: bool, nodes: seq<Tree>, args: Args): seq<Item>
    decreases SizeAll(nodes), 0
  {
    if nodes == [] then []
    else
      SizeOfFirst(nodes);
      var child, siblings := nodes[0], nodes[1..];
      var path := args.parentPath + child.data.id;
      var kids := child.children;
      var childArgs := Args(path, child, IsParenthetical(kids));
      var siblingLines := Lines(show, siblings, args, false);
      [Move(path, child, Numbered(child, args))] + CommentsOf(show, child, path)
      + (if args.parenthetical then siblingLines else [])
      + (if |kids| < 2 || childArgs.parenthetical then SidelineNodes(show, kids, childArgs)
         else Lines(show, kids, childArgs, false))
      + (if args.parenthetical then [] else siblingLines)
  }

  function ColumnNodes(show: bool, nodes: seq<Tree>, parentPath: string, parent: Tree): seq<Item>
    decreases SizeAll(nodes)
  {
    if nodes == [] then []
    else
      SizeOfFirst(nodes);
      var child, siblings := nodes[0], nodes[1..];
      var path := parentPath + child.data.id;
      TurnCell(child) + [Move(path, child, false)]
      + Interruption(show, child, siblings, path, Args(parentPath, parent, false))
      + ColumnNodes(show, child.children, path, child)
  }

  /** A white move starts with its number. */
  function TurnCell(child: Tree): seq<Item> {
    if IsWhite(child.data.ply) then [Index(PlyToTurn(child.data.ply))] else []
  }

  predicate Interrupted(show: bool, child: Tree, siblings: seq<Tree>) {
    siblings != [] || (show && child.data.comment != "")
  }

  /** A white move's row is completed before the interrupt and opened again after it. */
  function Interruption(show: bool, child: Tree, siblings: seq<Tree>, path: string, args: Args): seq<Item> {
    if !Interrupted(show, child, siblings) then []
    else
      Closing(child) + [Interrupt(CommentsOf(show, child, path) + Lines(show, siblings, args, true))] + Reopening(child)
  }

  function Closing(child: Tree): seq<Item> {
    if IsWhite(child.data.ply) then [Empty] else []
  }

  function Reopening(child: Tree): seq<Item> {
    if IsWhite(child.data.ply) && child.children != [] then [Index(PlyToTurn(child.data.ply)), Empty] else []
  }

  /** When Black starts, a number and a placeholder open the first row. */
  function Opening(root: Tree): seq<Item> {
    if IsWhite(root.data.ply) then [Index(PlyToTurn(root.data.ply)), Empty] else []
  }

  function RootComment(show: bool, root: Tree): seq<Item> {
    if show && root.data.comment != "" then [Interrupt(CommentsOf(show, root, ""))] else []
  }

  /** The whole body of the panel. */
  function PgnTree(show: bool, root: Tree): seq<Item> {
    RootComment(show, root) + (Opening(root) + ColumnNodes(show, root.children, "", root))
  }

  // ----- every move once, at its own path -----

  /** The moves on the page, in reading order. */
  function Moves(items: seq<Item>): seq<(string, Tree)> {
    if items == [] then []
    else
      (match items[0]
       case Move(path, node, _) => [(path, node)]
       case Interrupt(inner) => Moves(inner)
       case Inline(inner) => Moves(inner)
       case Line(inner) => Moves(inner)
       case _ => [])
      + Moves(items[1..])
  }

  /** All nodes at and below some siblings, each with its path. */
  function Below(nodes: seq<Tree>, parentPath: string): seq<(string, Tree)> {
    if nodes == [] then []
    else
      var path := parentPath + nodes[0].data.id;
      [(path, nodes[0])] + Below(nodes[0].children, path) + Below(nodes[1..], parentPath)
  }

  lemma {:induction false} MovesSplit(a: seq<Item>, b: seq<Item>)
    ensures Moves(a + b) == Moves(a) + Moves(b)
  {
    if a == [] {
      assert a + b == b;
    } else {
      assert (a + b)[1..] == a[1..] + b;
      MovesSplit(a[1..], b);
    }
  }

  lemma MovesOne(item: Item)
    ensures Moves([item]) ==
      match item
      case Move(path, node, _) => [(path, node)]
      case Interrupt(inner) => Moves(inner)
      case Inline(inner) => Moves(inner)
      case Line(inner) => Moves(inner)
      case _ => []
  {
    assert [item][1..] == [];
  }

  lemma CommentsHaveNoMoves(show: bool, t: Tree, path: string)
    ensures Shown(CommentsOf(show, t, path)) == multiset{}
  {
    MovesOne(Comment(path));
  }

  /** Siblings are laid out on one side or on the other. */
  lemma EitherSide(first: bool, items: seq<Item>)
    ensures Shown(if first then items else []) + Shown(if first then [] else items) == Shown(items)
  {
  }

  /** How often a node shows among some items, and how often it should. */
  function Shown(items: seq<Item>): multiset<(string, Tree)> {
    multiset(Moves(items))
  }

  function Due(nodes: seq<Tree>, parentPath: string): multiset<(string, Tree)> {
    multiset(Below(nodes, parentPath))
  }

  lemma ShownSplit(a: seq<Item>, b: seq<Item>)
    ensures Shown(a + b) == Shown(a) + Shown(b)
  {
    MovesSplit(a, b);
  }

  lemma ShownOne(item: Item)
    ensures Shown([item]) ==
      match item
      case Move(path, node, _) => multiset{(path, node)}
      case Interrupt(inner) => Shown(inner)
      case Inline(inner) => Shown(inner)
      case Line(inner) => Shown(inner)
      case _ => multiset{}
  {
    MovesOne(item);
  }

  lemma DueSplit(nodes: seq<Tree>, parentPath: string)
    requires nodes != []
    ensures var path := parentPath + nodes[0].data.id;
            Due(nodes, parentPath) ==
            multiset{(path, nodes[0])} + Due(nodes[0].children, path) + Due(nodes[1..], parentPath)
  {
  }

  lemma DueFirst(nodes: seq<Tree>, parentPath: string)
    requires nodes != []
    ensures Due(nodes, parentPath) == Due([nodes[0]], parentPath) + Due(nodes[1..], parentPath)
  {
    DueSplit(nodes, parentPath);
    DueSplit([nodes[0]], parentPath);
    assert [nodes[0]][1..] == [];
  }

  /** Numbers and placeholders are not moves. */
  lemma ShownOpening(turn: int)
    ensures Shown([Index(turn), Empty]) == multiset{}
  {
    ShownOne(Index(turn));
    ShownOne(Empty);
    ShownSplit([Index(turn)], [Empty]);
    assert [Index(turn)] + [Empty] == [Index(turn), Empty];
  }

  lemma ShownInterrupt(inner: seq<Item>)
    ensures Shown([Interrupt(inner)]) == Shown(inner)
  {
    ShownOne(Interrupt(inner));
  }

  lemma {:induction false} LinesShowAll(show: bool, nodes: seq<Tree>, args: Args, isMainline: bool)
    ensures Shown(Lines(show, nodes, args, isMainline)) == Due(nodes, args.parentPath)
    decreases SizeAll(nodes), 2
  {
    if nodes != [] {
      var lineArgs := args.(parenthetical := false);
      if !isMainline && args.parenthetical {
        SidelineShowsAll(show, nodes, lineArgs);
        ShownOne(Inline(SidelineNodes(show, nodes, lineArgs)));
      } else {
        EachLineShowsAll(show, nodes, lineArgs);
      }
    }
  }

  lemma {:induction false} EachLineShowsAll(show: bool, nodes: seq<Tree>, args: Args)
    ensures Shown(EachLine(show, nodes, args)) == Due(nodes, args.parentPath)
    decreases SizeAll(nodes), 1
  {
    if nodes != [] {
      var first := SidelineNodes(show, [nodes[0]], args);
      assert SizeAll([nodes[0]]) == Size(nodes[0]);
      assert Shown([Line(first)]) == Due([nodes[0]], args.parentPath) by {
        SidelineShowsAll(show, [nodes[0]], args);
        ShownOne(Line(first));
      }
      EachLineShowsAll(show, nodes[1..], args);
      ShownSplit([Line(first)], EachLine(show, nodes[1..], args));
      DueFirst(nodes, args.parentPath);
    }
  }

  lemma {:induction false} SidelineShowsAll(show: bool, nodes: seq<Tree>, args: Args)
    ensures Shown(SidelineNodes(show, nodes, args)) == Due(nodes, args.parentPath)
    decreases SizeAll(nodes), 0
  {
    if nodes != [] {
      SizeOfFirst(nodes);
      var child, siblings := nodes[0], nodes[1..];
      var path := args.parentPath + child.data.id;
      var kids := child.children;
      var childArgs := Args(path, child, IsParenthetical(kids));
      var head := [Move(path, child, Numbered(child, args))];
      var comments := CommentsOf(show, child, path);
      var siblingLines := Lines(show, siblings, args, false);
      var before := if args.parenthetical then siblingLines else [];
      var after := if args.parenthetical then [] else siblingLines;
      var inside := if |kids| < 2 || childArgs.parenthetical then SidelineNodes(show, kids, childArgs)
                    else Lines(show, kids, childArgs, false);
      assert Shown(before) + Shown(after) == Due(siblings, args.parentPath) by {
        LinesShowAll(show, siblings, args, false);
        EitherSide(args.parenthetical, siblingLines);
      }
      assert Shown(inside) == Due(kids, path) by {
        if |kids| < 2 || childArgs.parenthetical {
          SidelineShowsAll(show, kids, childArgs);
        } else {
          LinesShowAll(show, kids, childArgs, false);
        }
      }
      assert Shown(head) + Shown(comments) == multiset{(path, child)} by {
        ShownOne(head[0]);
        CommentsHaveNoMoves(show, child, path);
      }
      ShownTogether(nodes, args.parentPath, head, comments, before, inside, after);
      assert SidelineNodes(show, nodes, args) == head + comments + before + inside + after;
    }
  }

  /** A head move, what hangs below it and what hangs beside it, in any of the two layouts. */
  lemma ShownTogether(nodes: seq<Tree>, parentPath: string,
                      a: seq<Item>, b: seq<Item>, c: seq<Item>, d: seq<Item>, e: seq<Item>)
    requires nodes != []
    requires Shown(a) + Shown(b) == multiset{(parentPath + nodes[0].data.id, nodes[0])}
    requires Shown(d) == Due(nodes[0].children, parentPath + nodes[0].data.id)
    requires Shown(c) + Shown(e) == Due(nodes[1..], parentPath)
    ensures Shown(a + b + c + d + e) == Due(nodes, parentPath)
  {
    ShownParts(a, b, c, d, e);
    DueSplit(nodes, parentPath);
  }

  lemma ShownParts(a: seq<Item>, b: seq<Item>, c: seq<Item>, d: seq<Item>, e: seq<Item>)
    ensures Shown(a + b + c + d + e) == Shown(a) + Shown(b) + Shown(c) + Shown(d) + Shown(e)
  {
    ShownSplit(a + b + c + d, e);
    ShownSplit(a + b + c, d);
    ShownSplit(a + b, c);
    ShownSplit(a, b);
  }

  lemma {:induction false} ColumnShowsAll(show: bool, nodes: seq<Tree>, parentPath: string, parent: Tree)
    ensures Shown(ColumnNodes(show, nodes, parentPath, parent)) == Due(nodes, parentPath)
    decreases SizeAll(nodes)
  {
    if nodes != [] {
      SizeOfFirst(nodes);
      ColumnShowsAll(show, nodes[0].children, parentPath + nodes[0].data.id, nodes[0]);
      ColumnShowsFirst(show, nodes, parentPath, parent);
    }
  }

  /** The first node and its siblings, when the rest of the column is known to be right. */
  lemma ColumnShowsFirst(show: bool, nodes: seq<Tree>, parentPath: string, parent: Tree)
    requires nodes != []
    requires var path := parentPath + nodes[0].data.id;
             Shown(ColumnNodes(show, nodes[0].children, path, nodes[0])) == Due(nodes[0].children, path)
    ensures Shown(ColumnNodes(show, nodes, parentPath, parent)) == Due(nodes, parentPath)
  {
    var child, siblings := nodes[0], nodes[1..];
    var path := parentPath + child.data.id;
    var args := Args(parentPath, parent, false);
    var head := [Move(path, child, false)];
    var interruption := Interruption(show, child, siblings, path, args);
    var rest := ColumnNodes(show, child.children, path, child);
    assert Shown(TurnCell(child) + head + interruption + rest + []) == Due(nodes, parentPath) by {
      assert Shown(interruption) + Shown([]) == Due(siblings, parentPath) by {
        InterruptionShows(show, child, siblings, path, args);
      }
      HeadShows(child, path);
      ShownTogether(nodes, parentPath, TurnCell(child), head, interruption, rest, []);
    }
    ColumnStep(show, nodes, parentPath, parent);
  }

  lemma HeadShows(child: Tree, path: string)
    ensures Shown(TurnCell(child)) + Shown([Move(path, child, false)]) == multiset{(path, child)}
  {
    ShownOne(Index(PlyToTurn(child.data.ply)));
    ShownOne(Move(path, child, false));
  }

  lemma ColumnStep(show: bool, nodes: seq<Tree>, parentPath: string, parent: Tree)
    requires nodes != []
    ensures var child := nodes[0];
            var path := parentPath + child.data.id;
            ColumnNodes(show, nodes, parentPath, parent) ==
            TurnCell(child) + [Move(path, child, false)]
            + Interruption(show, child, nodes[1..], path, Args(parentPath, parent, false))
            + ColumnNodes(show, child.children, path, child) + []
  {
  }

  lemma PaddingShowsNothing(child: Tree)
    ensures Shown(Closing(child)) == multiset{} && Shown(Reopening(child)) == multiset{}
  {
    ShownOne(Empty);
    ShownOpening(PlyToTurn(child.data.ply));
  }

  lemma ContentShows(show: bool, child: Tree, siblings: seq<Tree>, path: string, args: Args)
    ensures Shown(CommentsOf(show, child, path) + Lines(show, siblings, args, true)) == Due(siblings, args.parentPath)
  {
    CommentsHaveNoMoves(show, child, path);
    ShownSplit(CommentsOf(show, child, path), Lines(show, siblings, args, true));
    LinesShowAll(show, siblings, args, true);
  }

  lemma PaddedShows(child: Tree, inner: seq<Item>)
    ensures Shown(Closing(child) + [Interrupt(inner)] + Reopening(child)) == Shown(inner)
  {
    PaddingShowsNothing(child);
    ShownInterrupt(inner);
    ShownSplit(Closing(child), [Interrupt(inner)]);
    ShownSplit(Closing(child) + [Interrupt(inner)], Reopening(child));
  }

  lemma InterruptionShows(show: bool, child: Tree, siblings: seq<Tree>, path: string, args: Args)
    ensures Shown(Interruption(show, child, siblings, path, args)) == Due(siblings, args.parentPath)
  {
    if Interrupted(show, child, siblings) {
      PaddedShows(child, CommentsOf(show, child, path) + Lines(show, siblings, args, true));
      ContentShows(show, child, siblings, path, args);
    }
  }

  /** In edit mode the page shows every node but the root exactly once, with its true path. */
  lemma EveryMoveOnce(show: bool, root: Tree)
    ensures Shown(PgnTree(show, root)) == Due(root.children, "")
  {
    var column := ColumnNodes(show, root.children, "", root);
    assert Shown(RootComment(show, root)) == multiset{} by {
      ShownInterrupt(CommentsOf(show, root, ""));
      CommentsHaveNoMoves(show, root, "");
    }
    assert Shown(Opening(root)) == multiset{} by { ShownOpening(PlyToTurn(root.data.ply)); }
    ColumnShowsAll(show, root.children, "", root);
    ShownSplit(Opening(root), column);
    ShownSplit(RootComment(show, root), Opening(root) + column);
  }

  /** The node that a path leads to among some siblings. */
  function NodeAmong(nodes: seq<Tree>, p: string): Option<Tree> {
    var i := ChildIndex(nodes, Head(p));
    if p != "" && i < |nodes| then NodeAtPathOrNull(nodes[i], Tail(p)) else None
  }

  lemma NodeBelow(t: Tree, p: string)
    ensures NodeAtPathOrNull(t, p) == if p == "" then Some(t) else NodeAmong(t.children, p)
  {
  }

  lemma NodeAmongFirst(nodes: seq<Tree>, p: string)
    requires nodes != [] && DistinctIds(nodes)
    ensures p != "" && Head(p) == nodes[0].data.id ==>
      NodeAmong(nodes, p) == NodeAtPathOrNull(nodes[0], Tail(p)) && NodeAmong(nodes[1..], p) == None
    ensures p != "" && Head(p) != nodes[0].data.id ==> NodeAmong(nodes, p) == NodeAmong(nodes[1..], p)
  {
    var rest := nodes[1..];
    forall j | 0 <= j < |rest|
      ensures rest[j].data.id != nodes[0].data.id
    {
      assert rest[j] == nodes[j + 1];
    }
  }

  lemma {:induction false} DueIsReached(nodes: seq<Tree>, parentPath: string, q: string, n: Tree)
    requires DistinctIds(nodes) && forall i :: 0 <= i < |nodes| ==> |nodes[i].data.id| == 2 && WellFormed(nodes[i])
    ensures Due(nodes, parentPath)[(q, n)] ==
            if parentPath <= q && NodeAmong(nodes, q[|parentPath|..]) == Some(n) then 1 else 0
    decreases SizeAll(nodes)
  {
    if nodes != [] {
      SizeOfFirst(nodes);
      var child := nodes[0];
      var path := parentPath + child.data.id;
      DueSplit(nodes, parentPath);
      DueIsReached(child.children, path, q, n);
      DueIsReached(nodes[1..], parentPath, q, n);
      BelowChild(parentPath, child.data.id, q);
      if parentPath <= q {
        var r := q[|parentPath|..];
        NodeAmongFirst(nodes, r);
        NodeBelow(child, Tail(r));
        assert q == path <==> r != "" && Head(r) == child.data.id && Tail(r) == "";
      }
    }
  }

  /** Seen from the tree: the page shows a node at a path once if that path leads to it, and never otherwise. */
  lemma {:induction false} ShownIsReached(show: bool, root: Tree, q: string, n: Tree)
    requires WellFormed(root)
    ensures Shown(PgnTree(show, root))[(q, n)] == if q != "" && NodeAtPathOrNull(root, q) == Some(n) then 1 else 0
  {
    EveryMoveOnce(show, root);
    DueIsReached(root.children, "", q, n);
    NodeBelow(root, q);
    assert q[0..] == q;
  }

  // ----- numbers in sidelines -----

  /** What a sideline shows of its head move before it goes on with the reply. */
  function BeforeReply(show: bool, nodes: seq<Tree>, args: Args): seq<Item>
    requires nodes != []
  {
    var child := nodes[0];
    var path := args.parentPath + child.data.id;
    [Move(path, child, Numbered(child, args))] + CommentsOf(show, child, path)
    + (if args.parenthetical then Lines(show, nodes[1..], args, false) else [])
  }

  /** A black reply that continues the line carries no number of its own. */
  lemma ReplyUnnumbered(show: bool, nodes: seq<Tree>, args: Args)
    requires nodes != [] && nodes[0].children != [] && !IsWhite(nodes[0].children[0].data.ply)
    requires |nodes[0].children| == 1 || IsParenthetical(nodes[0].children)
    ensures var before, items := BeforeReply(show, nodes, args), SidelineNodes(show, nodes, args);
            var reply := nodes[0].children[0];
            && before < items
            && items[|before|] == Move(args.parentPath + nodes[0].data.id + reply.data.id, reply, false)
  {
    SizeOfFirst(nodes);
    var child := nodes[0];
    var path := args.parentPath + child.data.id;
    var kids := child.children;
    var childArgs := Args(path, child, IsParenthetical(kids));
    var inside := SidelineNodes(show, kids, childArgs);
    assert inside[0] == Move(path + kids[0].data.id, kids[0], false) by {
      SizeOfFirst(kids);
      assert !Numbered(kids[0], childArgs);
    }
    var after := if args.parenthetical then [] else Lines(show, nodes[1..], args, false);
    assert SidelineNodes(show, nodes, args) == BeforeReply(show, nodes, args) + inside + after;
  }

  /**
   The last move on the page before that reply is its parent, so that the reply
   needs no number, exactly when no sibling of the parent stands in between.
   After a parenthesised sibling the reply is printed without the number that a
   reader would need there.
   */
  lemma ReplyFollowsParentIff(show: bool, nodes: seq<Tree>, args: Args)
    requires nodes != [] && DistinctIds(nodes)
    requires forall i :: 0 <= i < |nodes| ==> |nodes[i].data.id| == 2 && WellFormed(nodes[i])
    ensures var shown := Moves(BeforeReply(show, nodes, args));
            && shown != []
            && (shown[|shown| - 1] == (args.parentPath + nodes[0].data.id, nodes[0]) <==>
                 !(args.parenthetical && |nodes| > 1))
  {
    MovesBeforeReply(show, nodes, args);
    if args.parenthetical && |nodes| > 1 {
      LastOfSiblings(show, nodes, args);
      var shown := Moves(Lines(show, nodes[1..], args, false));
      var all := [(args.parentPath + nodes[0].data.id, nodes[0])] + shown;
      assert all[|all| - 1] == shown[|shown| - 1];
    }
  }

  lemma MovesBeforeReply(show: bool, nodes: seq<Tree>, args: Args)
    requires nodes != []
    ensures Moves(BeforeReply(show, nodes, args)) ==
            [(args.parentPath + nodes[0].data.id, nodes[0])] +
            if args.parenthetical then Moves(Lines(show, nodes[1..], args, false)) else []
  {
    var child := nodes[0];
    var path := args.parentPath + child.data.id;
    var head, comments := [Move(path, child, Numbered(child, args))], CommentsOf(show, child, path);
    MovesSplit(head, comments);
    MovesSplit(head + comments, if args.parenthetical then Lines(show, nodes[1..], args, false) else []);
    MovesOne(head[0]);
    MovesOne(Comment(path));
    assert Moves(comments) == [];
  }

  /** The elder sibling is not the last move that its siblings' lines show. */
  lemma LastOfSiblings(show: bool, nodes: seq<Tree>, args: Args)
    requires |nodes| > 1 && DistinctIds(nodes)
    requires forall i :: 0 <= i < |nodes| ==> |nodes[i].data.id| == 2 && WellFormed(nodes[i])
    ensures var shown := Moves(Lines(show, nodes[1..], args, false));
            shown != [] && shown[|shown| - 1] != (args.parentPath + nodes[0].data.id, nodes[0])
  {
    var shown := Moves(Lines(show, nodes[1..], args, false));
    assert multiset(shown) == Due(nodes[1..], args.parentPath) by {
      LinesShowAll(show, nodes[1..], args, false);
    }
    assert shown != [] by {
      DueSplit(nodes[1..], args.parentPath);
      assert (args.parentPath + nodes[1].data.id, nodes[1]) in multiset(shown);
    }
    NotAmongSiblings(nodes, args.parentPath);
    assert shown[|shown| - 1] in multiset(shown);
  }

  lemma NotAmongSiblings(nodes: seq<Tree>, parentPath: string)
    requires nodes != [] && DistinctIds(nodes)
    requires forall i :: 0 <= i < |nodes| ==> |nodes[i].data.id| == 2 && WellFormed(nodes[i])
    ensures Due(nodes[1..], parentPath)[(parentPath + nodes[0].data.id, nodes[0])] == 0
  {
    var path := parentPath + nodes[0].data.id;
    DueIsReached(nodes[1..], parentPath, path, nodes[0]);
    assert path[|parentPath|..] == nodes[0].data.id;
    NodeAmongFirst(nodes, nodes[0].data.id);
  }

  // ----- the rows of the mainline -----

  /** Plies go up by one along the mainline, the first child at every level. */
  predicate Alternating(nodes: seq<Tree>, ply: int)
    decreases SizeAll(nodes)
  {
    if nodes == [] then true
    else
      SizeOfFirst(nodes);
      nodes[0].data.ply == ply && Alternating(nodes[0].children, ply + 1)
  }

  /** Where every child is one ply below its parent, the plies go up by one along the mainline. */
  lemma {:induction false} PliesAlternate(t: Tree)
    requires PliesCount(t)
    ensures Alternating(t.children, t.data.ply + 1)
    decreases t
  {
    if t.children != [] {
      SizeOfFirst(t.children);
      PliesAlternate(t.children[0]);
    }
  }

  /** A slot holds a move of its colour and turn, or the placeholder. */
  predicate Slot(item: Item, turn: int, white: bool) {
    item.Empty? || (item.Move? && IsWhite(item.node.data.ply) == white && PlyToTurn(item.node.data.ply) == turn)
  }

  /** Rows of number, white slot and black slot, broken only by interrupts; the very last may lack its black slot. */
  predicate Rows(items: seq<Item>)
    decreases |items|
  {
    if items == [] then true
    else if items[0].Interrupt? then Rows(items[1..])
    else
      && items[0].Index? && |items| >= 2
      && Slot(items[1], items[0].turn, true)
      && (|items| == 2 || (Slot(items[2], items[0].turn, false) && Rows(items[3..])))
  }

  lemma RowDone(turn: int, w: Item, b: Item, rest: seq<Item>)
    requires Slot(w, turn, true) && Slot(b, turn, false) && Rows(rest)
    ensures Rows([Index(turn), w, b] + rest)
  {
    assert ([Index(turn), w, b] + rest)[3..] == rest;
  }

  lemma AfterInterrupt(inner: seq<Item>, rest: seq<Item>)
    requires Rows(rest)
    ensures Rows([Interrupt(inner)] + rest)
  {
    assert ([Interrupt(inner)] + rest)[1..] == rest;
  }

  /** White to move opens a row of its own. */
  lemma {:induction false} WhiteRows(show: bool, nodes: seq<Tree>, parentPath: string, parent: Tree, ply: int)
    requires Alternating(nodes, ply) && IsWhite(ply)
    ensures Rows(ColumnNodes(show, nodes, parentPath, parent))
    decreases SizeAll(nodes)
  {
    if nodes != [] {
      SizeOfFirst(nodes);
      var child, siblings := nodes[0], nodes[1..];
      var path := parentPath + child.data.id;
      var turn := PlyToTurn(ply);
      var head := Move(path, child, false);
      var rest := ColumnNodes(show, child.children, path, child);
      var all := ColumnNodes(show, nodes, parentPath, parent);
      if Interrupted(show, child, siblings) {
        var inner := CommentsOf(show, child, path) + Lines(show, siblings, Args(parentPath, parent, false), true);
        if child.children != [] {
          BlackRows(show, child.children, path, child, ply + 1, Empty);
          AfterInterrupt(inner, [Index(turn), Empty] + rest);
          RowDone(turn, head, Empty, [Interrupt(inner)] + ([Index(turn), Empty] + rest));
          assert all == [Index(turn), head, Empty] + ([Interrupt(inner)] + ([Index(turn), Empty] + rest));
        } else {
          assert rest == [];
          AfterInterrupt(inner, []);
          RowDone(turn, head, Empty, [Interrupt(inner)] + []);
          assert all == [Index(turn), head, Empty] + ([Interrupt(inner)] + []);
        }
      } else {
        BlackRows(show, child.children, path, child, ply + 1, head);
        assert all == [Index(turn), head] + rest;
      }
    }
  }

  /** Black to move completes the row that is open. */
  lemma {:induction false} BlackRows(
    show: bool, nodes: seq<Tree>, parentPath: string, parent: Tree, ply: int, w: Item)
    requires Alternating(nodes, ply) && !IsWhite(ply) && Slot(w, PlyToTurn(ply), true)
    ensures Rows([Index(PlyToTurn(ply)), w] + ColumnNodes(show, nodes, parentPath, parent))
    decreases SizeAll(nodes)
  {
    var turn := PlyToTurn(ply);
    if nodes != [] {
      SizeOfFirst(nodes);
      var child, siblings := nodes[0], nodes[1..];
      var path := parentPath + child.data.id;
      var head := Move(path, child, false);
      var rest := ColumnNodes(show, child.children, path, child);
      var all := [Index(turn), w] + ColumnNodes(show, nodes, parentPath, parent);
      assert Rows(rest) by {
        WhiteRows(show, child.children, path, child, ply + 1);
      }
      if Interrupted(show, child, siblings) {
        var inner := CommentsOf(show, child, path) + Lines(show, siblings, Args(parentPath, parent, false), true);
        assert all == [Index(turn), w, head] + ([Interrupt(inner)] + rest);
        assert Rows([Index(turn), w, head] + ([Interrupt(inner)] + rest)) by {
          AfterInterrupt(inner, rest);
          RowDone(turn, w, head, [Interrupt(inner)] + rest);
        }
      } else {
        assert all == [Index(turn), w, head] + rest;
        RowDone(turn, w, head, rest);
      }
    }
  }

  /** The mainline lies in complete rows, each under the number of every move in it. */
  lemma MainlineInRows(show: bool, root: Tree)
    requires Alternating(root.children, root.data.ply + 1)
    ensures Rows(PgnTree(show, root))
  {
    var ply := root.data.ply;
    var column := ColumnNodes(show, root.children, "", root);
    assert Rows(Opening(root) + column) by {
      if IsWhite(ply) {
        BlackRows(show, root.children, "", root, ply + 1, Empty);
      } else {
        WhiteRows(show, root.children, "", root, ply + 1);
        assert [] + column == column;
      }
    }
    if show && root.data.comment != "" {
      AfterInterrupt(CommentsOf(show, root, ""), Opening(root) + column);
    } else {
      assert [] + (Opening(root) + column) == Opening(root) + column;
    }
  }
}
