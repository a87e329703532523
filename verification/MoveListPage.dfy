/**
 What the move list puts on the page around each move
 (frontend/src/components/pgn/Tree.tsx:139-140, 274-440): its number, its
 comment, and the parentheses or line that it stands in, each decided from the
 tree alone. That every move is on the page once is in MoveList.dfy.
 */
module MoveListPage {
  import opened Wrappers
  import opened Paths
  import opened MoveTree
  import opened MoveList

  // ----- where a path lies in the tree -----

  /** The first child at every level. */
  predicate OnMainline(t: Tree, q: string)
    decreases |q|
  {
    q == "" || (t.children != [] && Head(q) == t.children[0].data.id && OnMainline(t.children[0], Tail(q)))
  }

  /** The moves that compete at this place of the tree. */
  function Choices(root: Tree, q: string): seq<Tree> {
    NodeAtPath(root, Init(q)).children
  }

  predicate IsFirst(root: Tree, q: string) {
    Choices(root, q) != [] && Choices(root, q)[0].data.id == Last(q)
  }

  /** A pair whose second move is put in parentheses: both are in a sideline. */
  predicate InPair(root: Tree, q: string) {
    !OnMainline(root, Init(q)) && IsParenthetical(Choices(root, q))
  }

  predicate HasRemark(show: bool, n: Tree) {
    show && n.data.comment != ""
  }

  /** White moves are numbered, and black ones that do not continue the line: neither alone nor first of a pair. */
  predicate NumberDue(root: Tree, q: string, n: Tree) {
    n.data.ply % 2 == 1
    || (|Choices(root, q)| > 1 && !(IsFirst(root, q) && IsParenthetical(Choices(root, q))))
  }

  // ----- the page -----

  /** A branch begins with its head move, which is the second of a pair or is not. */
  predicate Branch(root: Tree, items: seq<Item>, pair: bool) {
    items != [] && items[0].Move? && (InPair(root, items[0].path) <==> pair)
  }

  /** Sideline moves with their numbers and comments, parentheses around the second of a pair, lines otherwise. */
  predicate Sideline(show: bool, root: Tree, items: seq<Item>)
    decreases items
  {
    if items == [] then true
    else match items[0]
      case Move(q, n, numbered) =>
        && !OnMainline(root, q) && (numbered <==> NumberDue(root, q, n))
        && if HasRemark(show, n) then |items| > 1 && items[1] == Comment(q) && Sideline(show, root, items[2..])
           else Sideline(show, root, items[1..])
      case Inline(inner) =>
        Branch(root, inner, true) && Sideline(show, root, inner) && Sideline(show, root, items[1..])
      case Line(inner) =>
        Branch(root, inner, false) && Sideline(show, root, inner) && Sideline(show, root, items[1..])
      case _ => false
  }

  /** A mainline move is followed by an interrupt exactly when it has a comment or a rival. */
  predicate Breaks(show: bool, root: Tree, q: string, n: Tree) {
    HasRemark(show, n) || |Choices(root, q)| > 1
  }

  predicate InterruptFor(show: bool, root: Tree, q: string, n: Tree, item: Item) {
    && item.Interrupt?
    && if HasRemark(show, n) then item.items != [] && item.items[0] == Comment(q)
                                  && Sideline(show, root, item.items[1..])
       else Sideline(show, root, item.items)
  }

  /** The mainline's own items; how they form rows is in `MainlineInRows`. */
  predicate Mainline(show: bool, root: Tree, items: seq<Item>)
    decreases |items|
  {
    if items == [] then true
    else match items[0]
      case Move(q, n, numbered) =>
        && OnMainline(root, q) && !numbered
        && if Breaks(show, root, q, n) then
             var k := if n.data.ply % 2 == 1 then 2 else 1;
             && |items| > k && (k == 2 ==> items[1] == Empty)
             && InterruptFor(show, root, q, n, items[k]) && Mainline(show, root, items[k + 1..])
           else Mainline(show, root, items[1..])
      case Index(_) => Mainline(show, root, items[1..])
      case Empty => Mainline(show, root, items[1..])
      case _ => false
  }

  lemma AppendFrom<T>(a: seq<T>, b: seq<T>, k: nat)
    requires k <= |a|
    ensures (a + b)[..k] == a[..k] && (a + b)[k..] == a[k..] + b
  {
  }

  lemma {:induction false} SidelineAppend(show: bool, root: Tree, a: seq<Item>, b: seq<Item>)
    requires Sideline(show, root, a) && Sideline(show, root, b)
    ensures Sideline(show, root, a + b)
    decreases |a|
  {
    if a == [] {
      assert a + b == b;
    } else {
      if a[0].Move? && HasRemark(show, a[0].node) {
        SidelineAppend(show, root, a[2..], b);
        AppendFrom(a, b, 2);
      } else {
        SidelineAppend(show, root, a[1..], b);
        AppendFrom(a, b, 1);
      }
    }
  }

  /** A child of a node that the tree has at a path. */
  lemma ChildPlaced(root: Tree, parentPath: string, k: nat)
    requires WellFormed(root) && Reaches(root, parentPath)
    requires k < |NodeAtPathOrNull(root, parentPath).value.children|
    ensures var parent := NodeAtPathOrNull(root, parentPath).value;
            var q := parentPath + parent.children[k].data.id;
            && NodeAtPathOrNull(root, q) == Some(parent.children[k])
            && Init(q) == parentPath && Last(q) == parent.children[k].data.id
            && Choices(root, q) == parent.children
            && (IsFirst(root, q) <==> k == 0)
  {
    var parent := NodeAtPathOrNull(root, parentPath).value;
    assert DistinctIds(parent.children) by { ReachesWhole(root, parentPath); }
    assert NodeAtPath(root, parentPath) == parent by { NodeAtPathReached(root, parentPath); }
    ChildFound(root, parentPath, k);
    InitLastOf(parentPath, parent.children[k].data.id);
  }

  lemma {:induction false} MainlineChild(t: Tree, p: string, k: nat)
    requires WellFormed(t) && Reaches(t, p) && k < |NodeAtPathOrNull(t, p).value.children|
    ensures OnMainline(t, p + NodeAtPathOrNull(t, p).value.children[k].data.id) <==> OnMainline(t, p) && k == 0
    decreases |p|
  {
    var id := NodeAtPathOrNull(t, p).value.children[k].data.id;
    if p == "" {
      assert p + id == id;
      assert Head(id) == id && Tail(id) == "";
    } else {
      var c := t.children[ChildIndex(t.children, Head(p))];
      ReachesWhole(t, p);
      assert Head(p + id) == Head(p) && Tail(p + id) == Tail(p) + id;
      MainlineChild(c, Tail(p), k);
    }
  }

  // ----- the layout is such a page -----

  /** The arguments name a node of the tree, and the nodes are its children from number k on. */
  predicate Placed(root: Tree, args: Args, k: nat, nodes: seq<Tree>) {
    && WellFormed(root) && NodeAtPathOrNull(root, args.parentPath) == Some(args.parent)
    && k + |nodes| <= |args.parent.children| && nodes == args.parent.children[k..k + |nodes|]
    && (k > 0 || !OnMainline(root, args.parentPath))
  }

  lemma RemarkAfter(show: bool, root: Tree, q: string, n: Tree, numbered: bool)
    requires !OnMainline(root, q) && (numbered <==> NumberDue(root, q, n))
    ensures Sideline(show, root, [Move(q, n, numbered)] + CommentsOf(show, n, q))
  {
    var items := [Move(q, n, numbered)] + CommentsOf(show, n, q);
    assert items[1..] == CommentsOf(show, n, q);
    assert HasRemark(show, n) ==> items[2..] == [];
  }

  lemma {:induction false} LinesRight(show: bool, root: Tree, nodes: seq<Tree>, args: Args, k: nat, isMainline: bool)
    requires Placed(root, args, k, nodes) && k + |nodes| == |args.parent.children|
    requires isMainline ==> !args.parenthetical && OnMainline(root, args.parentPath)
    requires args.parenthetical ==>
      k == 1 && IsParenthetical(args.parent.children) && !OnMainline(root, args.parentPath)
    requires !args.parenthetical && !isMainline && nodes != [] ==> !IsParenthetical(args.parent.children)
    ensures Sideline(show, root, Lines(show, nodes, args, isMainline))
    decreases SizeAll(nodes), 2
  {
    if nodes != [] {
      var lineArgs := args.(parenthetical := false);
      if !isMainline && args.parenthetical {
        var inner := SidelineNodes(show, nodes, lineArgs);
        SidelineRight(show, root, nodes, lineArgs, k);
        BranchHead(show, root, nodes, lineArgs, k);
        assert [Inline(inner)][1..] == [];
      } else {
        EachLineRight(show, root, nodes, lineArgs, k);
      }
    }
  }

  lemma {:induction false} EachLineRight(show: bool, root: Tree, nodes: seq<Tree>, args: Args, k: nat)
    requires Placed(root, args, k, nodes) && !args.parenthetical
    requires nodes != [] ==>
      !IsParenthetical(args.parent.children) || (k > 0 && OnMainline(root, args.parentPath))
    ensures Sideline(show, root, EachLine(show, nodes, args))
    decreases SizeAll(nodes), 1
  {
    if nodes != [] {
      var inner, rest := SidelineNodes(show, [nodes[0]], args), EachLine(show, nodes[1..], args);
      assert SizeAll([nodes[0]]) == Size(nodes[0]);
      assert [nodes[0]] == args.parent.children[k..k + 1];
      SidelineRight(show, root, [nodes[0]], args, k);
      BranchHead(show, root, [nodes[0]], args, k);
      EachLineRight(show, root, nodes[1..], args, k + 1);
      LineThen(show, root, inner, rest);
    }
  }

  lemma LineThen(show: bool, root: Tree, inner: seq<Item>, rest: seq<Item>)
    requires Branch(root, inner, false) && Sideline(show, root, inner) && Sideline(show, root, rest)
    ensures Sideline(show, root, [Line(inner)] + rest)
  {
    assert ([Line(inner)] + rest)[1..] == rest;
  }

  lemma BranchHead(show: bool, root: Tree, nodes: seq<Tree>, args: Args, k: nat)
    requires Placed(root, args, k, nodes) && nodes != []
    ensures Branch(root, SidelineNodes(show, nodes, args),
                   IsParenthetical(args.parent.children) && !OnMainline(root, args.parentPath))
  {
    SidelineStep(show, nodes, args);
    ChildPlaced(root, args.parentPath, k);
  }

  lemma HeadRight(show: bool, root: Tree, nodes: seq<Tree>, args: Args, k: nat)
    requires Placed(root, args, k, nodes) && nodes != []
    requires args.parenthetical <==> k == 0 && IsParenthetical(args.parent.children)
    ensures var path := args.parentPath + nodes[0].data.id;
            Sideline(show, root,
              [Move(path, nodes[0], Numbered(nodes[0], args))] + CommentsOf(show, nodes[0], path))
    ensures !OnMainline(root, args.parentPath + nodes[0].data.id)
  {
    var path := args.parentPath + nodes[0].data.id;
    ChildPlaced(root, args.parentPath, k);
    MainlineChild(root, args.parentPath, k);
    assert Numbered(nodes[0], args) <==> NumberDue(root, path, nodes[0]);
    RemarkAfter(show, root, path, nodes[0], Numbered(nodes[0], args));
  }

  lemma {:induction false} SidelineRight(show: bool, root: Tree, nodes: seq<Tree>, args: Args, k: nat)
    requires Placed(root, args, k, nodes)
    requires |nodes| == 1 || k + |nodes| == |args.parent.children|
    requires nodes != [] ==> (args.parenthetical <==> k == 0 && IsParenthetical(args.parent.children))
    requires args.parenthetical ==> k + |nodes| == |args.parent.children|
    ensures Sideline(show, root, SidelineNodes(show, nodes, args))
    decreases SizeAll(nodes), 0
  {
    if nodes != [] {
      SizeOfFirst(nodes);
      var child, siblings := nodes[0], nodes[1..];
      var path := args.parentPath + child.data.id;
      var head := [Move(path, child, Numbered(child, args))] + CommentsOf(show, child, path);
      var beside, inside := Lines(show, siblings, args, false), Inside(show, child, path);
      HeadRight(show, root, nodes, args, k);
      assert Sideline(show, root, beside) by {
        if siblings != [] {
          LinesRight(show, root, siblings, args, k + 1, false);
        }
      }
      assert Sideline(show, root, inside) by {
        ChildPlaced(root, args.parentPath, k);
        InsideRight(show, root, child, path);
      }
      SidelineJoined(show, root, head, inside, beside);
      SidelineStep(show, nodes, args);
    }
  }

  lemma {:induction false} InsideRight(show: bool, root: Tree, child: Tree, path: string)
    requires WellFormed(root) && NodeAtPathOrNull(root, path) == Some(child) && !OnMainline(root, path)
    ensures Sideline(show, root, Inside(show, child, path))
    decreases SizeAll(child.children), 3
  {
    var kids := child.children;
    var args := Args(path, child, IsParenthetical(kids));
    assert kids == kids[0..0 + |kids|];
    assert Placed(root, args, 0, kids);
    if |kids| < 2 || args.parenthetical {
      SidelineRight(show, root, kids, args, 0);
    } else {
      LinesRight(show, root, kids, args, 0, false);
    }
  }

  /** What a sideline shows below its head move. */
  function Inside(show: bool, child: Tree, path: string): seq<Item> {
    var args := Args(path, child, IsParenthetical(child.children));
    if |child.children| < 2 || args.parenthetical then SidelineNodes(show, child.children, args)
    else Lines(show, child.children, args, false)
  }

  lemma SidelineStep(show: bool, nodes: seq<Tree>, args: Args)
    requires nodes != []
    ensures var child, beside := nodes[0], Lines(show, nodes[1..], args, false);
            var path := args.parentPath + child.data.id;
            var head := [Move(path, child, Numbered(child, args))] + CommentsOf(show, child, path);
            SidelineNodes(show, nodes, args) ==
            if args.parenthetical then head + beside + Inside(show, child, path)
            else head + Inside(show, child, path) + beside
  {
    SizeOfFirst(nodes);
    var child, beside := nodes[0], Lines(show, nodes[1..], args, false);
    var path := args.parentPath + child.data.id;
    var head := [Move(path, child, Numbered(child, args))] + CommentsOf(show, child, path);
    var inside := Inside(show, child, path);
    NothingBeside(head, inside, beside);
    if args.parenthetical {
      assert SidelineNodes(show, nodes, args) == head + beside + inside + [];
    } else {
      assert SidelineNodes(show, nodes, args) == head + [] + inside + beside;
    }
  }

  lemma NothingBeside(head: seq<Item>, inside: seq<Item>, beside: seq<Item>)
    ensures head + beside + inside + [] == head + beside + inside
    ensures head + [] + inside + beside == head + inside + beside
  {
  }

  /** A move with its comment, what hangs below it and what hangs beside it, in either order. */
  lemma SidelineJoined(show: bool, root: Tree, head: seq<Item>, inside: seq<Item>, beside: seq<Item>)
    requires Sideline(show, root, head) && Sideline(show, root, inside) && Sideline(show, root, beside)
    ensures Sideline(show, root, head + beside + inside) && Sideline(show, root, head + inside + beside)
  {
    SidelineAppend(show, root, head, beside);
    SidelineAppend(show, root, head + beside, inside);
    SidelineAppend(show, root, head, inside);
    SidelineAppend(show, root, head + inside, beside);
  }

  lemma {:induction false} ColumnRight(show: bool, root: Tree, parentPath: string, parent: Tree)
    requires WellFormed(root) && NodeAtPathOrNull(root, parentPath) == Some(parent) && OnMainline(root, parentPath)
    ensures Mainline(show, root, ColumnNodes(show, parent.children, parentPath, parent))
    decreases parent
  {
    var nodes := parent.children;
    if nodes != [] {
      SizeOfFirst(nodes);
      var child, siblings := nodes[0], nodes[1..];
      var path := parentPath + child.data.id;
      ChildPlaced(root, parentPath, 0);
      MainlineChild(root, parentPath, 0);
      ColumnRight(show, root, path, child);
      LinesRight(show, root, siblings, Args(parentPath, parent, false), 1, true);
      FirstRight(show, root, nodes, parentPath, parent);
    }
  }

  /** One mainline move with what follows it, when the lines and the rest of the column are right. */
  lemma FirstRight(show: bool, root: Tree, nodes: seq<Tree>, parentPath: string, parent: Tree)
    requires nodes != []
    requires var path := parentPath + nodes[0].data.id;
             && OnMainline(root, path) && Choices(root, path) == nodes
             && Mainline(show, root, ColumnNodes(show, nodes[0].children, path, nodes[0]))
             && Sideline(show, root, Lines(show, nodes[1..], Args(parentPath, parent, false), true))
    ensures Mainline(show, root, ColumnNodes(show, nodes, parentPath, parent))
  {
    var child := nodes[0];
    var path := parentPath + child.data.id;
    var rest := ColumnNodes(show, child.children, path, child);
    var lines := Lines(show, nodes[1..], Args(parentPath, parent, false), true);
    var inner := CommentsOf(show, child, path) + lines;
    assert |Choices(root, path)| > 1 <==> nodes[1..] != [];
    if Breaks(show, root, path, child) {
      RemarkThenLines(show, root, child, path, lines);
      BrokenRight(show, root, child, path, inner, rest);
      TurnThen(show, root, child,
               [Move(path, child, false)] + (Closing(child) + ([Interrupt(inner)] + (Reopening(child) + rest))));
      ColumnBroken(show, nodes, parentPath, parent);
    } else {
      assert ([Move(path, child, false)] + rest)[1..] == rest;
      TurnThen(show, root, child, [Move(path, child, false)] + rest);
      ColumnUnbroken(show, nodes, parentPath, parent);
    }
  }

  lemma ColumnBroken(show: bool, nodes: seq<Tree>, parentPath: string, parent: Tree)
    requires nodes != [] && Interrupted(show, nodes[0], nodes[1..])
    ensures var child := nodes[0];
            var path := parentPath + child.data.id;
            var rest := ColumnNodes(show, child.children, path, child);
            var lines := Lines(show, nodes[1..], Args(parentPath, parent, false), true);
            var inner := CommentsOf(show, child, path) + lines;
            ColumnNodes(show, nodes, parentPath, parent) ==
            TurnCell(child) + ([Move(path, child, false)] +
              (Closing(child) + ([Interrupt(inner)] + (Reopening(child) + rest))))
  {
    ColumnStep(show, nodes, parentPath, parent);
  }

  lemma ColumnUnbroken(show: bool, nodes: seq<Tree>, parentPath: string, parent: Tree)
    requires nodes != [] && !Interrupted(show, nodes[0], nodes[1..])
    ensures var child := nodes[0];
            var path := parentPath + child.data.id;
            ColumnNodes(show, nodes, parentPath, parent) ==
            TurnCell(child) + ([Move(path, child, false)] + ColumnNodes(show, child.children, path, child))
  {
    ColumnStep(show, nodes, parentPath, parent);
  }

  lemma RemarkThenLines(show: bool, root: Tree, child: Tree, path: string, lines: seq<Item>)
    requires Sideline(show, root, lines)
    ensures InterruptFor(show, root, path, child, Interrupt(CommentsOf(show, child, path) + lines))
  {
    var inner := CommentsOf(show, child, path) + lines;
    assert HasRemark(show, child) ==> inner[1..] == lines;
    assert !HasRemark(show, child) ==> inner == lines;
  }

  lemma TurnThen(show: bool, root: Tree, child: Tree, items: seq<Item>)
    requires Mainline(show, root, items)
    ensures Mainline(show, root, TurnCell(child) + items)
  {
    assert TurnCell(child) != [] ==> (TurnCell(child) + items)[1..] == items;
    assert TurnCell(child) == [] ==> TurnCell(child) + items == items;
  }

  lemma BrokenRight(show: bool, root: Tree, child: Tree, path: string, inner: seq<Item>, rest: seq<Item>)
    requires OnMainline(root, path) && Breaks(show, root, path, child)
    requires Mainline(show, root, rest) && InterruptFor(show, root, path, child, Interrupt(inner))
    ensures Mainline(show, root,
              [Move(path, child, false)] + (Closing(child) + ([Interrupt(inner)] + (Reopening(child) + rest))))
  {
    ReopeningRight(show, root, child, rest);
    BreakThen(show, root, child, path, Interrupt(inner), Reopening(child) + rest);
  }

  lemma BreakThen(show: bool, root: Tree, child: Tree, path: string, item: Item, after: seq<Item>)
    requires OnMainline(root, path) && Breaks(show, root, path, child)
    requires Mainline(show, root, after) && InterruptFor(show, root, path, child, item)
    ensures Mainline(show, root, [Move(path, child, false)] + (Closing(child) + ([item] + after)))
  {
    var head := Move(path, child, false);
    var items := [head] + (Closing(child) + ([item] + after));
    if child.data.ply % 2 == 1 {
      assert items == [head, Empty, item] + after;
      AppendFrom([head, Empty, item], after, 3);
    } else {
      assert items == [head, item] + after;
      AppendFrom([head, item], after, 2);
    }
  }

  lemma ReopeningRight(show: bool, root: Tree, child: Tree, rest: seq<Item>)
    requires Mainline(show, root, rest)
    ensures Mainline(show, root, Reopening(child) + rest)
  {
    var items := Reopening(child) + rest;
    if Reopening(child) == [] {
      assert items == rest;
    } else {
      assert items[1..][1..] == rest;
      assert Mainline(show, root, items[1..]);
    }
  }

  /** The whole panel: the root's comment first, if it has one, then the mainline. */
  lemma PageRight(show: bool, root: Tree)
    requires WellFormed(root)
    ensures var remark := if HasRemark(show, root) then [Interrupt([Comment("")])] else [];
            remark <= PgnTree(show, root) && Mainline(show, root, PgnTree(show, root)[|remark|..])
  {
    var column := ColumnNodes(show, root.children, "", root);
    ColumnRight(show, root, "", root);
    OpeningRight(show, root, column);
    AppendFrom(RootComment(show, root), Opening(root) + column, |RootComment(show, root)|);
  }

  lemma OpeningRight(show: bool, root: Tree, rest: seq<Item>)
    requires Mainline(show, root, rest)
    ensures Mainline(show, root, Opening(root) + rest)
  {
    var items := Opening(root) + rest;
    if Opening(root) == [] {
      assert items == rest;
    } else {
      assert items[1..][1..] == rest;
      assert Mainline(show, root, items[1..]);
    }
  }

  // ----- turns and pairs -----

  /** White's and Black's k-th moves are in turn k. */
  lemma TurnOfPly(k: int)
    ensures PlyToTurn(2 * k - 1) == k && IsWhite(2 * k - 1)
    ensures PlyToTurn(2 * k) == k && !IsWhite(2 * k)
  {
  }

  /** The node n plies down the first line from here. */
  function Along(t: Tree, n: nat): Option<Tree> {
    if n == 0 then Some(t) else if t.children == [] then None else Along(t.children[0], n - 1)
  }

  predicate ChoiceAt(t: Tree, n: nat) {
    Along(t, n).Some? && |Along(t, n).value.children| > 1
  }

  /** A short and straight line has no choice in its first few moves. */
  lemma {:induction false} BranchesIff(t: Tree, depth: nat)
    ensures HasBranching(t, depth) <==> exists n: nat :: n < depth && ChoiceAt(t, n)
    decreases depth
  {
    if depth > 0 {
      assert ChoiceAt(t, 0) <==> |t.children| > 1;
      if |t.children| == 1 {
        var c := t.children[0];
        BranchesIff(c, depth - 1);
        if n: nat :| n < depth && ChoiceAt(t, n) {
          assert n > 0 && ChoiceAt(c, n - 1);
        }
        if n: nat :| n < depth - 1 && ChoiceAt(c, n) {
          assert ChoiceAt(t, n + 1);
        }
      }
    }
  }
}
