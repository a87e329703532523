/**
 The browser's move tree (frontend/src/types/training.ts,
 frontend/src/util/tree.ts) as a value: look-ups by path and edits at a path.
 HeapTree.dfy holds the versions that change nodes in place.
 */
module MoveTree {
  import opened Wrappers
  import opened Paths

  /** A spaced-repetition card: its due time, and the scheduler's own state. */
  datatype Card = Card(due: int, memory: int)

  datatype MoveData = MoveData(
    id: string, fen: string, ply: int, san: string,
    comment: string, enabled: bool, training: map<string, Card>)

  datatype Tree = Node(data: MoveData, children: seq<Tree>)

  datatype TrainingMethod = LearnMode | RecallMode | EditMode

  /** `children.find(c => c.data.id === id)`: the first match, or |kids|. */
  function ChildIndex(kids: seq<Tree>, id: string): (i: nat)
    ensures i <= |kids|
    ensures i < |kids| ==> kids[i].data.id == id
    ensures forall j :: 0 <= j < i ==> kids[j].data.id != id
  {
    if kids == [] || kids[0].data.id == id then 0 else 1 + ChildIndex(kids[1..], id)
  }

  predicate HasChild(t: Tree, id: string) {
    ChildIndex(t.children, id) < |t.children|
  }

  function NodeAtPathOrNull(t: Tree, p: string): Option<Tree>
    decreases |p|
  {
    if p == "" then Some(t)
    else
      var i := ChildIndex(t.children, Head(p));
      if i < |t.children| then NodeAtPathOrNull(t.children[i], Tail(p)) else None
  }

  predicate Reaches(t: Tree, p: string) {
    NodeAtPathOrNull(t, p).Some?
  }

  /** `nodeAtPath`: stops at the deepest ancestor it can reach. */
  function NodeAtPath(t: Tree, p: string): Tree
    decreases |p|
  {
    if p == "" then t
    else
      var i := ChildIndex(t.children, Head(p));
      if i < |t.children| then NodeAtPath(t.children[i], Tail(p)) else t
  }

  /** The part of p that `nodeAtPath` follows before it gives up. */
  function ReachedPart(t: Tree, p: string): string
    decreases |p|
  {
    if p == "" then ""
    else
      var i := ChildIndex(t.children, Head(p));
      if i < |t.children| then Head(p) + ReachedPart(t.children[i], Tail(p)) else ""
  }

  predicate DistinctIds(kids: seq<Tree>) {
    forall i, j :: 0 <= i < j < |kids| ==> kids[i].data.id != kids[j].data.id
  }

  /** Two-character ids, pairwise different among siblings. */
  predicate WellFormed(t: Tree)
    decreases t
  {
    && DistinctIds(t.children)
    && forall i :: 0 <= i < |t.children| ==> |t.children[i].data.id| == 2 && WellFormed(t.children[i])
  }

  /** What a reader of the tree sees at a path: the data of the node there, if any. */
  function View(t: Tree, p: string): Option<MoveData> {
    match NodeAtPathOrNull(t, p)
    case None => None
    case Some(n) => Some(n.data)
  }

  /** The node a path leads to among a list of siblings. */
  function ViewAmong(kids: seq<Tree>, p: string): Option<MoveData> {
    var i := ChildIndex(kids, Head(p));
    if p != "" && i < |kids| then View(kids[i], Tail(p)) else None
  }

  /** `updateAt` with the update as a function on nodes; a miss changes nothing. */
  function UpdateAt(t: Tree, p: string, f: Tree -> Tree): Tree
    decreases |p|
  {
    if p == "" then f(t)
    else
      var i := ChildIndex(t.children, Head(p));
      if i < |t.children| then
        t.(children := t.children[i := UpdateAt(t.children[i], Tail(p), f)])
      else t
  }

  /** An update of the node returned by `nodeAtPath`. */
  function UpdateNearest(t: Tree, p: string, f: Tree -> Tree): Tree {
    UpdateAt(t, ReachedPart(t, p), f)
  }

  function Without(kids: seq<Tree>, id: string): (r: seq<Tree>)
    ensures forall c :: c in r <==> c in kids && c.data.id != id
  {
    if kids == [] then []
    else if kids[0].data.id == id then Without(kids[1..], id)
    else [kids[0]] + Without(kids[1..], id)
  }

  function Pushing(c: Tree): Tree -> Tree {
    (n: Tree) => n.(children := n.children + [c])
  }

  function Removing(id: string): Tree -> Tree {
    (n: Tree) => n.(children := Without(n.children, id))
  }

  function Writing(g: MoveData -> MoveData): Tree -> Tree {
    (n: Tree) => n.(data := g(n.data))
  }

  function Commenting(comment: string): MoveData -> MoveData {
    (d: MoveData) => d.(comment := comment)
  }

  function Carding(user: string, card: Card): MoveData -> MoveData {
    (d: MoveData) => d.(training := d.training[user := card])
  }

  function DeleteNodeAt(t: Tree, p: string): Tree {
    UpdateNearest(t, Init(p), Removing(Last(p)))
  }

  /** How many nodes of the tree satisfy a test; the visits of `forEachNode`. */
  function Count(t: Tree, test: MoveData -> bool): nat
    decreases t, 0
  {
    (if test(t.data) then 1 else 0) + CountAll(t.children, test)
  }

  function CountAll(kids: seq<Tree>, test: MoveData -> bool): nat
    decreases kids
  {
    if kids == [] then 0 else Count(kids[0], test) + CountAll(kids[1..], test)
  }

  /** The number of nodes. */
  function Size(t: Tree): nat
    decreases t, 0
  {
    1 + SizeAll(t.children)
  }

  function SizeAll(kids: seq<Tree>): nat
    decreases kids
  {
    if kids == [] then 0 else Size(kids[0]) + SizeAll(kids[1..])
  }

  lemma SizeOfFirst(kids: seq<Tree>)
    requires kids != []
    ensures SizeAll(kids) == 1 + SizeAll(kids[0].children) + SizeAll(kids[1..])
  {
  }

  // ----- looking up -----

  lemma ChildIndexUnique(kids: seq<Tree>, i: nat)
    requires DistinctIds(kids) && i < |kids|
    ensures ChildIndex(kids, kids[i].data.id) == i
  {
  }

  lemma HeadPart(path: string, part: string)
    requires path != "" && part <= Tail(path)
    ensures Head(path) + part <= path
    ensures Head(Head(path) + part) == Head(path) && Tail(Head(path) + part) == part
    ensures Head(path) + part == path <==> part == Tail(path)
  {
    HeadTail(path);
    if part != "" {
      HeadTailOf(Head(path), part);
    } else {
      assert Head(path) + part == Head(path);
    }
  }

  lemma {:induction false} NodeAtPathReached(t: Tree, p: string)
    ensures ReachedPart(t, p) <= p
    ensures NodeAtPathOrNull(t, ReachedPart(t, p)) == Some(NodeAtPath(t, p))
    ensures Reaches(t, p) <==> ReachedPart(t, p) == p
    decreases |p|
  {
    if p != "" {
      HeadTail(p);
      var i := ChildIndex(t.children, Head(p));
      if i < |t.children| {
        var c := t.children[i];
        NodeAtPathReached(c, Tail(p));
        var r, s := ReachedPart(t, p), ReachedPart(c, Tail(p));
        assert r == Head(p) + s && NodeAtPath(t, p) == NodeAtPath(c, Tail(p));
        HeadPart(p, s);
        assert r != "" && NodeAtPathOrNull(t, r) == NodeAtPathOrNull(c, s);
        assert NodeAtPathOrNull(t, p) == NodeAtPathOrNull(c, Tail(p));
      }
    }
  }

  /** Only paths made of whole ids lead anywhere in a well-formed tree. */
  lemma {:induction false} ReachesWhole(t: Tree, p: string)
    requires WellFormed(t) && Reaches(t, p)
    ensures Whole(p) && WellFormed(NodeAtPathOrNull(t, p).value)
    ensures p != "" ==> NodeAtPathOrNull(t, p).value.data.id == Last(p)
    decreases |p|
  {
    if p != "" {
      var c := t.children[ChildIndex(t.children, Head(p))];
      assert |c.data.id| == 2 && WellFormed(c);
      assert NodeAtPathOrNull(t, p) == NodeAtPathOrNull(c, Tail(p));
      ReachesWhole(c, Tail(p));
      LastOfTail(p);
    }
  }

  lemma LastOfTail(p: string)
    requires |p| >= 2 && Whole(Tail(p))
    ensures Whole(p) && Last(p) == if Tail(p) == "" then Head(p) else Last(Tail(p))
  {
  }

  lemma {:induction false} NodeAtAppend(t: Tree, p: string, r: string)
    requires Whole(p)
    ensures NodeAtPathOrNull(t, p + r) ==
            match NodeAtPathOrNull(t, p) case None => None case Some(n) => NodeAtPathOrNull(n, r)
    decreases |p|
  {
    if p == "" {
      assert p + r == r;
    } else {
      assert p + r == Head(p) + (Tail(p) + r);
      HeadTailOf(Head(p), Tail(p) + r);
      var i := ChildIndex(t.children, Head(p));
      if i < |t.children| {
        NodeAtAppend(t.children[i], Tail(p), r);
      }
    }
  }

  /** Reaching a path means reaching every ancestor of it. */
  lemma ReachesPrefix(t: Tree, p: string, q: string)
    requires Whole(p) && p <= q && Reaches(t, q)
    ensures Reaches(t, p)
  {
    assert q == p + q[|p|..];
    NodeAtAppend(t, p, q[|p|..]);
  }

  /** No reachable ancestor of a path is deeper than the one `nodeAtPath` stops at. */
  lemma {:induction false} ReachedLongest(t: Tree, p: string, u: string)
    requires WellFormed(t) && u <= p && Reaches(t, u)
    ensures |u| <= |ReachedPart(t, p)|
    decreases |p|
  {
    if u != "" {
      ReachesWhole(t, u);
      if |p| != 1 {
        PrefixByHead(u, p);
        ReachedLongest(t.children[ChildIndex(t.children, Head(p))], Tail(p), Tail(u));
        TailWhole(u);
      }
    }
  }

  // ----- editing -----

  lemma {:induction false} UpdateReplaces(t: Tree, p: string, f: Tree -> Tree)
    requires Reaches(t, p)
    requires p != "" ==> f(NodeAtPathOrNull(t, p).value).data.id == NodeAtPathOrNull(t, p).value.data.id
    ensures UpdateAt(t, p, f).data.id == t.data.id || p == ""
    ensures NodeAtPathOrNull(UpdateAt(t, p, f), p) == Some(f(NodeAtPathOrNull(t, p).value))
    decreases |p|
  {
    if p != "" {
      var i := ChildIndex(t.children, Head(p));
      UpdateReplaces(t.children[i], Tail(p), f);
      var kids := UpdateAt(t, p, f).children;
      assert forall j :: 0 <= j < |kids| ==> kids[j].data.id == t.children[j].data.id;
      assert ChildIndex(kids, Head(p)) == i;
    }
  }

  lemma {:induction false} UpdateMissing(t: Tree, p: string, f: Tree -> Tree)
    requires !Reaches(t, p)
    ensures UpdateAt(t, p, f) == t
    decreases |p|
  {
    var i := ChildIndex(t.children, Head(p));
    if i < |t.children| {
      UpdateMissing(t.children[i], Tail(p), f);
      assert t.children[i := t.children[i]] == t.children;
    }
  }

  /**
   What an update at p shows at every path q: below p it is the updated node's
   own view, everywhere else nothing changed.
   */
  lemma {:induction false} ViewUpdate(t: Tree, p: string, f: Tree -> Tree, q: string)
    requires WellFormed(t) && Reaches(t, p)
    requires p != "" ==> f(NodeAtPathOrNull(t, p).value).data.id == NodeAtPathOrNull(t, p).value.data.id
    ensures View(UpdateAt(t, p, f), q) ==
            if p <= q then View(f(NodeAtPathOrNull(t, p).value), q[|p|..]) else View(t, q)
    decreases |p|
  {
    if p == "" {
      assert q[0..] == q;
    } else {
      var c := t.children[ChildIndex(t.children, Head(p))];
      ViewUpdateStep(t, p, f, q);
      ReachesWhole(t, p);
      UnderHead(p, q);
      assert NodeAtPathOrNull(t, p) == NodeAtPathOrNull(c, Tail(p));
      if q != "" && Head(q) == Head(p) {
        assert View(t, q) == View(c, Tail(q));
        ViewUpdate(c, Tail(p), f, Tail(q));
      }
    }
  }

  lemma UnderHead(p: string, q: string)
    requires Whole(p) && p != ""
    ensures p <= q <==> q != "" && Head(q) == Head(p) && Tail(p) <= Tail(q)
    ensures p <= q ==> q[|p|..] == Tail(q)[|Tail(p)|..]
  {
    if |q| != 1 {
      PrefixByHead(p, q);
    }
  }

  /** One level of an update: only the child on the way to p changes. */
  lemma ViewUpdateStep(t: Tree, p: string, f: Tree -> Tree, q: string)
    requires Reaches(t, p) && p != ""
    requires f(NodeAtPathOrNull(t, p).value).data.id == NodeAtPathOrNull(t, p).value.data.id
    ensures var c := t.children[ChildIndex(t.children, Head(p))];
            View(UpdateAt(t, p, f), q) ==
            if q != "" && Head(q) == Head(p) then View(UpdateAt(c, Tail(p), f), Tail(q)) else View(t, q)
  {
    var i := ChildIndex(t.children, Head(p));
    var c := t.children[i];
    var c' := UpdateAt(c, Tail(p), f);
    UpdateKeepsId(t, p, f);
    assert UpdateAt(t, p, f) == Node(t.data, t.children[i := c']);
    if q != "" {
      SameIdsSameIndex(t.children, t.children[i := c'], Head(q));
      ViewStep(t, q);
      ViewStep(Node(t.data, t.children[i := c']), q);
    }
  }

  lemma UpdateKeepsId(t: Tree, p: string, f: Tree -> Tree)
    requires Reaches(t, p) && p != ""
    requires f(NodeAtPathOrNull(t, p).value).data.id == NodeAtPathOrNull(t, p).value.data.id
    ensures var c := t.children[ChildIndex(t.children, Head(p))];
            UpdateAt(c, Tail(p), f).data.id == c.data.id
  {
    var c := t.children[ChildIndex(t.children, Head(p))];
    assert NodeAtPathOrNull(t, p) == NodeAtPathOrNull(c, Tail(p));
    if Tail(p) != "" {
      UpdateReplaces(c, Tail(p), f);
    }
  }

  lemma ViewStep(t: Tree, q: string)
    requires q != ""
    ensures View(t, q) == ViewAmong(t.children, q)
  {
  }

  lemma SameIdsSameIndex(kids: seq<Tree>, kids': seq<Tree>, id: string)
    requires |kids| == |kids'|
    requires forall j :: 0 <= j < |kids| ==> kids'[j].data.id == kids[j].data.id
    ensures ChildIndex(kids, id) == ChildIndex(kids', id)
  {
  }

  lemma {:induction false} UpdateWellFormed(t: Tree, p: string, f: Tree -> Tree)
    requires WellFormed(t) && Reaches(t, p)
    requires WellFormed(f(NodeAtPathOrNull(t, p).value))
    requires p != "" ==> f(NodeAtPathOrNull(t, p).value).data.id == NodeAtPathOrNull(t, p).value.data.id
    ensures WellFormed(UpdateAt(t, p, f))
    decreases |p|
  {
    if p != "" {
      var i := ChildIndex(t.children, Head(p));
      UpdateWellFormed(t.children[i], Tail(p), f);
      UpdateReplaces(t.children[i], Tail(p), f);
    }
  }

  /** A node's own view after a push: the new child's paths, then its old ones. */
  lemma PushView(n: Tree, c: Tree, r: string)
    requires !HasChild(n, c.data.id)
    ensures View(Pushing(c)(n), r) ==
            if r != "" && Head(r) == c.data.id then View(c, Tail(r)) else View(n, r)
  {
    if r != "" {
      PushedIndex(n.children, c, Head(r));
      var kids := n.children + [c];
      assert Pushing(c)(n) == n.(children := kids);
      var i := ChildIndex(kids, Head(r));
      assert i < |n.children| ==> kids[i] == n.children[i];
    }
  }

  /** The node pushed by `addMove` appears with its subtree, and nothing else moves. */
  lemma {:induction false} ViewPush(t: Tree, p: string, c: Tree, q: string)
    requires WellFormed(t) && Reaches(t, p) && |c.data.id| == 2 && !Reaches(t, p + c.data.id)
    ensures View(UpdateAt(t, p, Pushing(c)), q) ==
            if p + c.data.id <= q then View(c, q[|p| + 2..]) else View(t, q)
  {
    var n := NodeAtPathOrNull(t, p).value;
    ReachesWhole(t, p);
    ViewUpdate(t, p, Pushing(c), q);
    NotChild(t, p, c.data.id);
    BelowChild(p, c.data.id, q);
    if p <= q {
      PushView(n, c, q[|p|..]);
      ViewBelow(t, p, q);
    }
  }

  /** For a path below p, seen from the node at p. */
  lemma ViewBelow(t: Tree, p: string, q: string)
    requires Whole(p) && Reaches(t, p) && p <= q
    ensures View(t, q) == View(NodeAtPathOrNull(t, p).value, q[|p|..])
  {
    assert q == p + q[|p|..];
    NodeAtAppend(t, p, q[|p|..]);
  }

  lemma NotChild(t: Tree, p: string, id: string)
    requires Whole(p) && |id| == 2 && Reaches(t, p)
    ensures Reaches(t, p + id) <==> HasChild(NodeAtPathOrNull(t, p).value, id)
  {
    NodeAtAppend(t, p, id);
  }

  /** q lies below the child `id` of p exactly when it goes on with that id. */
  lemma BelowChild(p: string, id: string, q: string)
    requires |id| == 2
    ensures p + id <= q <==> p <= q && q[|p|..] != "" && Head(q[|p|..]) == id
    ensures p + id <= q ==> Tail(q[|p|..]) == q[|p| + 2..]
  {
    if p + id <= q {
      assert q[..|p|] == (p + id)[..|p|] == p;
    }
    if p <= q {
      var r := q[|p|..];
      assert q == p + r;
      assert p + id <= q <==> id <= r by {
        if id <= r {
          assert q == (p + id) + r[2..];
        }
        if p + id <= q {
          assert r[..2] == (p + id)[|p|..] == id;
        }
      }
      assert |r| >= 2 ==> Head(r) == r[..2];
    }
  }

  lemma PushedIndex(kids: seq<Tree>, c: Tree, id: string)
    ensures ChildIndex(kids + [c], id) ==
            if ChildIndex(kids, id) < |kids| then ChildIndex(kids, id)
            else if c.data.id == id then |kids| else |kids| + 1
  {
    if kids != [] {
      assert (kids + [c])[1..] == kids[1..] + [c];
    }
  }

  lemma WithoutIndex(kids: seq<Tree>, id: string, h: string)
    requires DistinctIds(kids)
    ensures DistinctIds(Without(kids, id))
    ensures var w, i, j := Without(kids, id), ChildIndex(kids, h), ChildIndex(Without(kids, id), h);
            && (j < |w| <==> i < |kids| && h != id)
            && (j < |w| ==> w[j] == kids[i])
  {
    var w, i, j := Without(kids, id), ChildIndex(kids, h), ChildIndex(Without(kids, id), h);
    WithoutDistinct(kids, id);
    if j < |w| {
      assert w[j] in kids;
      var k :| 0 <= k < |kids| && kids[k] == w[j];
      assert k == i;
    }
    if i < |kids| && h != id {
      assert kids[i] in w;
      var k :| 0 <= k < |w| && w[k] == kids[i];
      assert w[k].data.id == h;
    }
  }

  lemma WithoutDistinct(kids: seq<Tree>, id: string)
    requires DistinctIds(kids)
    ensures DistinctIds(Without(kids, id))
  {
    if kids != [] {
      WithoutDistinct(kids[1..], id);
      var w := Without(kids[1..], id);
      forall j | 0 <= j < |w|
        ensures w[j].data.id != kids[0].data.id
      {
        assert w[j] in kids[1..];
      }
    }
  }

  lemma RemoveView(n: Tree, id: string, r: string)
    requires DistinctIds(n.children)
    ensures View(Removing(id)(n), r) == if r != "" && Head(r) == id then None else View(n, r)
  {
    if r != "" {
      WithoutIndex(n.children, id, Head(r));
    }
  }

  /** `deleteNodeAt` on a reachable path hides exactly the paths below it. */
  lemma {:induction false} ViewDelete(t: Tree, p: string, q: string)
    requires WellFormed(t) && Reaches(t, p) && p != ""
    ensures View(DeleteNodeAt(t, p), q) == if p <= q then None else View(t, q)
  {
    DeleteReaches(t, p);
    var u := Init(p);
    HeadTail(p);
    ReachesWhole(t, u);
    ViewUpdate(t, u, Removing(Last(p)), q);
    BelowChild(u, Last(p), q);
    if u <= q {
      RemoveView(NodeAtPathOrNull(t, u).value, Last(p), q[|u|..]);
      ViewBelow(t, u, q);
    }
  }

  lemma DeleteReaches(t: Tree, p: string)
    requires WellFormed(t) && Reaches(t, p) && p != ""
    ensures Reaches(t, Init(p)) && ReachedPart(t, Init(p)) == Init(p) && |Last(p)| == 2
  {
    assert Whole(p) by {
      ReachesWhole(t, p);
    }
    InitWhole(p);
    assert Reaches(t, Init(p)) by {
      ReachesPrefix(t, Init(p), p);
    }
    assert ReachedPart(t, Init(p)) == Init(p) by {
      NodeAtPathReached(t, Init(p));
    }
  }

  lemma DeleteWellFormed(t: Tree, p: string)
    requires WellFormed(t)
    ensures WellFormed(DeleteNodeAt(t, p))
  {
    NodeAtPathReached(t, Init(p));
    var u := ReachedPart(t, Init(p));
    ReachesWhole(t, u);
    var n := NodeAtPathOrNull(t, u).value;
    WithoutDistinct(n.children, Last(p));
    var n' := Removing(Last(p))(n);
    forall i | 0 <= i < |n'.children|
      ensures |n'.children[i].data.id| == 2 && WellFormed(n'.children[i])
    {
      assert n'.children[i] in n.children;
    }
    UpdateWellFormed(t, u, Removing(Last(p)));
  }

  lemma PushWellFormed(t: Tree, p: string, c: Tree)
    requires WellFormed(t) && WellFormed(c) && |c.data.id| == 2
    requires Reaches(t, p) && !Reaches(t, p + c.data.id)
    ensures WellFormed(UpdateAt(t, p, Pushing(c)))
  {
    var n := NodeAtPathOrNull(t, p).value;
    assert Whole(p) && WellFormed(n) by {
      ReachesWhole(t, p);
    }
    assert !HasChild(n, c.data.id) by {
      NotChild(t, p, c.data.id);
    }
    PushedWellFormed(n, c);
    UpdateWellFormed(t, p, Pushing(c));
  }

  lemma PushedWellFormed(n: Tree, c: Tree)
    requires WellFormed(n) && WellFormed(c) && |c.data.id| == 2 && !HasChild(n, c.data.id)
    ensures WellFormed(Pushing(c)(n))
  {
  }

  /** Writing a node's data (its comment or its cards) shows at that path only. */
  lemma {:induction false} ViewWrite(t: Tree, p: string, g: MoveData -> MoveData, q: string)
    requires WellFormed(t) && Reaches(t, p)
    requires g(View(t, p).value).id == View(t, p).value.id
    ensures WellFormed(UpdateAt(t, p, Writing(g)))
    ensures View(UpdateAt(t, p, Writing(g)), q) == if p == q then Some(g(View(t, p).value)) else View(t, q)
  {
    var n := NodeAtPathOrNull(t, p).value;
    assert Whole(p) && WellFormed(n) by {
      ReachesWhole(t, p);
    }
    var n' := n.(data := g(n.data));
    assert Writing(g)(n) == n' && WellFormed(n');
    UpdateWellFormed(t, p, Writing(g));
    ViewUpdate(t, p, Writing(g), q);
    if p <= q {
      ViewBelow(t, p, q);
      ViewData(n, n', q[|p|..]);
      assert q[|p|..] == "" <==> p == q;
    }
  }

  lemma ViewData(n: Tree, n': Tree, r: string)
    requires n'.children == n.children
    ensures View(n', r) == if r == "" then Some(n'.data) else View(n, r)
  {
  }

  // ----- counting -----

  lemma {:induction false} CountAllSplit(a: seq<Tree>, b: seq<Tree>, test: MoveData -> bool)
    ensures CountAll(a + b, test) == CountAll(a, test) + CountAll(b, test)
  {
    if a == [] {
      assert a + b == b;
    } else {
      CountAllSplit(a[1..], b, test);
      assert (a + b)[1..] == a[1..] + b;
    }
  }

  lemma CountAllReplace(kids: seq<Tree>, i: nat, c: Tree, test: MoveData -> bool)
    requires i < |kids|
    ensures CountAll(kids[i := c], test) == CountAll(kids, test) - Count(kids[i], test) + Count(c, test)
  {
    assert kids == kids[..i] + ([kids[i]] + kids[i + 1..]);
    assert kids[i := c] == kids[..i] + ([c] + kids[i + 1..]);
    CountAllSplit(kids[..i], [kids[i]] + kids[i + 1..], test);
    CountAllSplit(kids[..i], [c] + kids[i + 1..], test);
  }

  lemma {:induction false} CountChild(kids: seq<Tree>, i: nat, test: MoveData -> bool)
    requires i < |kids|
    ensures Count(kids[i], test) <= CountAll(kids, test)
  {
    if i > 0 {
      CountChild(kids[1..], i - 1, test);
    }
  }

  lemma {:induction false} CountUpdate(t: Tree, p: string, f: Tree -> Tree, test: MoveData -> bool)
    requires Reaches(t, p)
    ensures var n := NodeAtPathOrNull(t, p).value;
            && Count(n, test) <= Count(t, test)
            && Count(UpdateAt(t, p, f), test) == Count(t, test) - Count(n, test) + Count(f(n), test)
    decreases |p|
  {
    if p != "" {
      var i := ChildIndex(t.children, Head(p));
      var c := t.children[i];
      CountUpdate(c, Tail(p), f, test);
      var c' := UpdateAt(c, Tail(p), f);
      CountAllReplace(t.children, i, c', test);
      assert UpdateAt(t, p, f) == Node(t.data, t.children[i := c']);
      CountChild(t.children, i, test);
    }
  }

  /** The nodes `removeChild` drops: every child with the id. */
  function CountRemoved(kids: seq<Tree>, id: string, test: MoveData -> bool): nat {
    if kids == [] then 0
    else (if kids[0].data.id == id then Count(kids[0], test) else 0) + CountRemoved(kids[1..], id, test)
  }

  lemma CountWithout(kids: seq<Tree>, id: string, test: MoveData -> bool)
    ensures CountAll(Without(kids, id), test) + CountRemoved(kids, id, test) == CountAll(kids, test)
  {
  }

  lemma CountRemovedDistinct(kids: seq<Tree>, id: string, test: MoveData -> bool)
    requires DistinctIds(kids)
    ensures var i := ChildIndex(kids, id);
            CountRemoved(kids, id, test) == if i < |kids| then Count(kids[i], test) else 0
  {
    if kids != [] {
      CountRemovedDistinct(kids[1..], id, test);
    }
  }

  /** Below a node of the tree each child is found under its own id. */
  lemma ChildFound(t: Tree, p: string, i: nat)
    requires WellFormed(t) && Reaches(t, p) && i < |NodeAtPathOrNull(t, p).value.children|
    ensures var c := NodeAtPathOrNull(t, p).value.children[i];
            NodeAtPathOrNull(t, p + c.data.id) == Some(c)
  {
    var n := NodeAtPathOrNull(t, p).value;
    var id := n.children[i].data.id;
    ReachesWhole(t, p);
    NodeAtAppend(t, p, id);
    ChildIndexUnique(n.children, i);
    assert Head(id) == id && Tail(id) == "";
  }

  // ----- plies -----

  /** Every child is one ply below its parent. */
  predicate PliesCount(t: Tree)
    decreases t
  {
    forall i :: 0 <= i < |t.children| ==>
      t.children[i].data.ply == t.data.ply + 1 && PliesCount(t.children[i])
  }

  /** A pushed move one ply below its parent keeps the plies counting. */
  lemma {:induction false} PushKeepsPlies(t: Tree, at: string, move: MoveData)
    requires PliesCount(t) && Reaches(t, at) && move.ply == NodeAtPathOrNull(t, at).value.data.ply + 1
    ensures var t' := UpdateAt(t, at, Pushing(Node(move, [])));
            PliesCount(t') && t'.data.ply == t.data.ply
    decreases |at|
  {
    if at != "" {
      var i := ChildIndex(t.children, Head(at));
      PushKeepsPlies(t.children[i], Tail(at), move);
    }
  }
}
