/**
 The server's flat form of a move tree (backend/internal/store/chapters.go):
 a table from path to move data. `Flatten` is `flattenTree`, `Rebuild` is the
 tree that `buildTree` assembles when it meets the paths in a given order.
 */
module PathTable {
  import opened Wrappers
  import opened Paths
  import opened MoveTree

  type Table = map<string, MoveData>

  // ----- flattenTree -----

  /** The writes of `walk`, in its order: the node first, then child by child. */
  function FlattenFrom(t: Tree, path: string): Table
    decreases t, 1
  {
    map[path := t.data] + FlattenAll(t.children, path)
  }

  function FlattenAll(kids: seq<Tree>, path: string): Table
    decreases kids, 0
  {
    if kids == [] then map[]
    else FlattenFrom(kids[0], path + kids[0].data.id) + FlattenAll(kids[1..], path)
  }

  function Flatten(t: Tree): Table {
    FlattenFrom(t, "")
  }

  /** `flattenTree` as written: a recursive walk that overwrites one map. */
  method FlattenTree(root: Tree) returns (moves: Table)
    ensures moves == Flatten(root)
  {
    moves := Walk(root, "", map[]);
  }

  method Walk(node: Tree, path: string, before: Table) returns (moves: Table)
    ensures moves == before + FlattenFrom(node, path)
    decreases node
  {
    moves := before[path := node.data];
    MapAddAssociative(before, map[path := node.data], FlattenAll(node.children, path));
    assert before + map[path := node.data] == moves;
    assert node.children[0..] == node.children;
    var i := 0;
    while i < |node.children|
      invariant 0 <= i <= |node.children|
      invariant moves + FlattenAll(node.children[i..], path) == before + FlattenFrom(node, path)
    {
      var child := node.children[i];
      ghost var was, rest := moves, FlattenAll(node.children[i + 1..], path);
      FlattenAllCons(node.children[i..], path);
      assert node.children[i..][1..] == node.children[i + 1..];
      moves := Walk(child, path + child.data.id, moves);
      MapAddAssociative(was, FlattenFrom(child, path + child.data.id), rest);
      i := i + 1;
    }
  }

  lemma FlattenAllCons(kids: seq<Tree>, path: string)
    requires kids != []
    ensures FlattenAll(kids, path) ==
            FlattenFrom(kids[0], path + kids[0].data.id) + FlattenAll(kids[1..], path)
  {
  }

  lemma MapAddAssociative(a: Table, b: Table, c: Table)
    ensures (a + b) + c == a + (b + c)
  {
  }

  function Find(m: Table, p: string): Option<MoveData> {
    if p in m then Some(m[p]) else None
  }

  /** A flattened well-formed tree holds, at every path, what the tree shows there. */
  lemma {:induction false} FlattenFromView(t: Tree, path: string, q: string)
    requires WellFormed(t)
    ensures Find(FlattenFrom(t, path), q) == if path <= q then View(t, q[|path|..]) else None
    decreases t, 1
  {
    FlattenAllView(t.children, path, q);
    if q == path {
      assert q[|path|..] == "";
    } else if path <= q {
      assert q == path + q[|path|..];
    }
  }

  lemma {:induction false} FlattenAllView(kids: seq<Tree>, path: string, q: string)
    requires DistinctIds(kids)
    requires forall i :: 0 <= i < |kids| ==> |kids[i].data.id| == 2 && WellFormed(kids[i])
    ensures Find(FlattenAll(kids, path), q) == if path <= q then ViewAmong(kids, q[|path|..]) else None
    decreases kids, 0
  {
    if kids != [] {
      var id := kids[0].data.id;
      FlattenFromView(kids[0], path + id, q);
      FlattenAllView(kids[1..], path, q);
      BelowChild(path, id, q);
    }
  }

  lemma FlattenView(t: Tree, q: string)
    requires WellFormed(t)
    ensures Find(Flatten(t), q) == View(t, q)
  {
    FlattenFromView(t, "", q);
    assert q[0..] == q;
  }

  /** The paths whose move passes a test. */
  function Hits(m: Table, test: MoveData -> bool): set<string> {
    set p | p in m && test(m[p])
  }

  lemma HitsUnion(a: Table, b: Table, test: MoveData -> bool)
    requires a.Keys !! b.Keys
    ensures |Hits(a + b, test)| == |Hits(a, test)| + |Hits(b, test)|
  {
    assert Hits(a + b, test) == Hits(a, test) + Hits(b, test);
  }

  lemma HitsOne(path: string, d: MoveData, test: MoveData -> bool)
    ensures |Hits(map[path := d], test)| == if test(d) then 1 else 0
  {
    assert Hits(map[path := d], test) == if test(d) then {path} else {};
  }

  lemma {:induction false} CountFrom(t: Tree, path: string, test: MoveData -> bool)
    requires WellFormed(t)
    ensures |Hits(FlattenFrom(t, path), test)| == Count(t, test)
    decreases t, 1
  {
    var rest := FlattenAll(t.children, path);
    forall q | q in rest
      ensures q != path
    {
      FlattenAllView(t.children, path, q);
    }
    HitsOne(path, t.data, test);
    CountAllFrom(t.children, path, test);
    HitsUnion(map[path := t.data], rest, test);
  }

  lemma {:induction false} CountAllFrom(kids: seq<Tree>, path: string, test: MoveData -> bool)
    requires DistinctIds(kids)
    requires forall i :: 0 <= i < |kids| ==> |kids[i].data.id| == 2 && WellFormed(kids[i])
    ensures |Hits(FlattenAll(kids, path), test)| == CountAll(kids, test)
    decreases kids, 0
  {
    if kids == [] {
      assert Hits(FlattenAll(kids, path), test) == {};
    } else {
      var id := kids[0].data.id;
      var first, rest := FlattenFrom(kids[0], path + id), FlattenAll(kids[1..], path);
      forall q | q in first
        ensures q !in rest
      {
        FlattenFromView(kids[0], path + id, q);
        FlattenAllView(kids[1..], path, q);
        BelowChild(path, id, q);
        NoneAmong(kids, q[|path|..]);
      }
      CountFrom(kids[0], path + id, test);
      CountAllFrom(kids[1..], path, test);
      HitsUnion(first, rest, test);
    }
  }

  /** Paths through the first child lead nowhere among its younger siblings. */
  lemma NoneAmong(kids: seq<Tree>, q: string)
    requires DistinctIds(kids) && kids != [] && Head(q) == kids[0].data.id
    ensures ViewAmong(kids[1..], q) == None
  {
    forall j | 0 <= j < |kids[1..]|
      ensures kids[1..][j].data.id != kids[0].data.id
    {
      assert kids[1..][j] == kids[j + 1];
    }
  }

  /** Counting nodes is counting paths: one for each move of the tree that passes the test. */
  lemma CountIsPaths(t: Tree, test: MoveData -> bool)
    requires WellFormed(t)
    ensures Count(t, test) == |Hits(Flatten(t), test)|
  {
    CountFrom(t, "", test);
  }

  lemma FlattenIsView(t: Tree, m: Table)
    requires WellFormed(t)
    requires forall q :: View(t, q) == Find(m, q)
    ensures Flatten(t) == m
  {
    forall q
      ensures q in Flatten(t) <==> q in m
      ensures q in m ==> Flatten(t)[q] == m[q]
    {
      FlattenView(t, q);
      assert View(t, q) == Find(m, q);
    }
  }

  // ----- tables -----

  /** Every path but the root's has at least two characters, and its parent is in the table too. */
  predicate PrefixClosed(m: Table) {
    && "" in m
    && forall p :: p in m && p != "" ==> |p| >= 2 && Init(p) in m
  }

  /** Each row's id is the end of its path (the root's id is not used). */
  predicate IdConsistent(m: Table) {
    forall p :: p in m && p != "" ==> m[p].id == Last(p)
  }

  lemma FlattenPrefixClosed(t: Tree)
    requires WellFormed(t)
    ensures PrefixClosed(Flatten(t)) && IdConsistent(Flatten(t))
  {
    var m := Flatten(t);
    FlattenView(t, "");
    forall p | p in m && p != ""
      ensures |p| >= 2 && Init(p) in m && m[p].id == Last(p)
    {
      FlattenView(t, p);
      ReachesWhole(t, p);
      DeleteReaches(t, p);
      FlattenView(t, Init(p));
    }
  }

  // ----- the order in which buildTree meets the paths -----

  /** Bytes of a character in UTF-8, the unit of Go's `len` on strings. */
  function Utf8Length(c: char): nat {
    if c < 0x80 as char then 1 else if c < 0x800 as char then 2 else if c as int < 0x1_0000 then 3 else 4
  }

  function ByteLength(p: string): nat {
    if p == "" then 0 else ByteLength(p[..|p| - 1]) + Utf8Length(p[|p| - 1])
  }

  /**
   Any result of listing the map's keys in iteration order and sorting them by
   byte length with an unstable sort.
   */
  ghost predicate SortedKeys(m: Table, order: seq<string>) {
    && (forall p :: p in order <==> p in m)
    && Distinct(order)
    && (forall i, j :: 0 <= i < j < |order| ==> ByteLength(order[i]) <= ByteLength(order[j]))
  }

  lemma {:induction false} ByteLengthPrefix(p: string, n: nat)
    requires n < |p|
    ensures ByteLength(p[..n]) < ByteLength(p)
  {
    if n < |p| - 1 {
      ByteLengthPrefix(p[..|p| - 1], n);
      assert p[..|p| - 1][..n] == p[..n];
    }
  }

  // ----- buildTree -----

  /** Every path the loop cuts has two runes to cut; shorter ones make it panic. */
  predicate Cuttable(m: Table) {
    forall p :: p in m && p != "" ==> |p| >= 2
  }

  /** The path a row is hung under: its own parent, or the root when that row is missing. */
  function HungUnder(m: Table, p: string): (u: string)
    requires |p| >= 2
    ensures |u| < |p|
  {
    var parent := p[..|p| - 2];
    if parent in m then parent else ""
  }

  predicate HangsAt(m: Table, q: string, p: string) {
    |q| >= 2 && HungUnder(m, q) == p
  }

  const BLANK := MoveData("", "", 0, "", "", false, map[])

  /** `moves[""]` yields the zero value when there is no root row. */
  function RowAt(m: Table, p: string): MoveData
    requires p in m || p == ""
  {
    if p in m then m[p] else BLANK
  }

  function Longest(order: seq<string>): nat
    ensures forall p :: p in order ==> |p| <= Longest(order)
  {
    if order == [] then 0
    else if |order[0]| > Longest(order[1..]) then |order[0]| else Longest(order[1..])
  }

  /** The paths hung under p, in the order the loop appends them. */
  function HungPaths(m: Table, order: seq<string>, p: string): (r: seq<string>)
    ensures forall q :: q in r <==> q in order && HangsAt(m, q, p)
    ensures |r| <= |order|
  {
    if order == [] then []
    else (if HangsAt(m, order[0], p) then [order[0]] else []) + HungPaths(m, order[1..], p)
  }

  predicate Distinct(ps: seq<string>) {
    forall i, j :: 0 <= i < j < |ps| ==> ps[i] != ps[j]
  }

  lemma DistinctCons(p: string, ps: seq<string>)
    requires Distinct(ps) && p !in ps
    ensures Distinct([p] + ps)
  {
    assert forall j :: 0 <= j < |ps| ==> ps[j] in ps;
  }

  lemma {:induction false} HungPathsDistinct(m: Table, order: seq<string>, p: string)
    requires Distinct(order)
    ensures Distinct(HungPaths(m, order, p))
  {
    if order != [] {
      assert order[0] !in order[1..];
      HungPathsDistinct(m, order[1..], p);
      DistinctCons(order[0], HungPaths(m, order[1..], p));
    }
  }

  lemma {:induction false} HungPathsSnoc(m: Table, order: seq<string>, q: string, p: string)
    ensures HungPaths(m, order + [q], p) == HungPaths(m, order, p) + if HangsAt(m, q, p) then [q] else []
  {
    if order == [] {
      assert order + [q] == [q];
    } else {
      HungPathsSnoc(m, order[1..], q, p);
      assert (order + [q])[1..] == order[1..] + [q];
      var first := if HangsAt(m, order[0], p) then [order[0]] else [];
      var final := if HangsAt(m, q, p) then [q] else [];
      var middle := HungPaths(m, order[1..], p);
      assert first + (middle + final) == (first + middle) + final;
    }
  }

  /** The subtree that ends up at path p. */
  function Rebuild(m: Table, order: seq<string>, p: string): Tree
    requires p in m || p == ""
    requires forall q :: q in order ==> q in m
    requires |p| <= Longest(order)
    decreases Longest(order) - |p|
  {
    var hung := HungPaths(m, order, p);
    Node(RowAt(m, p), seq(|hung|, i requires 0 <= i < |hung| =>
      assert hung[i] in hung;
      Rebuild(m, order, hung[i])))
  }

  // ----- reading a rebuilt table back -----

  lemma {:induction false} PrefixClosedWhole(m: Table, p: string)
    requires PrefixClosed(m) && p in m
    ensures Whole(p)
    decreases |p|
  {
    if p != "" {
      PrefixClosedWhole(m, Init(p));
    }
  }

  lemma {:induction false} PrefixClosedAncestor(m: Table, p: string, q: string)
    requires PrefixClosed(m) && q in m && Whole(p) && p <= q
    ensures p in m
    decreases |q|
  {
    PrefixClosedWhole(m, q);
    if p != q {
      assert p == q[..|p|];
      assert Init(q)[..|p|] == q[..|p|];
      PrefixClosedAncestor(m, p, Init(q));
    }
  }

  /** In a prefix-closed table every row hangs under its own parent. */
  lemma HangsAtParent(m: Table, q: string, p: string)
    requires PrefixClosed(m) && q in m
    ensures HangsAt(m, q, p) <==> q != "" && Init(q) == p
    ensures HangsAt(m, q, p) ==> q == p + Last(q) && |Last(q)| == 2
  {
    if q != "" {
      HeadTail(q);
    }
  }

  lemma RebuildChild(m: Table, order: seq<string>, p: string, i: nat)
    requires PrefixClosed(m) && IdConsistent(m) && SortedKeys(m, order)
    requires p in m && |p| <= Longest(order) && i < |HungPaths(m, order, p)|
    ensures var q, c := HungPaths(m, order, p)[i], Rebuild(m, order, p).children[i];
            && q in m && |q| <= Longest(order) && c == Rebuild(m, order, q)
            && |c.data.id| == 2 && q == p + c.data.id
  {
    var hung := HungPaths(m, order, p);
    assert hung[i] in hung;
    HangsAtParent(m, hung[i], p);
  }

  /** The children of a rebuilt node: one per row under p, in the loop's order. */
  lemma RebuildChildren(m: Table, order: seq<string>, p: string)
    requires PrefixClosed(m) && IdConsistent(m) && SortedKeys(m, order)
    requires p in m && |p| <= Longest(order)
    ensures var hung, kids := HungPaths(m, order, p), Rebuild(m, order, p).children;
            && |kids| == |hung| && DistinctIds(kids)
            && forall i :: 0 <= i < |kids| ==>
                 && hung[i] in m && hung[i] == p + kids[i].data.id && |kids[i].data.id| == 2
                 && |hung[i]| <= Longest(order)
                 && kids[i] == Rebuild(m, order, hung[i])
  {
    var kids := Rebuild(m, order, p).children;
    HungPathsDistinct(m, order, p);
    forall i | 0 <= i < |kids|
      ensures var q := HungPaths(m, order, p)[i];
              && q in m && |q| <= Longest(order) && kids[i] == Rebuild(m, order, q)
              && |kids[i].data.id| == 2 && q == p + kids[i].data.id
    {
      RebuildChild(m, order, p, i);
    }
  }

  lemma {:induction false} RebuildWellFormed(m: Table, order: seq<string>, p: string)
    requires PrefixClosed(m) && IdConsistent(m) && SortedKeys(m, order)
    requires p in m && |p| <= Longest(order)
    ensures WellFormed(Rebuild(m, order, p))
    decreases Longest(order) - |p|
  {
    var hung := HungPaths(m, order, p);
    var t := Rebuild(m, order, p);
    RebuildChildren(m, order, p);
    forall i | 0 <= i < |t.children|
      ensures |t.children[i].data.id| == 2 && WellFormed(t.children[i])
    {
      RebuildWellFormed(m, order, hung[i]);
    }
  }

  /** A rebuilt node has a child with a two-character id exactly when the table has that row. */
  lemma RebuildChildIndex(m: Table, order: seq<string>, p: string, h: string)
    requires PrefixClosed(m) && IdConsistent(m) && SortedKeys(m, order)
    requires p in m && |p| <= Longest(order)
    ensures var kids := Rebuild(m, order, p).children;
            var i := ChildIndex(kids, h);
            && (i < |kids| <==> |h| == 2 && p + h in m)
            && (i < |kids| ==> |p + h| <= Longest(order) && kids[i] == Rebuild(m, order, p + h))
  {
    RebuildChildren(m, order, p);
    var hung, kids := HungPaths(m, order, p), Rebuild(m, order, p).children;
    if |h| == 2 && p + h in m {
      InitLastOf(p, h);
      HangsAtParent(m, p + h, p);
      assert p + h in hung;
      var i :| 0 <= i < |hung| && hung[i] == p + h;
      assert kids[i].data.id == h by {
        InitLastOf(p, kids[i].data.id);
      }
      ChildIndexUnique(kids, i);
    }
  }

  lemma RebuildViewStep(m: Table, order: seq<string>, p: string, r: string)
    requires PrefixClosed(m) && IdConsistent(m) && SortedKeys(m, order)
    requires p in m && |p| <= Longest(order) && r != ""
    ensures var q := p + Head(r);
            if |Head(r)| == 2 && q in m
            then |q| <= Longest(order) && View(Rebuild(m, order, p), r) == View(Rebuild(m, order, q), Tail(r))
            else View(Rebuild(m, order, p), r) == None
  {
    RebuildChildIndex(m, order, p, Head(r));
    ViewStep(Rebuild(m, order, p), r);
  }

  lemma {:induction false} RebuildView(m: Table, order: seq<string>, p: string, r: string)
    requires PrefixClosed(m) && IdConsistent(m) && SortedKeys(m, order)
    requires p in m && |p| <= Longest(order)
    ensures View(Rebuild(m, order, p), r) == Find(m, p + r)
    decreases |r|
  {
    if r == "" {
      assert p + r == p;
    } else {
      RebuildViewStep(m, order, p, r);
      FindStep(m, p, r);
      if |Head(r)| == 2 && p + Head(r) in m {
        RebuildView(m, order, p + Head(r), Tail(r));
      }
    }
  }

  /** A row below p can only be there when the next row on the way to it is. */
  lemma FindStep(m: Table, p: string, r: string)
    requires PrefixClosed(m) && p in m && r != ""
    ensures var q := p + Head(r);
            Find(m, p + r) == if |Head(r)| == 2 && q in m then Find(m, q + Tail(r)) else None
  {
    HeadTail(r);
    assert p + r == p + Head(r) + Tail(r);
    if |Head(r)| != 2 || p + Head(r) !in m {
      MissingBelow(m, p, Head(r), Tail(r));
    }
  }

  lemma MissingBelow(m: Table, p: string, h: string, rest: string)
    requires PrefixClosed(m) && p in m && (|h| == 2 || |h + rest| == 1)
    requires |h| == 2 ==> p + h !in m
    ensures p + h + rest !in m
  {
    PrefixClosedWhole(m, p);
    if p + h + rest in m {
      PrefixClosedWhole(m, p + h + rest);
      PrefixClosedAncestor(m, p + h, p + h + rest);
    }
  }

  /** `flattenTree(buildTree(m))` is m, for every order in which the loop may run. */
  lemma {:induction false} FlattenRebuild(m: Table, order: seq<string>)
    requires PrefixClosed(m) && IdConsistent(m) && SortedKeys(m, order)
    ensures WellFormed(Rebuild(m, order, ""))
    ensures Flatten(Rebuild(m, order, "")) == m
  {
    var t := Rebuild(m, order, "");
    RebuildWellFormed(m, order, "");
    forall q
      ensures View(t, q) == Find(m, q)
    {
      RebuildView(m, order, "", q);
      assert "" + q == q;
    }
    FlattenIsView(t, m);
  }

  // ----- trees up to sibling order -----

  ghost predicate Permutation(pi: seq<nat>, n: nat) {
    && |pi| == n
    && (forall i :: 0 <= i < n ==> pi[i] < n)
    && (forall i, j :: 0 <= i < j < n ==> pi[i] != pi[j])
  }

  /** Equal data, and children that correspond one to one. */
  ghost predicate SameUpToOrder(t: Tree, u: Tree)
    decreases t
  {
    && t.data == u.data
    && |t.children| == |u.children|
    && exists pi :: Permutation(pi, |t.children|) && Matched(t, u, pi)
  }

  ghost predicate Matched(t: Tree, u: Tree, pi: seq<nat>)
    requires |t.children| == |u.children| && Permutation(pi, |t.children|)
    decreases t, 0
  {
    forall i :: 0 <= i < |t.children| ==> SameUpToOrder(t.children[i], u.children[pi[i]])
  }

  lemma ViewChild(t: Tree, i: nat, q: string)
    requires WellFormed(t) && i < |t.children|
    ensures View(t, t.children[i].data.id + q) == View(t.children[i], q)
  {
    HeadTailOf(t.children[i].data.id, q);
    ChildIndexUnique(t.children, i);
  }

  /** Two well-formed trees that show the same data everywhere differ by sibling order only. */
  lemma {:induction false} SameViewsSameTree(t: Tree, u: Tree)
    requires WellFormed(t) && WellFormed(u)
    requires forall q :: View(t, q) == View(u, q)
    ensures SameUpToOrder(t, u)
    decreases t
  {
    assert View(t, "") == View(u, "");
    var n := |t.children|;
    var pi := seq(n, i requires 0 <= i < n => ChildIndex(u.children, t.children[i].data.id));
    forall i | 0 <= i < n
      ensures pi[i] < |u.children| && SameUpToOrder(t.children[i], u.children[pi[i]])
    {
      var id := t.children[i].data.id;
      ViewChild(t, i, "");
      assert View(t, id + "") == View(u, id + "");
      assert id + "" == id && Head(id) == id && Tail(id) == "";
      forall q
        ensures View(t.children[i], q) == View(u.children[pi[i]], q)
      {
        ViewChild(t, i, q);
        ViewChild(u, pi[i], q);
        assert View(t, id + q) == View(u, id + q);
      }
      SameViewsSameTree(t.children[i], u.children[pi[i]]);
    }
    assert forall i, j :: 0 <= i < j < n ==> t.children[i].data.id != t.children[j].data.id;
    SameChildCount(t, u, pi);
    assert Permutation(pi, n) && Matched(t, u, pi);
  }

  lemma SameChildCount(t: Tree, u: Tree, pi: seq<nat>)
    requires WellFormed(t) && WellFormed(u) && |pi| == |t.children|
    requires forall q :: View(t, q) == View(u, q)
    requires forall i :: 0 <= i < |pi| ==>
      pi[i] < |u.children| && t.children[i].data.id == u.children[pi[i]].data.id
    ensures |t.children| == |u.children|
  {
    var ids := set i | 0 <= i < |t.children| :: t.children[i].data.id;
    var ids' := set i | 0 <= i < |u.children| :: u.children[i].data.id;
    forall id | id in ids'
      ensures id in ids
    {
      var j :| 0 <= j < |u.children| && u.children[j].data.id == id;
      ViewChild(u, j, "");
      assert View(t, id + "") == View(u, id + "");
      assert id + "" == id && Head(id) == id;
      assert t.children[ChildIndex(t.children, id)].data.id == id;
    }
    assert ids == ids';
    IdSetSize(t.children);
    IdSetSize(u.children);
  }

  lemma IdSetSize(kids: seq<Tree>)
    requires DistinctIds(kids)
    ensures |set i | 0 <= i < |kids| :: kids[i].data.id| == |kids|
  {
    if kids != [] {
      var last := |kids| - 1;
      IdSetSize(kids[..last]);
      assert (set i | 0 <= i < |kids| :: kids[i].data.id) ==
             (set i | 0 <= i < last :: kids[..last][i].data.id) + {kids[last].data.id};
    }
  }

  /** The server's round trip: storing a chapter and reading it back reorders siblings at most. */
  lemma RebuildFlatten(t: Tree, order: seq<string>)
    requires WellFormed(t) && SortedKeys(Flatten(t), order)
    ensures WellFormed(Rebuild(Flatten(t), order, "")) && SameUpToOrder(t, Rebuild(Flatten(t), order, ""))
  {
    var m := Flatten(t);
    var u := Rebuild(m, order, "");
    FlattenPrefixClosed(t);
    FlattenRebuild(m, order);
    forall q
      ensures View(t, q) == View(u, q)
    {
      FlattenView(t, q);
      FlattenView(u, q);
    }
    SameViewsSameTree(t, u);
  }
}
