/**
 frontend/src/util/tree.ts:14-97 as written: nodes are objects that are looked
 up by path and then changed in place. Two ghosts describe a tree of objects: a
 shape, which lists its objects like the tree, and what their fields hold. When
 no object occurs twice, each change of one object is proved to be the
 corresponding edit of MoveTree.dfy on the whole tree's value.
 */
module HeapTree {
  import opened Wrappers
  import opened Paths
  import opened MoveTree

  class TreeNode {
    var data: MoveData
    var children: seq<TreeNode>

    constructor (data: MoveData)
      ensures this.data == data && children == []
    {
      this.data, children := data, [];
    }
  }

  datatype Shape = Shape(node: TreeNode, kids: seq<Shape>)

  datatype Fields = Fields(data: MoveData, children: seq<TreeNode>)

  type Store = map<TreeNode, Fields>

  /** The objects hold what the store says. */
  ghost predicate Holds(h: Store)
    reads h.Keys
  {
    forall n :: n in h ==> n.data == h[n].data && n.children == h[n].children
  }

  function Footprint(s: Shape): set<TreeNode>
    decreases s, 1
  {
    {s.node} + FootprintAll(s.kids)
  }

  function FootprintAll(kids: seq<Shape>): set<TreeNode>
    decreases kids, 0
  {
    if kids == [] then {} else Footprint(kids[0]) + FootprintAll(kids[1..])
  }

  /** No object occurs twice: nothing is shared and nothing is its own ancestor. */
  predicate Separate(s: Shape)
    decreases s, 1
  {
    s.node !in FootprintAll(s.kids) && SeparateAll(s.kids)
  }

  predicate SeparateAll(kids: seq<Shape>)
    decreases kids, 0
  {
    kids != [] ==> Separate(kids[0]) && SeparateAll(kids[1..]) && Footprint(kids[0]) !! FootprintAll(kids[1..])
  }

  function NodesOf(kids: seq<Shape>): (nodes: seq<TreeNode>)
    ensures |nodes| == |kids|
    ensures forall i :: 0 <= i < |kids| ==> nodes[i] == kids[i].node
  {
    if kids == [] then [] else [kids[0].node] + NodesOf(kids[1..])
  }

  /** The children fields are what the shape says. */
  predicate Laid(s: Shape, h: Store)
    decreases s, 1
  {
    s.node in h && h[s.node].children == NodesOf(s.kids) && LaidAll(s.kids, h)
  }

  predicate LaidAll(kids: seq<Shape>, h: Store)
    decreases kids, 0
  {
    kids != [] ==> Laid(kids[0], h) && LaidAll(kids[1..], h)
  }

  function Value(s: Shape, h: Store): Tree
    requires Laid(s, h)
    decreases s, 1
  {
    Node(h[s.node].data, Values(s.kids, h))
  }

  function Values(kids: seq<Shape>, h: Store): (vs: seq<Tree>)
    requires LaidAll(kids, h)
    ensures |vs| == |kids|
    decreases kids, 0
  {
    if kids == [] then [] else [Value(kids[0], h)] + Values(kids[1..], h)
  }

  lemma {:induction false} AtIndex(kids: seq<Shape>, i: nat, h: Store)
    requires i < |kids| && LaidAll(kids, h) && SeparateAll(kids)
    ensures Laid(kids[i], h) && Separate(kids[i]) && Values(kids, h)[i] == Value(kids[i], h)
    ensures Footprint(kids[i]) <= FootprintAll(kids)
  {
    if i > 0 {
      AtIndex(kids[1..], i - 1, h);
    }
  }

  lemma {:induction false} LaidInStore(s: Shape, h: Store)
    requires Laid(s, h)
    ensures Footprint(s) <= h.Keys
    decreases s, 1
  {
    LaidAllInStore(s.kids, h);
  }

  lemma {:induction false} LaidAllInStore(kids: seq<Shape>, h: Store)
    requires LaidAll(kids, h)
    ensures FootprintAll(kids) <= h.Keys
    decreases kids, 0
  {
    if kids != [] {
      LaidInStore(kids[0], h);
      LaidAllInStore(kids[1..], h);
    }
  }

  /** The shape of the subtree that `nodeAtPathOrNull` finds. */
  function ShapeAt(s: Shape, h: Store, path: string): Shape
    requires Laid(s, h) && Separate(s) && Reaches(Value(s, h), path)
    decreases |path|
  {
    if path == "" then s
    else
      var i := ChildIndex(Values(s.kids, h), Head(path));
      AtIndex(s.kids, i, h);
      ShapeAt(s.kids[i], h, Tail(path))
  }

  lemma {:induction false} ShapeAtValue(s: Shape, h: Store, path: string)
    requires Laid(s, h) && Separate(s) && Reaches(Value(s, h), path)
    ensures var sub := ShapeAt(s, h, path);
            && Laid(sub, h) && Separate(sub) && Footprint(sub) <= Footprint(s)
            && NodeAtPathOrNull(Value(s, h), path) == Some(Value(sub, h))
    decreases |path|
  {
    if path != "" {
      var i := ChildIndex(Values(s.kids, h), Head(path));
      AtIndex(s.kids, i, h);
      ShapeAtValue(s.kids[i], h, Tail(path));
    }
  }

  // ----- looking up -----

  lemma FirstIndex(kids: seq<Tree>, id: string, i: nat)
    requires i <= |kids| && forall j :: 0 <= j < i ==> kids[j].data.id != id
    requires i < |kids| ==> kids[i].data.id == id
    ensures ChildIndex(kids, id) == i
  {
  }

  /** `children.find`, as a loop over the objects. */
  method ChildById(node: TreeNode, id: string, ghost s: Shape, ghost h: Store) returns (i: nat)
    requires Holds(h) && s.node == node && Laid(s, h) && Separate(s)
    ensures i == ChildIndex(Values(s.kids, h), id)
  {
    i := 0;
    while i < |node.children|
      invariant 0 <= i <= |node.children|
      invariant forall j :: 0 <= j < i ==> Values(s.kids, h)[j].data.id != id
    {
      AtIndex(s.kids, i, h);
      if node.children[i].data.id == id {
        break;
      }
      i := i + 1;
    }
    FirstIndex(Values(s.kids, h), id, i);
  }

  method FindOrNull(root: TreeNode, path: string, ghost s: Shape, ghost h: Store) returns (node: TreeNode?)
    requires Holds(h) && s.node == root && Laid(s, h) && Separate(s)
    ensures node != null <==> Reaches(Value(s, h), path)
    ensures node != null ==> ShapeAt(s, h, path).node == node
    decreases |path|
  {
    if path == "" {
      return root;
    }
    var i := ChildById(root, Head(path), s, h);
    if i < |root.children| {
      AtIndex(s.kids, i, h);
      node := FindOrNull(root.children[i], Tail(path), s.kids[i], h);
    } else {
      node := null;
    }
  }

  /** `nodeAtPath`: stops at the last node it can reach. */
  method FindNearest(root: TreeNode, path: string, ghost s: Shape, ghost h: Store) returns (node: TreeNode)
    requires Holds(h) && s.node == root && Laid(s, h) && Separate(s)
    ensures Reaches(Value(s, h), ReachedPart(Value(s, h), path))
    ensures ShapeAt(s, h, ReachedPart(Value(s, h), path)).node == node
    decreases |path|
  {
    NodeAtPathReached(Value(s, h), path);
    if path == "" {
      return root;
    }
    var i := ChildById(root, Head(path), s, h);
    if i < |root.children| {
      AtIndex(s.kids, i, h);
      NodeAtPathReached(Value(s.kids[i], h), Tail(path));
      HeadPart(path, ReachedPart(Value(s.kids[i], h), Tail(path)));
      node := FindNearest(root.children[i], Tail(path), s.kids[i], h);
    } else {
      node := root;
    }
  }

  // ----- one object changed -----

  /** The shape with the subtree at a path replaced. */
  function Replaced(s: Shape, h: Store, path: string, sub: Shape): Shape
    requires Laid(s, h) && Separate(s) && Reaches(Value(s, h), path)
    decreases |path|
  {
    if path == "" then sub
    else
      var i := ChildIndex(Values(s.kids, h), Head(path));
      AtIndex(s.kids, i, h);
      s.(kids := s.kids[i := Replaced(s.kids[i], h, Tail(path), sub)])
  }

  /** Two stores that agree on some objects. */
  predicate Same(nodes: set<TreeNode>, h: Store, h': Store) {
    forall n :: n in nodes && n in h ==> n in h' && h'[n] == h[n]
  }

  lemma {:induction false} SameKid(s: Shape, h: Store, h': Store)
    requires Laid(s, h) && Same(Footprint(s), h, h')
    ensures Laid(s, h') && Value(s, h') == Value(s, h)
    decreases s, 1
  {
    SameKids(s.kids, h, h');
  }

  lemma {:induction false} SameKids(kids: seq<Shape>, h: Store, h': Store)
    requires LaidAll(kids, h) && Same(FootprintAll(kids), h, h')
    ensures LaidAll(kids, h') && Values(kids, h') == Values(kids, h)
    decreases kids, 0
  {
    if kids != [] {
      SameKid(kids[0], h, h');
      SameKids(kids[1..], h, h');
    }
  }

  /** One kid replaced by a shape over its own objects and new ones. */
  lemma {:induction false} KidSeparate(kids: seq<Shape>, i: nat, k: Shape)
    requires i < |kids| && SeparateAll(kids)
    requires Separate(k) && k.node == kids[i].node
    requires Footprint(k) * FootprintAll(kids) <= Footprint(kids[i])
    ensures SeparateAll(kids[i := k])
    ensures FootprintAll(kids[i := k]) <= FootprintAll(kids) - Footprint(kids[i]) + Footprint(k)
    ensures Footprint(kids[i]) <= FootprintAll(kids)
  {
    var rest := kids[1..];
    if i == 0 {
      assert kids[i := k][1..] == rest;
    } else {
      assert kids[i := k][1..] == rest[i - 1 := k];
      KidSeparate(rest, i - 1, k);
    }
  }

  /** One kid replaced, and what the others hold unchanged. */
  lemma {:induction false} KidReplaced(kids: seq<Shape>, i: nat, k: Shape, h: Store, h': Store)
    requires i < |kids| && SeparateAll(kids) && LaidAll(kids, h)
    requires Laid(k, h') && k.node == kids[i].node
    requires Same(FootprintAll(kids) - Footprint(kids[i]), h, h')
    ensures LaidAll(kids[i := k], h')
    ensures NodesOf(kids[i := k]) == NodesOf(kids)
    ensures Values(kids[i := k], h') == Values(kids, h)[i := Value(k, h')]
  {
    var rest := kids[1..];
    if i == 0 {
      assert kids[i := k][1..] == rest;
      SameKids(rest, h, h');
    } else {
      AtIndex(rest, i - 1, h);
      assert kids[i := k][1..] == rest[i - 1 := k];
      SameKid(kids[0], h, h');
      KidReplaced(rest, i - 1, k, h, h');
    }
  }

  /** The subtree found at a path now has the shape sub' and the value f gives it. */
  predicate Changed(sub: Shape, sub': Shape, h: Store, h': Store, f: Tree -> Tree)
    requires Laid(sub, h)
  {
    && sub'.node == sub.node && Separate(sub') && Laid(sub', h')
    && Value(sub', h') == f(Value(sub, h))
  }

  /**
   When the subtree at a path has changed and nothing else has, the whole tree
   has the value that `updateAt` gives it.
   */
  lemma {:induction false} ChangeSeen(s: Shape, h: Store, h': Store, path: string, f: Tree -> Tree, sub': Shape)
    requires Laid(s, h) && Separate(s) && Reaches(Value(s, h), path)
    requires var sub := ShapeAt(s, h, path);
             && Laid(sub, h) && Changed(sub, sub', h, h', f)
             && Footprint(sub') * Footprint(s) <= Footprint(sub)
             && Same(Footprint(s) - {sub.node}, h, h')
    ensures var s' := Replaced(s, h, path, sub');
            && Changed(s, s', h, h', (t: Tree) => UpdateAt(t, path, f))
            && Footprint(s') <= Footprint(s) + Footprint(sub')
    decreases |path|
  {
    if path != "" {
      var i := ChildIndex(Values(s.kids, h), Head(path));
      AtIndex(s.kids, i, h);
      ShapeAtValue(s.kids[i], h, Tail(path));
      var sub := ShapeAt(s, h, path);
      assert sub == ShapeAt(s.kids[i], h, Tail(path));
      ChangeSeen(s.kids[i], h, h', Tail(path), f, sub');
      var k := Replaced(s.kids[i], h, Tail(path), sub');
      assert Footprint(k) * FootprintAll(s.kids) <= Footprint(s.kids[i]);
      KidSeparate(s.kids, i, k);
      KidReplaced(s.kids, i, k, h, h');
    }
  }

  /** Writing one node's data. */
  lemma DataWritten(sub: Shape, h: Store, g: MoveData -> MoveData)
    requires Laid(sub, h) && Separate(sub)
    ensures var h' := h[sub.node := Fields(g(h[sub.node].data), h[sub.node].children)];
            Changed(sub, sub, h, h', Writing(g))
  {
    var h' := h[sub.node := Fields(g(h[sub.node].data), h[sub.node].children)];
    SameKids(sub.kids, h, h');
  }

  lemma {:induction false} Snoc(kids: seq<Shape>, k: Shape, h: Store)
    requires SeparateAll(kids) && LaidAll(kids, h) && Separate(k) && Laid(k, h)
    requires Footprint(k) !! FootprintAll(kids)
    ensures SeparateAll(kids + [k]) && LaidAll(kids + [k], h)
    ensures FootprintAll(kids + [k]) == FootprintAll(kids) + Footprint(k)
    ensures NodesOf(kids + [k]) == NodesOf(kids) + [k.node]
    ensures Values(kids + [k], h) == Values(kids, h) + [Value(k, h)]
  {
    if kids == [] {
      assert kids + [k] == [k];
      assert [k][1..] == [];
    } else {
      assert (kids + [k])[1..] == kids[1..] + [k];
      Snoc(kids[1..], k, h);
    }
  }

  /** Pushing a new object onto one node's children. */
  lemma ChildPushed(sub: Shape, h: Store, leaf: TreeNode, move: MoveData)
    requires Laid(sub, h) && Separate(sub) && leaf !in h
    ensures var h' := h[leaf := Fields(move, [])][sub.node := Fields(h[sub.node].data, h[sub.node].children + [leaf])];
            var sub' := Shape(sub.node, sub.kids + [Shape(leaf, [])]);
            && Changed(sub, sub', h, h', Pushing(Node(move, [])))
            && Footprint(sub') == Footprint(sub) + {leaf}
  {
    var h' := h[leaf := Fields(move, [])][sub.node := Fields(h[sub.node].data, h[sub.node].children + [leaf])];
    var k := Shape(leaf, []);
    LaidInStore(sub, h);
    SameKids(sub.kids, h, h');
    assert Footprint(k) == {leaf};
    Snoc(sub.kids, k, h');
  }

  function KidsWithout(kids: seq<Shape>, id: string, h: Store): seq<Shape>
    requires LaidAll(kids, h)
  {
    if kids == [] then []
    else if Value(kids[0], h).data.id == id then KidsWithout(kids[1..], id, h)
    else [kids[0]] + KidsWithout(kids[1..], id, h)
  }

  lemma {:induction false} KidsFiltered(kids: seq<Shape>, id: string, h: Store)
    requires LaidAll(kids, h) && SeparateAll(kids)
    ensures var rest := KidsWithout(kids, id, h);
            && LaidAll(rest, h) && SeparateAll(rest) && FootprintAll(rest) <= FootprintAll(kids)
            && Values(rest, h) == Without(Values(kids, h), id)
  {
    if kids != [] {
      KidsFiltered(kids[1..], id, h);
      var rest := KidsWithout(kids[1..], id, h);
      assert ([kids[0]] + rest)[1..] == rest;
    }
  }

  lemma KeptFirst(kids: seq<Shape>, id: string, h: Store)
    requires LaidAll(kids, h) && kids != []
    ensures NodesOf(KidsWithout(kids, id, h)) ==
            (if Value(kids[0], h).data.id == id then [] else [kids[0].node]) + NodesOf(KidsWithout(kids[1..], id, h))
  {
    var rest := KidsWithout(kids[1..], id, h);
    assert ([kids[0]] + rest)[1..] == rest;
  }

  /** Filtering one node's children. */
  lemma ChildRemoved(sub: Shape, h: Store, id: string)
    requires Laid(sub, h) && Separate(sub)
    ensures var rest := KidsWithout(sub.kids, id, h);
            var h' := h[sub.node := Fields(h[sub.node].data, NodesOf(rest))];
            && Changed(sub, Shape(sub.node, rest), h, h', Removing(id))
            && Footprint(Shape(sub.node, rest)) <= Footprint(sub)
  {
    var rest := KidsWithout(sub.kids, id, h);
    var h' := h[sub.node := Fields(h[sub.node].data, NodesOf(rest))];
    KidsFiltered(sub.kids, id, h);
    SameKids(rest, h, h');
  }

  /** The effect of a write, on the whole tree. */
  lemma WriteSeen(s: Shape, h: Store, path: string, g: MoveData -> MoveData) returns (s': Shape, h': Store)
    requires Laid(s, h) && Separate(s) && Reaches(Value(s, h), path)
    ensures var n := ShapeAt(s, h, path).node;
            n in h && h' == h[n := Fields(g(h[n].data), h[n].children)]
    ensures Changed(s, s', h, h', (t: Tree) => UpdateAt(t, path, Writing(g)))
  {
    var sub := ShapeAt(s, h, path);
    ShapeAtValue(s, h, path);
    h' := h[sub.node := Fields(g(h[sub.node].data), h[sub.node].children)];
    DataWritten(sub, h, g);
    ChangeSeen(s, h, h', path, Writing(g), sub);
    s' := Replaced(s, h, path, sub);
  }

  /** The effect of a push, on the whole tree. */
  lemma PushSeen(s: Shape, h: Store, path: string, leaf: TreeNode, move: MoveData) returns (s': Shape, h': Store)
    requires Laid(s, h) && Separate(s) && Reaches(Value(s, h), path) && leaf !in h
    ensures var n := ShapeAt(s, h, path).node;
            && n in h && n != leaf
            && h' == h[leaf := Fields(move, [])][n := Fields(h[n].data, h[n].children + [leaf])]
    ensures Changed(s, s', h, h', (t: Tree) => UpdateAt(t, path, Pushing(Node(move, []))))
  {
    var sub := ShapeAt(s, h, path);
    ShapeAtValue(s, h, path);
    LaidInStore(s, h);
    var sub' := Shape(sub.node, sub.kids + [Shape(leaf, [])]);
    h' := h[leaf := Fields(move, [])][sub.node := Fields(h[sub.node].data, h[sub.node].children + [leaf])];
    ChildPushed(sub, h, leaf, move);
    ChangeSeen(s, h, h', path, Pushing(Node(move, [])), sub');
    s' := Replaced(s, h, path, sub');
  }

  /** The effect of filtering a node's children, on the whole tree. */
  lemma RemoveSeen(s: Shape, h: Store, path: string, id: string) returns (s': Shape, h': Store)
    requires Laid(s, h) && Separate(s) && Reaches(Value(s, h), path)
    ensures var sub := ShapeAt(s, h, path);
            && Laid(sub, h)
            && h' == h[sub.node := Fields(h[sub.node].data, NodesOf(KidsWithout(sub.kids, id, h)))]
    ensures Changed(s, s', h, h', (t: Tree) => UpdateAt(t, path, Removing(id)))
  {
    var sub := ShapeAt(s, h, path);
    ShapeAtValue(s, h, path);
    var rest := KidsWithout(sub.kids, id, h);
    h' := h[sub.node := Fields(h[sub.node].data, NodesOf(rest))];
    ChildRemoved(sub, h, id);
    ChangeSeen(s, h, h', path, Removing(id), Shape(sub.node, rest));
    s' := Replaced(s, h, path, Shape(sub.node, rest));
  }

  /** `children.push` on one object. */
  method Append(node: TreeNode, leaf: TreeNode, ghost before: Store, ghost after: Store, ghost move: MoveData)
    requires Holds(before) && node in before && leaf !in before && leaf.data == move && leaf.children == []
    requires after ==
             before[leaf := Fields(move, [])][node := Fields(before[node].data, before[node].children + [leaf])]
    modifies node`children
    ensures Holds(after) && after.Keys == before.Keys + {leaf}
  {
    node.children := node.children + [leaf];
  }

  class LiveTree {
    const root: TreeNode
    ghost var shape: Shape
    ghost var store: Store

    ghost predicate Valid()
      reads this, store.Keys
    {
      shape.node == root && Holds(store) && Laid(shape, store) && Separate(shape)
    }

    /** The tree that the objects spell out. */
    ghost function Tree(): Tree
      requires Valid()
      reads this, store.Keys
    {
      Value(shape, store)
    }

    constructor (data: MoveData)
      ensures Valid() && fresh(store.Keys) && Tree() == Node(data, [])
    {
      var node := new TreeNode(data);
      root := node;
      shape := Shape(node, []);
      store := map[node := Fields(data, [])];
    }

    /** `updateAt` with an update that writes the node's data; false when the path is missing. */
    method WriteAt(path: string, g: MoveData -> MoveData) returns (found: bool)
      requires Valid()
      modifies this, store.Keys
      ensures Valid() && store.Keys == old(store.Keys)
      ensures found <==> Reaches(old(Tree()), path)
      ensures Tree() == UpdateAt(old(Tree()), path, Writing(g))
    {
      var node := FindOrNull(root, path, shape, store);
      if node == null {
        UpdateMissing(Tree(), path, Writing(g));
        return false;
      }
      ghost var shape', after := WriteSeen(shape, store, path, g);
      node.data := g(node.data);
      assert Holds(after);
      shape, store := shape', after;
      found := true;
    }

    /** `updateAt(root, path, p => p.children.push(node))` with a new leaf. */
    method PushAt(path: string, move: MoveData) returns (found: bool)
      requires Valid()
      modifies this, store.Keys
      ensures Valid() && fresh(store.Keys - old(store.Keys))
      ensures found <==> Reaches(old(Tree()), path)
      ensures Tree() == UpdateAt(old(Tree()), path, Pushing(Node(move, [])))
    {
      var leaf := new TreeNode(move);
      var node := FindOrNull(root, path, shape, store);
      found := node != null;
      if !found {
        UpdateMissing(Tree(), path, Pushing(Node(move, [])));
      } else {
        Hook(node, leaf, path, move);
      }
    }

    /** The push itself, on the object that was found. */
    method Hook(node: TreeNode, leaf: TreeNode, ghost path: string, ghost move: MoveData)
      requires Valid() && Reaches(Tree(), path) && node == ShapeAt(shape, store, path).node
      requires leaf !in store && leaf.data == move && leaf.children == []
      modifies this, store.Keys
      ensures Valid() && store.Keys == old(store.Keys) + {leaf}
      ensures Tree() == UpdateAt(old(Tree()), path, Pushing(Node(move, [])))
    {
      ghost var shape', after := PushSeen(shape, store, path, leaf, move);
      Append(node, leaf, store, after, move);
      shape, store := shape', after;
    }

    /** `removeChild`: the children with the id are filtered out. */
    method RemoveChild(parent: TreeNode, id: string, ghost sub: Shape)
      requires Holds(store) && sub.node == parent && Laid(sub, store)
      modifies parent
      ensures parent.data == old(parent.data)
      ensures parent.children == NodesOf(KidsWithout(sub.kids, id, store))
    {
      var kept := [];
      ghost var h, kids := store, sub.kids;
      assert parent.children == h[parent].children == NodesOf(kids);
      assert kids[0..] == kids;
      for i := 0 to |parent.children|
        invariant parent.children == NodesOf(kids) && Holds(h) && LaidAll(kids[i..], h)
        invariant kept + NodesOf(KidsWithout(kids[i..], id, h)) == NodesOf(KidsWithout(kids, id, h))
      {
        var child := parent.children[i];
        assert child == kids[i].node && kids[i..][0] == kids[i] && kids[i..][1..] == kids[i + 1..];
        assert child.data == h[child].data == Value(kids[i], h).data;
        KeptFirst(kids[i..], id, h);
        if child.data.id != id {
          kept := kept + [child];
        }
      }
      parent.children := kept;
    }

    /** `deleteNodeAt`: the parent is found with `nodeAtPath`. */
    method DeleteNodeAt(path: string)
      requires Valid()
      modifies this, store.Keys
      ensures Valid() && store.Keys == old(store.Keys)
      ensures Tree() == MoveTree.DeleteNodeAt(old(Tree()), path)
    {
      var parent := FindNearest(root, Init(path), shape, store);
      ghost var at := ReachedPart(Tree(), Init(path));
      ghost var sub := ShapeAt(shape, store, at);
      ShapeAtValue(shape, store, at);
      LaidInStore(sub, store);
      ghost var shape', after := RemoveSeen(shape, store, at, Last(path));
      RemoveChild(parent, Last(path), sub);
      shape, store := shape', after;
    }
  }
}
