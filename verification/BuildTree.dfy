/**
 `buildTree` as written (backend/internal/store/chapters.go:583-621): nodes are
 objects, a map finds the parent of each path, and the parents' children grow in
 place. It is proved against `PathTable.Rebuild`.
 */
module BuildTree {
  import opened Wrappers
  import opened MoveTree
  import opened PathTable

  class TreeNode {
    var data: MoveData
    var children: seq<TreeNode>

    constructor (data: MoveData)
      ensures this.data == data && children == []
    {
      this.data := data;
      children := [];
    }
  }

  /** The object graph at n, which stays inside `nodes`, spells out the tree t. */
  ghost predicate Mirrors(n: TreeNode, t: Tree, nodes: set<TreeNode>)
    reads nodes
    decreases t
  {
    && n in nodes
    && n.data == t.data
    && |n.children| == |t.children|
    && forall i :: 0 <= i < |n.children| ==> Mirrors(n.children[i], t.children[i], nodes)
  }

  /** `kids` are the nodes the map holds for the paths `ps`, in that order. */
  predicate Lists(kids: seq<TreeNode>, nodeMap: map<string, TreeNode>, ps: seq<string>) {
    && |kids| == |ps|
    && forall i :: 0 <= i < |ps| ==> ps[i] in nodeMap && kids[i] == nodeMap[ps[i]]
  }

  /** What the loop keeps once it has handled the paths in `done`. */
  ghost predicate Built(m: Table, done: seq<string>, nodeMap: map<string, TreeNode>, nodes: set<TreeNode>)
    reads nodes
  {
    && (forall p :: p in nodeMap <==> p == "" || p in done)
    && (forall p, q :: p in nodeMap && q in nodeMap && p != q ==> nodeMap[p] != nodeMap[q])
    && (forall p :: p in nodeMap ==> nodeMap[p] in nodes)
    && (forall p :: p in nodeMap ==> (p in m || p == "") && nodeMap[p].data == RowAt(m, p))
    && (forall p {:trigger HasKids(m, done, nodeMap, nodes, p)} ::
          p in nodeMap ==> HasKids(m, done, nodeMap, nodes, p))
  }

  /** The node for p has the nodes of the rows hung under p so far, in order. */
  ghost predicate HasKids(
    m: Table, done: seq<string>, nodeMap: map<string, TreeNode>, nodes: set<TreeNode>, p: string)
    requires p in nodeMap
    reads nodes
  {
    nodeMap[p] in nodes && Lists(nodeMap[p].children, nodeMap, HungPaths(m, done, p))
  }

  /** A parent present in the table was handled before its children. */
  lemma ParentFirst(m: Table, paths: seq<string>, i: nat, u: string)
    requires SortedKeys(m, paths) && i < |paths| && |paths[i]| >= 2
    requires u == paths[i][..|paths[i]| - 2]
    ensures u in m <==> u in paths[..i]
  {
    ByteLengthPrefix(paths[i], |paths[i]| - 2);
    if u in m {
      var j :| 0 <= j < |paths| && paths[j] == u;
      assert j < i;
      assert paths[..i][j] == u;
    }
  }

  lemma TakeNext(paths: seq<string>, i: nat)
    requires i < |paths|
    ensures paths[..i + 1] == paths[..i] + [paths[i]]
    ensures Distinct(paths) ==> paths[i] !in paths[..i]
  {
  }

  /** When a path is handled, no row hung under it has been handled yet. */
  lemma ChildrenLater(m: Table, paths: seq<string>, i: nat)
    requires SortedKeys(m, paths) && i < |paths| && paths[i] != ""
    ensures HungPaths(m, paths[..i + 1], paths[i]) == []
  {
    var hung := HungPaths(m, paths[..i + 1], paths[i]);
    if hung != [] {
      var q := hung[0];
      assert q in hung;
      var j :| 0 <= j < i + 1 && paths[j] == q;
      ByteLengthPrefix(q, |q| - 2);
    }
  }

  /**
   `paths` is any listing of the keys that map iteration and the unstable sort
   may produce. None stands for the panic on a path with fewer than two runes.
   */
  method BuildTree(moves: Table, paths: seq<string>) returns (root: Option<TreeNode>, ghost nodes: set<TreeNode>)
    requires SortedKeys(moves, paths)
    ensures root.Some? <==> Cuttable(moves)
    ensures root.Some? <==> forall p :: p in moves && p != "" ==> |p| >= 2
    ensures root.Some? ==> fresh(nodes) && Mirrors(root.value, Rebuild(moves, paths, ""), nodes)
  {
    var top := new TreeNode(RowAt(moves, ""));
    BuiltStart(moves, top);
    var cut, nodeMap;
    cut, nodeMap, nodes := PlaceAll(moves, paths, top);
    if !cut {
      return None, nodes;
    }
    AllMirrored(moves, paths, nodeMap, nodes, "");
    root := Some(top);
  }

  /** The loop; false for the panic. */
  method PlaceAll(m: Table, paths: seq<string>, top: TreeNode)
    returns (cut: bool, nodeMap: map<string, TreeNode>, ghost nodes: set<TreeNode>)
    requires SortedKeys(m, paths) && Built(m, [], map["" := top], {top})
    modifies top
    ensures cut <==> Cuttable(m)
    ensures cut ==> Built(m, paths, nodeMap, nodes) && nodeMap[""] == top && fresh(nodes - {top})
  {
    cut, nodeMap, nodes := true, map["" := top], {top};
    var i := 0;
    while i < |paths|
      invariant 0 <= i <= |paths|
      invariant Built(m, paths[..i], nodeMap, nodes) && nodeMap[""] == top
      invariant fresh(nodes - {top}) && CutSoFar(paths[..i])
    {
      cut, nodeMap, nodes := Place(m, paths, i, nodeMap, nodes, top);
      if !cut {
        return;
      }
      i := i + 1;
    }
    assert paths[..i] == paths;
  }

  predicate CutSoFar(done: seq<string>) {
    forall p :: p in done && p != "" ==> |p| >= 2
  }

  lemma BuiltStart(m: Table, top: TreeNode)
    requires top.data == RowAt(m, "") && top.children == []
    ensures Built(m, [], map["" := top], {top})
  {
    assert HungPaths(m, [], "") == [];
    assert HasKids(m, [], map["" := top], {top}, "");
  }

  /** The loop body; false for the panic. */
  method Place(m: Table, paths: seq<string>, i: nat, nodeMap: map<string, TreeNode>,
               ghost nodes: set<TreeNode>, top: TreeNode)
    returns (cut: bool, after: map<string, TreeNode>, ghost nodes': set<TreeNode>)
    requires SortedKeys(m, paths) && i < |paths|
    requires Built(m, paths[..i], nodeMap, nodes) && nodeMap[""] == top && CutSoFar(paths[..i])
    modifies nodes
    ensures cut ==> Built(m, paths[..i + 1], after, nodes') && CutSoFar(paths[..i + 1])
    ensures fresh(nodes' - nodes) && (cut ==> after[""] == top)
    ensures !cut ==> !Cuttable(m)
  {
    var p := paths[i];
    assert p in paths && p in m;
    TakeNext(paths, i);
    cut, after, nodes' := true, nodeMap, nodes;
    if p == "" {
      SkipRoot(m, paths, i, nodeMap, nodes);
    } else if |p| < 2 {
      cut := false;
    } else {
      var node := new TreeNode(RowAt(m, p));
      var parentPath := p[..|p| - 2];
      var parent := if parentPath in nodeMap then nodeMap[parentPath] else top;
      ParentFirst(m, paths, i, parentPath);
      ChildrenLater(m, paths, i);
      assert parent == nodeMap[HungUnder(m, p)];
      after, nodes' := nodeMap[p := node], nodes + {node};
      Hang(m, paths[..i], p, nodeMap, nodes, parent, node);
    }
  }

  /** The children that path q should have once p is handled as well. */
  lemma ListsAfter(m: Table, done: seq<string>, p: string, nodeMap: map<string, TreeNode>, node: TreeNode,
                   q: string, kids: seq<TreeNode>)
    requires |p| >= 2 && p !in done
    requires HungPaths(m, done + [p], p) == []
    requires if q == p then kids == [] else Lists(kids, nodeMap, HungPaths(m, done, q))
    ensures Lists(kids + if q != p && q == HungUnder(m, p) then [node] else [], nodeMap[p := node],
                  HungPaths(m, done + [p], q))
  {
    HungPathsSnoc(m, done, p, q);
    var before := HungPaths(m, done, q);
    forall i | 0 <= i < |before|
      ensures before[i] in done && before[i] != p
    {
      assert before[i] in before;
    }
    if q != p {
      ListsExtend(kids, nodeMap, before, p, node);
    }
  }

  lemma ListsExtend(kids: seq<TreeNode>, nodeMap: map<string, TreeNode>, ps: seq<string>, p: string, node: TreeNode)
    requires Lists(kids, nodeMap, ps) && forall i :: 0 <= i < |ps| ==> ps[i] != p
    ensures Lists(kids, nodeMap[p := node], ps)
    ensures Lists(kids + [node], nodeMap[p := node], ps + [p])
  {
  }

  /** One turn of the loop: the new node is appended to its parent's children. */
  method Hang(ghost m: Table, ghost done: seq<string>, ghost p: string, ghost nodeMap: map<string, TreeNode>,
              ghost nodes: set<TreeNode>, parent: TreeNode, node: TreeNode)
    requires Built(m, done, nodeMap, nodes) && p in m && p !in done && |p| >= 2
    requires HungUnder(m, p) in nodeMap && nodeMap[HungUnder(m, p)] == parent
    requires node !in nodes && node.data == RowAt(m, p) && node.children == []
    requires HungPaths(m, done + [p], p) == []
    modifies parent`children
    ensures Built(m, done + [p], nodeMap[p := node], nodes + {node})
  {
    ghost var after := nodeMap[p := node];
    parent.children := parent.children + [node];
    forall q | q in after
      ensures HasKids(m, done + [p], after, nodes + {node}, q)
    {
      assert q != p ==> old(HasKids(m, done, nodeMap, nodes, q));
      ListsAfter(m, done, p, nodeMap, node, q, old(after[q].children));
      assert after[q].children ==
             old(after[q].children) + if q != p && q == HungUnder(m, p) then [node] else [];
    }
  }

  lemma SkipRoot(m: Table, paths: seq<string>, i: nat, nodeMap: map<string, TreeNode>, nodes: set<TreeNode>)
    requires i < |paths| && paths[i] == ""
    requires Built(m, paths[..i], nodeMap, nodes)
    ensures Built(m, paths[..i + 1], nodeMap, nodes)
  {
    TakeNext(paths, i);
    forall q | q in nodeMap
      ensures HasKids(m, paths[..i + 1], nodeMap, nodes, q)
    {
      assert HasKids(m, paths[..i], nodeMap, nodes, q);
      HungPathsSnoc(m, paths[..i], "", q);
    }
  }

  lemma {:induction false} AllMirrored(
    m: Table, paths: seq<string>, nodeMap: map<string, TreeNode>, nodes: set<TreeNode>, p: string)
    requires Built(m, paths, nodeMap, nodes) && forall q :: q in paths ==> q in m
    requires p in nodeMap && |p| <= Longest(paths)
    ensures Mirrors(nodeMap[p], Rebuild(m, paths, p), nodes)
    decreases Longest(paths) - |p|
  {
    var hung := HungPaths(m, paths, p);
    assert HasKids(m, paths, nodeMap, nodes, p);
    forall i | 0 <= i < |hung|
      ensures Mirrors(nodeMap[p].children[i], Rebuild(m, paths, p).children[i], nodes)
    {
      assert hung[i] in hung;
      AllMirrored(m, paths, nodeMap, nodes, hung[i]);
    }
  }
}
