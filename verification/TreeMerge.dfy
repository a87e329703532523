/**
 `merge` (frontend/src/util/training.ts:98-107): the second tree's children are
 merged into the first tree's child of the same id, or pushed. The line that
 should join the comments compares instead of assigning, so the first tree's
 data is kept as it is.
 */
module TreeMerge {
  import opened Wrappers
  import opened Paths
  import opened MoveTree

  function Merge(n1: Tree, n2: Tree): Tree
    decreases n2, 1
  {
    n1.(children := MergeAll(n1.children, n2.children))
  }

  /** One turn of the forEach per child of the second tree; later turns see what earlier ones pushed. */
  function MergeAll(into: seq<Tree>, from: seq<Tree>): seq<Tree>
    decreases from, 0
  {
    if from == [] then into
    else
      var i := ChildIndex(into, from[0].data.id);
      if i < |into| then MergeAll(into[i := Merge(into[i], from[0])], from[1..])
      else MergeAll(into + [from[0]], from[1..])
  }

  method MergeInto(n1: Tree, n2: Tree) returns (merged: Tree)
    ensures merged == Merge(n1, n2)
    decreases n2
  {
    var kids := n1.children;
    for k := 0 to |n2.children|
      invariant MergeAll(kids, n2.children[k..]) == MergeAll(n1.children, n2.children)
    {
      var c := n2.children[k];
      assert n2.children[k..][1..] == n2.children[k + 1..];
      var i := ChildIndex(kids, c.data.id);
      if i < |kids| {
        var existing := MergeInto(kids[i], c);
        kids := kids[i := existing];
      } else {
        kids := kids + [c];
      }
    }
    merged := n1.(children := kids);
  }

  predicate GoodKids(kids: seq<Tree>) {
    DistinctIds(kids) && forall i :: 0 <= i < |kids| ==> |kids[i].data.id| == 2 && WellFormed(kids[i])
  }

  function Either<T>(a: Option<T>, b: Option<T>): Option<T> {
    if a.Some? then a else b
  }

  lemma ReplacedAmong(kids: seq<Tree>, i: nat, c: Tree, p: string)
    requires GoodKids(kids) && i < |kids| && c.data.id == kids[i].data.id
    ensures ViewAmong(kids[i := c], p) ==
            if p != "" && Head(p) == c.data.id then View(c, Tail(p)) else ViewAmong(kids, p)
  {
    SameIdsSameIndex(kids, kids[i := c], Head(p));
    ChildIndexUnique(kids, i);
  }

  lemma PushedAmong(kids: seq<Tree>, c: Tree, p: string)
    requires ChildIndex(kids, c.data.id) == |kids|
    ensures ViewAmong(kids + [c], p) == if p != "" && Head(p) == c.data.id then View(c, Tail(p)) else ViewAmong(kids, p)
  {
    PushedIndex(kids, c, Head(p));
    var i := ChildIndex(kids, Head(p));
    assert i < |kids| ==> (kids + [c])[i] == kids[i];
  }

  /** The merged tree shows the first tree's data where it has any, else the second's. */
  lemma {:induction false} MergeView(n1: Tree, n2: Tree, p: string)
    requires WellFormed(n1) && WellFormed(n2)
    ensures WellFormed(Merge(n1, n2))
    ensures View(Merge(n1, n2), p) == if p == "" then Some(n1.data) else Either(View(n1, p), View(n2, p))
    decreases n2, 1
  {
    MergeAllView(n1.children, n2.children, p);
  }

  lemma {:induction false} MergeAllView(into: seq<Tree>, from: seq<Tree>, p: string)
    requires GoodKids(into) && GoodKids(from)
    ensures GoodKids(MergeAll(into, from))
    ensures ViewAmong(MergeAll(into, from), p) == Either(ViewAmong(into, p), ViewAmong(from, p))
    decreases from, 0
  {
    if from != [] {
      var c, rest := from[0], from[1..];
      var i := ChildIndex(into, c.data.id);
      RestAmong(from, p);
      if i < |into| {
        MergeView(into[i], c, Tail(p));
        ReplacedAmong(into, i, Merge(into[i], c), p);
        MergeAllView(into[i := Merge(into[i], c)], rest, p);
        ChildIndexUnique(into, i);
      } else {
        PushedAmong(into, c, p);
        PushedGood(into, c);
        MergeAllView(into + [c], rest, p);
      }
    }
  }

  lemma RestAmong(from: seq<Tree>, p: string)
    requires GoodKids(from) && from != []
    ensures GoodKids(from[1..])
    ensures ViewAmong(from, p) == if p != "" && Head(p) == from[0].data.id then View(from[0], Tail(p))
                              else ViewAmong(from[1..], p)
    ensures p != "" && Head(p) == from[0].data.id ==> ViewAmong(from[1..], p) == None
  {
  }

  lemma PushedGood(kids: seq<Tree>, c: Tree)
    requires GoodKids(kids) && |c.data.id| == 2 && WellFormed(c) && ChildIndex(kids, c.data.id) == |kids|
    ensures GoodKids(kids + [c])
  {
  }

  /** The merged paths are the union, shared paths keep the first tree's data, and ids stay distinct. */
  lemma MergeIsUnion(n1: Tree, n2: Tree, p: string)
    requires WellFormed(n1) && WellFormed(n2)
    ensures WellFormed(Merge(n1, n2))
    ensures Reaches(Merge(n1, n2), p) <==> Reaches(n1, p) || Reaches(n2, p)
    ensures Reaches(n1, p) ==> View(Merge(n1, n2), p) == View(n1, p)
    ensures !Reaches(n1, p) ==> View(Merge(n1, n2), p) == View(n2, p)
  {
    MergeView(n1, n2, p);
  }

  // ----- the comments -----

  /** The comment that the line with `==` in place of `=` computes. */
  function JoinedComment(first: string, second: string): string {
    first + if second != "" then " | " + second else ""
  }

  /** What the merge would show with the comments of shared paths joined. */
  function MeantView(n1: Tree, n2: Tree, p: string): Option<MoveData> {
    match (View(n1, p), View(n2, p))
    case (Some(d1), Some(d2)) => Some(d1.(comment := JoinedComment(d1.comment, d2.comment)))
    case (v1, v2) => Either(v1, v2)
  }

  lemma MeantHereIff(n1: Tree, n2: Tree, p: string)
    requires WellFormed(n1) && WellFormed(n2)
    ensures View(Merge(n1, n2), p) == MeantView(n1, n2, p) <==>
            (Reaches(n1, p) && Reaches(n2, p) ==> View(n2, p).value.comment == "")
  {
    MergeView(n1, n2, p);
    if Reaches(n1, p) && Reaches(n2, p) {
      var c1, c2 := View(n1, p).value.comment, View(n2, p).value.comment;
      if c2 != "" {
        assert |JoinedComment(c1, c2)| > |c1|;
      } else {
        assert JoinedComment(c1, c2) == c1;
      }
    }
  }

  /** The merged tree has the comments it should exactly when the second tree has none on shared paths. */
  lemma CommentsJoinedIff(n1: Tree, n2: Tree)
    requires WellFormed(n1) && WellFormed(n2)
    ensures (forall p :: View(Merge(n1, n2), p) == MeantView(n1, n2, p)) <==>
            (forall p :: Reaches(n1, p) && Reaches(n2, p) ==> View(n2, p).value.comment == "")
  {
    forall p
      ensures View(Merge(n1, n2), p) == MeantView(n1, n2, p) <==>
              (Reaches(n1, p) && Reaches(n2, p) ==> View(n2, p).value.comment == "")
    {
      MeantHereIff(n1, n2, p);
    }
  }

  // ----- merging a second time -----

  /** Everything n2 reaches is reached by n1 already. */
  predicate Covers(n1: Tree, n2: Tree)
    decreases n2
  {
    forall j :: 0 <= j < |n2.children| ==>
      var i := ChildIndex(n1.children, n2.children[j].data.id);
      i < |n1.children| && Covers(n1.children[i], n2.children[j])
  }

  lemma {:induction false} MergeCovered(n1: Tree, n2: Tree)
    requires Covers(n1, n2)
    ensures Merge(n1, n2) == n1
    decreases n2, 1
  {
    MergeAllCovered(n1, n1.children, n2.children);
  }

  lemma {:induction false} MergeAllCovered(n1: Tree, into: seq<Tree>, from: seq<Tree>)
    requires forall j :: 0 <= j < |from| ==>
      var i := ChildIndex(into, from[j].data.id); i < |into| && Covers(into[i], from[j])
    ensures MergeAll(into, from) == into
    decreases from, 0
  {
    if from != [] {
      var i := ChildIndex(into, from[0].data.id);
      MergeCovered(into[i], from[0]);
      assert into[i := into[i]] == into;
      MergeAllCovered(n1, into, from[1..]);
    }
  }

  lemma {:induction false} ReachedIsCovered(n1: Tree, n2: Tree)
    requires WellFormed(n1) && WellFormed(n2)
    requires forall p :: Reaches(n2, p) ==> Reaches(n1, p)
    ensures Covers(n1, n2)
    decreases n2
  {
    forall j | 0 <= j < |n2.children|
      ensures var i := ChildIndex(n1.children, n2.children[j].data.id);
              i < |n1.children| && Covers(n1.children[i], n2.children[j])
    {
      var c := n2.children[j];
      var id := c.data.id;
      var i := ChildIndex(n1.children, id);
      ChildIndexUnique(n2.children, j);
      ReachesChild(n1, id, "");
      ReachesChild(n2, id, "");
      assert Reaches(n2, id + "") ==> Reaches(n1, id + "");
      forall p | Reaches(c, p)
        ensures Reaches(n1.children[i], p)
      {
        ReachesChild(n1, id, p);
        ReachesChild(n2, id, p);
      }
      ReachedIsCovered(n1.children[i], c);
    }
  }

  lemma ReachesChild(t: Tree, id: string, p: string)
    requires |id| == 2
    ensures var i := ChildIndex(t.children, id);
            Reaches(t, id + p) <==> i < |t.children| && Reaches(t.children[i], p)
  {
    HeadTailOf(id, p);
  }

  /** Merging the same tree, or an equal copy of it, a second time changes nothing. */
  lemma MergeIdempotent(n1: Tree, n2: Tree)
    requires WellFormed(n1) && WellFormed(n2)
    ensures Merge(Merge(n1, n2), n2) == Merge(n1, n2)
  {
    MergeIsUnion(n1, n2, "");
    forall p | Reaches(n2, p)
      ensures Reaches(Merge(n1, n2), p)
    {
      MergeIsUnion(n1, n2, p);
    }
    ReachedIsCovered(Merge(n1, n2), n2);
    MergeCovered(Merge(n1, n2), n2);
  }

  // ----- the order of siblings -----

  function Ids(kids: seq<Tree>): seq<string> {
    seq(|kids|, i requires 0 <= i < |kids| => kids[i].data.id)
  }

  /** The ids among these siblings that are not taken yet, in order. */
  function NewIds(taken: seq<string>, from: seq<Tree>): seq<string> {
    if from == [] then []
    else if from[0].data.id in taken then NewIds(taken, from[1..])
    else [from[0].data.id] + NewIds(taken, from[1..])
  }

  lemma {:induction false} OthersNew(taken: seq<string>, id: string, from: seq<Tree>)
    requires forall i :: 0 <= i < |from| ==> from[i].data.id != id
    ensures NewIds(taken + [id], from) == NewIds(taken, from)
  {
    if from != [] {
      OthersNew(taken, id, from[1..]);
    }
  }

  lemma {:induction false} MergeAllOrder(into: seq<Tree>, from: seq<Tree>)
    requires DistinctIds(from)
    ensures Ids(MergeAll(into, from)) == Ids(into) + NewIds(Ids(into), from)
    decreases |from|
  {
    if from != [] {
      var c := from[0];
      var i := ChildIndex(into, c.data.id);
      assert c.data.id in Ids(into) <==> i < |into| by {
        if i < |into| {
          assert Ids(into)[i] == c.data.id;
        }
      }
      if i < |into| {
        var next := into[i := Merge(into[i], c)];
        assert Ids(next) == Ids(into);
        MergeAllOrder(next, from[1..]);
      } else {
        assert Ids(into + [c]) == Ids(into) + [c.data.id];
        MergeAllOrder(into + [c], from[1..]);
        OthersNew(Ids(into), c.data.id, from[1..]);
      }
    }
  }

  /** The first tree's children keep their places, so its mainline stays, and the new ones follow in their own order. */
  lemma MergeKeepsOrder(n1: Tree, n2: Tree)
    requires DistinctIds(n2.children)
    ensures Ids(Merge(n1, n2).children) == Ids(n1.children) + NewIds(Ids(n1.children), n2.children)
  {
    MergeAllOrder(n1.children, n2.children);
  }
}
