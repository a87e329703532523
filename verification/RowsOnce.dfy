/**
 `buildTree` on an arbitrary table (backend/internal/store/chapters.go:583-621):
 orphans included, every row becomes exactly one node.
 */
module RowsOnce {
  import opened Paths
  import opened MoveTree
  import opened PathTable

  function Preorder(t: Tree): seq<MoveData>
    decreases t, 0
  {
    [t.data] + PreorderAll(t.children)
  }

  function PreorderAll(kids: seq<Tree>): seq<MoveData>
    decreases kids
  {
    if kids == [] then [] else Preorder(kids[0]) + PreorderAll(kids[1..])
  }

  /** The paths of the rows in the subtree rebuilt at p, in preorder. */
  function RowsBelow(m: Table, order: seq<string>, p: string): seq<string>
    requires forall q :: q in order ==> q in m
    requires p in m && |p| <= Longest(order)
    decreases Longest(order) - |p|, |order| + 1
  {
    [p] + RowsAmong(m, order, p, HungPaths(m, order, p))
  }

  function RowsAmong(m: Table, order: seq<string>, p: string, qs: seq<string>): seq<string>
    requires forall q :: q in order ==> q in m
    requires forall q :: q in qs ==> q in order && |q| > |p|
    decreases Longest(order) - |p|, |qs|
  {
    if qs == [] then []
    else assert qs[0] in order; RowsBelow(m, order, qs[0]) + RowsAmong(m, order, p, qs[1..])
  }

  /** q's chain of hung-under rows passes through p. */
  predicate Under(m: Table, p: string, q: string)
    decreases |q|
  {
    q == p || (|q| >= 2 && Under(m, p, HungUnder(m, q)))
  }

  lemma {:induction false} UnderLength(m: Table, p: string, q: string)
    requires Under(m, p, q)
    ensures |p| <= |q| && (p != q ==> |p| < |q|)
    decreases |q|
  {
    if q != p {
      UnderLength(m, p, HungUnder(m, q));
    }
  }

  lemma {:induction false} UnderTransitive(m: Table, p: string, a: string, q: string)
    requires HangsAt(m, a, p) && Under(m, a, q)
    ensures Under(m, p, q)
    decreases |q|
  {
    if q != a {
      UnderTransitive(m, p, a, HungUnder(m, q));
    }
  }

  /** The first step from p towards q. */
  lemma {:induction false} StepTowards(m: Table, p: string, q: string) returns (a: string)
    requires Under(m, p, q) && p != q && q in m
    ensures HangsAt(m, a, p) && Under(m, a, q) && a in m
    decreases |q|
  {
    var u := HungUnder(m, q);
    if u == p {
      a := q;
    } else {
      a := StepTowards(m, p, u);
    }
  }

  /** Two children of p are never both on q's chain. */
  lemma {:induction false} SiblingsDisjoint(m: Table, p: string, a: string, b: string, q: string)
    requires HangsAt(m, a, p) && HangsAt(m, b, p) && Under(m, a, q) && Under(m, b, q)
    ensures a == b
    decreases |q|
  {
    if q == a {
      if q != b {
        UnderLength(m, b, p);
      }
    } else if q == b {
      UnderLength(m, a, p);
    } else {
      SiblingsDisjoint(m, p, a, b, HungUnder(m, q));
    }
  }

  lemma {:induction false} CountBelow(m: Table, order: seq<string>, p: string, q: string)
    requires SortedKeys(m, order) && p in m && |p| <= Longest(order) && q in m
    ensures multiset(RowsBelow(m, order, p))[q] == if Under(m, p, q) then 1 else 0
    decreases Longest(order) - |p|, |order| + 1
  {
    var hung := HungPaths(m, order, p);
    HungPathsDistinct(m, order, p);
    CountAmong(m, order, p, hung, q);
    assert RowsBelow(m, order, p) == [p] + RowsAmong(m, order, p, hung);
    if Under(m, p, q) && p != q {
      var a := StepTowards(m, p, q);
      assert a in hung;
    }
    forall a | a in hung && Under(m, a, q)
      ensures Under(m, p, q) && p != q
    {
      UnderTransitive(m, p, a, q);
      UnderLength(m, a, q);
    }
  }

  lemma {:induction false} CountAmong(m: Table, order: seq<string>, p: string, qs: seq<string>, q: string)
    requires SortedKeys(m, order) && q in m && Distinct(qs)
    requires forall a :: a in qs ==> a in order && |a| > |p| && HangsAt(m, a, p)
    ensures multiset(RowsAmong(m, order, p, qs))[q] == if exists a :: a in qs && Under(m, a, q) then 1 else 0
    decreases Longest(order) - |p|, |qs|
  {
    if qs != [] {
      var a, rest := qs[0], qs[1..];
      assert a in order;
      CountBelow(m, order, a, q);
      CountAmong(m, order, p, rest, q);
      assert RowsAmong(m, order, p, qs) == RowsBelow(m, order, a) + RowsAmong(m, order, p, rest);
      assert forall b :: b in qs <==> b == a || b in rest;
      forall b | b in rest && Under(m, b, q) && Under(m, a, q)
        ensures false
      {
        SiblingsDisjoint(m, p, a, b, q);
      }
    }
  }

  function RowData(m: Table, ps: seq<string>): seq<MoveData>
    requires forall p :: p in ps ==> p in m
  {
    if ps == [] then [] else [m[ps[0]]] + RowData(m, ps[1..])
  }

  lemma {:induction false} RowDataSplit(m: Table, a: seq<string>, b: seq<string>)
    requires forall p :: p in a || p in b ==> p in m
    ensures RowData(m, a + b) == RowData(m, a) + RowData(m, b)
  {
    if a == [] {
      assert a + b == b;
    } else {
      RowDataSplit(m, a[1..], b);
      RowDataCons(m, a[0], a[1..] + b);
      RowDataCons(m, a[0], a[1..]);
      assert a + b == [a[0]] + (a[1..] + b) && a == [a[0]] + a[1..];
    }
  }

  lemma RowDataCons(m: Table, p: string, ps: seq<string>)
    requires p in m && forall q :: q in ps ==> q in m
    ensures RowData(m, [p] + ps) == [m[p]] + RowData(m, ps)
  {
    assert ([p] + ps)[1..] == ps;
  }

  lemma {:induction false} RowsAreKeys(m: Table, order: seq<string>, p: string)
    requires forall q :: q in order ==> q in m
    requires p in m && |p| <= Longest(order)
    ensures forall q :: q in RowsBelow(m, order, p) ==> q in m
    ensures Preorder(Rebuild(m, order, p)) == RowData(m, RowsBelow(m, order, p))
    decreases Longest(order) - |p|, |order| + 1
  {
    var hung := HungPaths(m, order, p);
    RowsAmongAreKeys(m, order, p, hung, Rebuild(m, order, p).children);
    RowDataSplit(m, [p], RowsAmong(m, order, p, hung));
  }

  lemma {:induction false} RowsAmongAreKeys(
    m: Table, order: seq<string>, p: string, qs: seq<string>, kids: seq<Tree>)
    requires forall q :: q in order ==> q in m
    requires forall q :: q in qs ==> q in order && |q| > |p|
    requires |kids| == |qs|
    requires forall i :: 0 <= i < |qs| ==> qs[i] in qs && kids[i] == Rebuild(m, order, qs[i])
    ensures forall q :: q in RowsAmong(m, order, p, qs) ==> q in m
    ensures PreorderAll(kids) == RowData(m, RowsAmong(m, order, p, qs))
    decreases Longest(order) - |p|, |qs|
  {
    if qs != [] {
      assert qs[0] in order;
      RowsAreKeys(m, order, qs[0]);
      RowsAmongAreKeys(m, order, p, qs[1..], kids[1..]);
      RowDataSplit(m, RowsBelow(m, order, qs[0]), RowsAmong(m, order, p, qs[1..]));
    }
  }

  lemma {:induction false} AllUnderRoot(m: Table, q: string)
    requires Cuttable(m) && q in m
    ensures Under(m, "", q)
    decreases |q|
  {
    if q != "" {
      if HungUnder(m, q) != "" {
        AllUnderRoot(m, HungUnder(m, q));
      }
    }
  }

  /**
   On any table with a root row that the loop can cut, the tree's preorder
   lists the data of every row, each path exactly once.
   */
  lemma {:induction false} EveryRowOnce(m: Table, order: seq<string>)
    requires "" in m && Cuttable(m) && SortedKeys(m, order)
    ensures multiset(RowsBelow(m, order, "")) == multiset(m.Keys)
    ensures forall q :: q in RowsBelow(m, order, "") ==> q in m
    ensures Preorder(Rebuild(m, order, "")) == RowData(m, RowsBelow(m, order, ""))
  {
    RowsAreKeys(m, order, "");
    var rows := multiset(RowsBelow(m, order, ""));
    forall q
      ensures rows[q] == multiset(m.Keys)[q]
    {
      if q in m {
        AllUnderRoot(m, q);
        CountBelow(m, order, "", q);
      } else {
        assert q !in RowsBelow(m, order, "");
      }
    }
  }

  /** A row hangs below its parent's row, or below the root when it has none, with its own data. */
  lemma RowPlaced(m: Table, order: seq<string>, q: string)
    requires "" in m && Cuttable(m) && SortedKeys(m, order) && q in m && q != ""
    ensures var at := if Init(q) in m then Init(q) else "";
            && |at| <= Longest(order) && |q| <= Longest(order)
            && Rebuild(m, order, q).data == m[q]
            && Rebuild(m, order, q) in Rebuild(m, order, at).children
  {
    var at := if Init(q) in m then Init(q) else "";
    assert q in order && HangsAt(m, q, at);
    var hung := HungPaths(m, order, at);
    var i :| 0 <= i < |hung| && hung[i] == q;
    assert Rebuild(m, order, at).children[i] == Rebuild(m, order, q);
  }
}
