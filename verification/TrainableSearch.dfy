/**
 The search for the next move to train (frontend/src/util/training.ts:131-203).
 A node is named by its index path: the child index taken at every level. The
 deque loop is proved to return the first admitted match in right-to-left
 preorder (dfs) or in level order (bfs).
 */
module TrainableSearch {
  import opened Wrappers
  import opened MoveTree
  import opened ClientChapter
  import Paths

  datatype Algorithm = Bfs | Dfs

  /** The search's parameters, the current user and the current time. */
  datatype Query = Query(mode: Option<TrainingMethod>, limit: int, key: Option<string>, now: int)

  datatype Context = Context(startingPath: string, targetMove: Tree)

  type Index = seq<nat>

  predicate IsMatch(d: MoveData, q: Query) {
    && d.enabled
    && match q.mode
       case Some(RecallMode) => UserCard(d, q.key).Some? && UserCard(d, q.key).value.due <= q.now
       case Some(LearnMode) => UserCard(d, q.key).None?
       case _ => false
  }

  function At(t: Tree, idx: Index): Option<Tree> {
    if idx == [] then Some(t)
    else if idx[0] < |t.children| then At(t.children[idx[0]], idx[1..])
    else None
  }

  /** The ids along an index path, which is the path string of the node there. */
  function PathOf(t: Tree, idx: Index): string
    requires At(t, idx).Some?
  {
    if idx == [] then "" else var c := t.children[idx[0]]; c.data.id + PathOf(c, idx[1..])
  }

  /**
   The layer an entry carries. The counter of the parent's entry is incremented
   for every child, so child number k is one layer deeper than child k - 1.
   */
  function Layer(idx: Index): nat
    requires idx != []
  {
    if |idx| == 1 then 0 else Layer(idx[..|idx| - 1]) + idx[|idx| - 1] + 1
  }

  /** The layer rule lets the children of this entry in. */
  predicate Opens(idx: Index, limit: int)
    requires idx != []
  {
    Layer(idx) < limit * 2 - 1
  }

  predicate Admitted(t: Tree, idx: Index, limit: int) {
    idx != [] && At(t, idx).Some? && forall n :: 1 <= n < |idx| ==> Opens(idx[..n], limit)
  }

  predicate Candidate(t: Tree, idx: Index, q: Query) {
    Admitted(t, idx, q.limit) && IsMatch(At(t, idx).value.data, q)
  }

  function ContextAt(t: Tree, idx: Index): Context
    requires idx != [] && At(t, idx).Some?
  {
    AtAppend(t, idx[..|idx| - 1], idx[|idx| - 1..]);
    assert idx[..|idx| - 1] + idx[|idx| - 1..] == idx;
    Context(PathOf(t, idx[..|idx| - 1]), At(t, idx).value)
  }

  // ----- the two orders -----

  /** Right-to-left preorder: an ancestor first, then the branch with the greater child index. */
  predicate DfsBefore(a: Index, b: Index) {
    if b == [] then false
    else if a == [] then true
    else if a[0] == b[0] then DfsBefore(a[1..], b[1..])
    else a[0] > b[0]
  }

  predicate LexLess(a: Index, b: Index) {
    if b == [] then false
    else if a == [] then true
    else if a[0] == b[0] then LexLess(a[1..], b[1..])
    else a[0] < b[0]
  }

  /** Level order: the lesser depth first, then from left to right. */
  predicate BfsBefore(a: Index, b: Index) {
    |a| < |b| || (|a| == |b| && LexLess(a, b))
  }

  predicate Before(a: Index, b: Index, algorithm: Algorithm) {
    if algorithm.Bfs? then BfsBefore(a, b) else DfsBefore(a, b)
  }

  /** No candidate comes earlier. */
  ghost predicate FirstCandidate(t: Tree, idx: Index, q: Query, algorithm: Algorithm) {
    Candidate(t, idx, q) && forall other :: Candidate(t, other, q) && other != idx ==> Before(idx, other, algorithm)
  }

  /**
   A move comes before its descendants; then dfs takes the last branch first, and
   bfs the first branch of the least depth.
   */
  lemma {:induction false} OrderMeaning(p: Index, i: nat, j: nat, a: Index, b: Index)
    requires i < j
    ensures DfsBefore(p, p + [i] + a) && DfsBefore(p + [j] + b, p + [i] + a)
    ensures BfsBefore(p, p + [i] + a)
    ensures |a| == |b| ==> BfsBefore(p + [i] + a, p + [j] + b)
    ensures |a| < |b| ==> BfsBefore(p + [i] + a, p + [j] + b) && BfsBefore(p + [j] + a, p + [i] + b)
    decreases |p|
  {
    var x, y := p + [i] + a, p + [j] + b;
    if p == [] {
      assert x == [i] + a && y == [j] + b;
    } else {
      assert x[1..] == p[1..] + [i] + a && y[1..] == p[1..] + [j] + b;
      OrderMeaning(p[1..], i, j, a, b);
    }
  }

  // ----- index paths in the tree -----

  lemma {:induction false} AtAppend(t: Tree, a: Index, b: Index)
    ensures At(t, a + b) == match At(t, a) case None => None case Some(n) => At(n, b)
  {
    if a == [] {
      assert a + b == b;
    } else {
      assert (a + b)[1..] == a[1..] + b;
      if a[0] < |t.children| {
        AtAppend(t.children[a[0]], a[1..], b);
      }
    }
  }

  lemma {:induction false} PathAppend(t: Tree, a: Index, k: nat)
    requires At(t, a).Some? && k < |At(t, a).value.children|
    ensures At(t, a + [k]) == Some(At(t, a).value.children[k])
    ensures PathOf(t, a + [k]) == PathOf(t, a) + At(t, a).value.children[k].data.id
  {
    AtAppend(t, a, [k]);
    if a == [] {
      assert a + [k] == [k];
    } else {
      assert (a + [k])[1..] == a[1..] + [k];
      PathAppend(t.children[a[0]], a[1..], k);
    }
  }

  lemma {:induction false} AtBounded(t: Tree, idx: Index, n: nat)
    requires At(t, idx).Some? && n <= |idx|
    ensures At(t, idx[..n]).Some?
    ensures n < |idx| ==> idx[n] < |At(t, idx[..n]).value.children|
  {
    assert idx == idx[..n] + idx[n..];
    AtAppend(t, idx[..n], idx[n..]);
  }

  function Sum(ks: seq<nat>): nat {
    if ks == [] then 0 else ks[0] + Sum(ks[1..])
  }

  lemma {:induction false} SumSnoc(ks: seq<nat>, k: nat)
    ensures Sum(ks + [k]) == Sum(ks) + k
  {
    if ks == [] {
      assert ks + [k] == [k];
      assert [k][1..] == [];
    } else {
      assert (ks + [k])[1..] == ks[1..] + [k];
      SumSnoc(ks[1..], k);
    }
  }

  /** A layer counts the plies and, on top, the elder siblings passed over on the way. */
  lemma {:induction false} LayerIsSum(idx: Index)
    requires idx != []
    ensures Layer(idx) == |idx| - 1 + Sum(idx[1..])
    decreases |idx|
  {
    var n := |idx| - 1;
    if n > 0 {
      LayerIsSum(idx[..n]);
      assert idx[1..] == idx[..n][1..] + [idx[n]];
      SumSnoc(idx[..n][1..], idx[n]);
    }
  }

  lemma {:induction false} LayerGrows(idx: Index, n: nat)
    requires 1 <= n <= |idx|
    ensures Layer(idx[..n]) <= Layer(idx)
    decreases |idx| - n
  {
    if n < |idx| {
      LayerGrows(idx, n + 1);
      assert idx[..n + 1][..n] == idx[..n];
    } else {
      assert idx[..n] == idx;
    }
  }

  /**
   Exactly which moves the search looks at: those for which the number of plies
   and the elder siblings of the moves strictly between the first and the last
   add up to at most twice the limit. Moves on the first ply always are.
   */
  lemma AdmittedIff(t: Tree, idx: Index, limit: int)
    requires idx != [] && At(t, idx).Some?
    ensures Admitted(t, idx, limit) <==> |idx| == 1 || |idx| + Sum(idx[1..|idx| - 1]) <= 2 * limit
  {
    var n := |idx| - 1;
    if n >= 1 {
      LayerIsSum(idx[..n]);
      assert idx[..n][1..] == idx[1..n];
      assert Admitted(t, idx, limit) <==> Opens(idx[..n], limit) by {
        forall m | 1 <= m <= n
          ensures Layer(idx[..m]) <= Layer(idx[..n])
        {
          LayerGrows(idx[..n], m);
          assert idx[..n][..m] == idx[..m];
        }
      }
    }
  }

  /** A move three plies deep, below a second move that has many elder siblings. */
  function BehindSiblings(limit: nat): Index
    requires limit >= 1
  {
    [0, 2 * limit - 2, 0]
  }

  /**
   When the only match stands there, the search answers that there is nothing
   left, although the match is well within 2 * limit plies.
   */
  lemma MatchMissed(t: Tree, q: Query)
    requires q.limit >= 2 && At(t, BehindSiblings(q.limit)).Some?
    requires forall idx :: idx != [] && At(t, idx).Some? && IsMatch(At(t, idx).value.data, q) ==>
      idx == BehindSiblings(q.limit)
    ensures |BehindSiblings(q.limit)| == 3 <= 2 * q.limit
    ensures forall idx :: !Candidate(t, idx, q)
  {
    var k := 2 * q.limit - 2;
    var missed := BehindSiblings(q.limit);
    AdmittedIff(t, missed, q.limit);
    assert missed[1..2] == [k];
    assert Sum([k]) == k;
    assert !Admitted(t, missed, q.limit);
  }

  /** The layer rule keeps the search within 2 * limit plies (one ply is always looked at). */
  lemma DepthWithinLimit(t: Tree, idx: Index, limit: int)
    requires Admitted(t, idx, limit)
    ensures |idx| == 1 || |idx| <= 2 * limit
  {
    AdmittedIff(t, idx, limit);
  }

  /**
   The rule is stricter than a depth limit: each further sibling sits one layer
   deeper, so a late child opens nothing where an early one still does.
   */
  lemma ChildOpens(idx: Index, k: nat, limit: int)
    requires idx != []
    ensures Layer(idx + [k]) == Layer(idx) + k + 1
    ensures Opens(idx + [k], limit) <==> Layer(idx) + k + 2 < limit * 2
  {
    assert (idx + [k])[..|idx|] == idx;
  }

  // ----- facts about the orders -----

  /** Neither path is an ancestor of the other. */
  predicate Apart(a: Index, b: Index) {
    !(a <= b) && !(b <= a)
  }

  lemma {:induction false} ApartBelow(a: Index, b: Index, a': Index, b': Index)
    requires Apart(a, b) && a <= a' && b <= b'
    ensures Apart(a', b')
    ensures DfsBefore(a', b') <==> DfsBefore(a, b)
  {
    if a != [] && b != [] && a[0] == b[0] {
      assert a == [a[0]] + a[1..] && b == [b[0]] + b[1..];
      assert a' == [a[0]] + a'[1..] && b' == [b[0]] + b'[1..];
      assert a'[1..][..|a| - 1] == a[1..] && b'[1..][..|b| - 1] == b[1..];
      ApartBelow(a[1..], b[1..], a'[1..], b'[1..]);
    }
  }

  lemma {:induction false} DescendantAfter(a: Index, b: Index)
    requires a <= b && a != b
    ensures DfsBefore(a, b) && BfsBefore(a, b)
  {
    if a != [] {
      assert a[1..] <= b[1..];
      DescendantAfter(a[1..], b[1..]);
    }
  }

  lemma {:induction false} ChildrenOrdered(a: Index, i: nat, j: nat)
    requires i < j
    ensures Apart(a + [i], a + [j]) && DfsBefore(a + [j], a + [i]) && BfsBefore(a + [i], a + [j])
  {
    if a == [] {
      assert a + [i] == [i] && a + [j] == [j];
    } else {
      assert a + [i] == [a[0]] + (a[1..] + [i]) && a + [j] == [a[0]] + (a[1..] + [j]);
      ChildrenOrdered(a[1..], i, j);
      BelowSame(a[0], a[1..] + [i], a[1..] + [j]);
      BelowSame(a[0], a[1..] + [j], a[1..] + [i]);
    }
  }

  /** A shared first step does not matter to the orders. */
  lemma BelowSame(k: nat, a: Index, b: Index)
    ensures [k] + a <= [k] + b <==> a <= b
    ensures DfsBefore([k] + a, [k] + b) <==> DfsBefore(a, b)
    ensures LexLess([k] + a, [k] + b) <==> LexLess(a, b)
  {
    assert ([k] + a)[1..] == a && ([k] + b)[1..] == b;
    if [k] + a <= [k] + b {
      assert b[..|a|] == ([k] + b)[1..|a| + 1] == a;
    }
  }

  lemma {:induction false} LexParents(a: Index, b: Index, k: nat)
    requires a != [] && |a| == |b| + 1 && LexLess(a[..|a| - 1], b)
    ensures LexLess(a, b + [k])
  {
    var p := a[..|a| - 1];
    assert (b + [k])[0] == b[0] && p[0] == a[0];
    if a[0] == b[0] {
      assert (b + [k])[1..] == b[1..] + [k];
      assert a[1..][..|a| - 2] == p[1..];
      LexParents(a[1..], b[1..], k);
    }
  }

  // ----- the deque's index paths -----

  /** dfs keeps a stack whose top comes first, bfs a queue of at most two levels. */
  predicate Ordered(idxs: seq<Index>, algorithm: Algorithm) {
    if algorithm.Dfs? then
      forall i, j :: 0 <= i < j < |idxs| ==> Apart(idxs[j], idxs[i]) && DfsBefore(idxs[j], idxs[i])
    else
      && (forall i, j :: 0 <= i < j < |idxs| ==> BfsBefore(idxs[i], idxs[j]))
      && (forall i, j :: 0 <= i < |idxs| && 0 <= j < |idxs| ==> Close(idxs[i], idxs[j]))
  }

  /** b is at most one level below a, and then its parent comes before a. */
  predicate Close(a: Index, b: Index) {
    |b| <= |a| + 1 && (|b| == |a| + 1 ==> LexLess(b[..|b| - 1], a))
  }

  /** Every candidate still to be found lies at or below an entry. */
  ghost predicate Covers(t: Tree, idxs: seq<Index>, q: Query) {
    forall idx :: Candidate(t, idx, q) ==> exists j :: 0 <= j < |idxs| && idxs[j] <= idx
  }

  /** The index paths of the children that the entry opens. */
  function Kids(t: Tree, idx: Index, limit: int): seq<Index>
    requires idx != [] && At(t, idx).Some?
  {
    if Opens(idx, limit) then seq(|At(t, idx).value.children|, k => idx + [k]) else []
  }

  /** The entry that is taken out next, and what remains. */
  function Next(n: nat, algorithm: Algorithm): nat
    requires n > 0
  {
    if algorithm.Bfs? then 0 else n - 1
  }

  function Rest<T>(s: seq<T>, algorithm: Algorithm): seq<T>
    requires s != []
  {
    if algorithm.Bfs? then s[1..] else s[..|s| - 1]
  }

  lemma NextIsFirst(t: Tree, idxs: seq<Index>, q: Query, algorithm: Algorithm)
    requires idxs != [] && Ordered(idxs, algorithm) && Covers(t, idxs, q)
    requires Candidate(t, idxs[Next(|idxs|, algorithm)], q)
    ensures FirstCandidate(t, idxs[Next(|idxs|, algorithm)], q, algorithm)
  {
    var e := idxs[Next(|idxs|, algorithm)];
    forall other | Candidate(t, other, q) && other != e
      ensures Before(e, other, algorithm)
    {
      var j :| 0 <= j < |idxs| && idxs[j] <= other;
      if idxs[j] == e {
        DescendantAfter(e, other);
      } else if algorithm.Dfs? {
        ApartBelow(e, idxs[j], e, other);
      } else {
        assert BfsBefore(e, idxs[j]);
        if |other| == |idxs[j]| {
          assert other == idxs[j];
        }
      }
    }
  }

  lemma StepCovers(t: Tree, idxs: seq<Index>, q: Query, algorithm: Algorithm)
    requires idxs != [] && Covers(t, idxs, q)
    requires var e := idxs[Next(|idxs|, algorithm)]; Admitted(t, e, q.limit) && !Candidate(t, e, q)
    ensures var e := idxs[Next(|idxs|, algorithm)];
            Covers(t, Rest(idxs, algorithm) + Kids(t, e, q.limit), q)
  {
    var e := idxs[Next(|idxs|, algorithm)];
    var rest, kids := Rest(idxs, algorithm), Kids(t, e, q.limit);
    forall idx | Candidate(t, idx, q)
      ensures exists j :: 0 <= j < |rest + kids| && (rest + kids)[j] <= idx
    {
      var j :| 0 <= j < |idxs| && idxs[j] <= idx;
      if j != Next(|idxs|, algorithm) {
        var j' := if algorithm.Bfs? then j - 1 else j;
        assert (rest + kids)[j'] == idxs[j];
      } else {
        assert e == idx[..|e|] && e != idx;
        assert Opens(idx[..|e|], q.limit);
        AtBounded(t, idx, |e|);
        var k := idx[|e|];
        assert kids[k] == e + [k] == idx[..|e| + 1];
        assert (rest + kids)[|rest| + k] == kids[k];
      }
    }
  }

  lemma StepOrderedDfs(t: Tree, idxs: seq<Index>, limit: int)
    requires idxs != [] && Ordered(idxs, Dfs)
    requires var e := idxs[|idxs| - 1]; e != [] && At(t, e).Some?
    ensures Ordered(idxs[..|idxs| - 1] + Kids(t, idxs[|idxs| - 1], limit), Dfs)
  {
    var e := idxs[|idxs| - 1];
    var rest, kids := idxs[..|idxs| - 1], Kids(t, e, limit);
    var all := rest + kids;
    forall i, j | 0 <= i < j < |all|
      ensures Apart(all[j], all[i]) && DfsBefore(all[j], all[i])
    {
      if |rest| <= j {
        if |rest| <= i {
          ChildrenOrdered(e, i - |rest|, j - |rest|);
        } else {
          ApartBelow(e, rest[i], all[j], rest[i]);
        }
      }
    }
  }

  lemma QueuedAndChild(e: Index, x: Index, k: nat)
    requires e != [] && BfsBefore(e, x) && Close(e, x)
    ensures BfsBefore(x, e + [k]) && Close(x, e + [k]) && Close(e + [k], x)
  {
    assert (e + [k])[..|e|] == e;
    if |x| == |e| + 1 {
      LexParents(x, e, k);
    }
  }

  lemma StepOrderedBfs(t: Tree, idxs: seq<Index>, limit: int)
    requires idxs != [] && Ordered(idxs, Bfs)
    requires idxs[0] != [] && At(t, idxs[0]).Some?
    ensures Ordered(idxs[1..] + Kids(t, idxs[0], limit), Bfs)
  {
    var e := idxs[0];
    var rest, kids := idxs[1..], Kids(t, e, limit);
    var all := rest + kids;
    forall i, j | 0 <= i < |rest| && 0 <= j < |kids|
      ensures BfsBefore(rest[i], kids[j]) && Close(rest[i], kids[j]) && Close(kids[j], rest[i])
    {
      assert rest[i] == idxs[i + 1];
      QueuedAndChild(e, rest[i], j);
    }
    forall i, j | 0 <= i < |kids| && 0 <= j < |kids|
      ensures Close(kids[i], kids[j]) && (i < j ==> BfsBefore(kids[i], kids[j]))
    {
      if i < j {
        ChildrenOrdered(e, i, j);
      }
    }
    JoinOrdered(rest, kids);
  }

  lemma JoinOrdered(rest: seq<Index>, kids: seq<Index>)
    requires Ordered(rest, Bfs) && Ordered(kids, Bfs)
    requires forall i, j :: 0 <= i < |rest| && 0 <= j < |kids| ==>
      BfsBefore(rest[i], kids[j]) && Close(rest[i], kids[j]) && Close(kids[j], rest[i])
    ensures Ordered(rest + kids, Bfs)
  {
  }

  // ----- the loop -----

  datatype Entry = Entry(nodeList: seq<Tree>, layer: int, pathToHere: string, targetNode: Tree)

  /** The entry is the one for this index path. */
  predicate Describes(t: Tree, entry: Entry, idx: Index, limit: int) {
    && Admitted(t, idx, limit)
    && |entry.nodeList| >= 1 && entry.nodeList[|entry.nodeList| - 1] == entry.targetNode
    && entry.layer == Layer(idx)
    && ContextAt(t, idx) == Context(entry.pathToHere, entry.targetNode)
  }

  predicate AllDescribe(t: Tree, deque: seq<Entry>, idxs: seq<Index>, limit: int) {
    |deque| == |idxs| && forall j :: 0 <= j < |deque| ==> Describes(t, deque[j], idxs[j], limit)
  }

  /** The nodes still queued, each with everything below it. */
  function Work(deque: seq<Entry>): nat {
    if deque == [] then 0 else Size(deque[0].targetNode) + Work(deque[1..])
  }

  lemma {:induction false} WorkSplit(a: seq<Entry>, b: seq<Entry>)
    ensures Work(a + b) == Work(a) + Work(b)
  {
    if a == [] {
      assert a + b == b;
    } else {
      assert (a + b)[1..] == a[1..] + b;
      WorkSplit(a[1..], b);
    }
  }

  lemma RestWork(deque: seq<Entry>, algorithm: Algorithm)
    requires deque != []
    ensures Work(deque) == Work(Rest(deque, algorithm)) + Size(deque[Next(|deque|, algorithm)].targetNode)
  {
    var n := |deque| - 1;
    assert deque == deque[..n] + [deque[n]];
    WorkSplit(deque[..n], [deque[n]]);
  }

  lemma {:induction false} KidsWork(kids: seq<Tree>, entries: seq<Entry>)
    requires |entries| <= |kids|
    requires forall k :: 0 <= k < |entries| ==> entries[k].targetNode == kids[k]
    ensures Work(entries) <= SizeAll(kids)
  {
    if entries != [] {
      KidsWork(kids[1..], entries[1..]);
    }
  }

  lemma ChildContext(t: Tree, idx: Index, k: nat, limit: int)
    requires Admitted(t, idx, limit) && Opens(idx, limit) && k < |At(t, idx).value.children|
    ensures Admitted(t, idx + [k], limit)
    ensures ContextAt(t, idx + [k]) ==
            Context(ContextAt(t, idx).startingPath + At(t, idx).value.data.id, At(t, idx).value.children[k])
  {
    var n := |idx| - 1;
    PathAppend(t, idx, k);
    assert (idx + [k])[..|idx|] == idx;
    assert idx[..n] + [idx[n]] == idx;
    AtBounded(t, idx, n);
    PathAppend(t, idx[..n], idx[n]);
    forall m | 1 <= m < |idx + [k]|
      ensures Opens((idx + [k])[..m], limit)
    {
      assert (idx + [k])[..m] == if m == |idx| then idx else idx[..m];
    }
  }

  lemma RootContext(t: Tree, k: nat, limit: int)
    requires k < |t.children|
    ensures Admitted(t, [k], limit) && ContextAt(t, [k]) == Context("", t.children[k])
  {
    assert [k][..0] == [];
    assert [k][1..] == [];
  }

  /** The children of an entry, pushed one by one while its layer counter grows. */
  method PushChildren(t: Tree, entry: Entry, ghost idx: Index, limit: int) returns (entries: seq<Entry>)
    requires Describes(t, entry, idx, limit)
    ensures AllDescribe(t, entries, Kids(t, idx, limit), limit)
    ensures Work(entries) < Size(entry.targetNode)
  {
    entries := [];
    var pos := entry.targetNode;
    if entry.layer < (limit * 2) - 1 {
      var layer := entry.layer;
      for k := 0 to |pos.children|
        invariant layer == entry.layer + k && |entries| == k
        invariant forall j :: 0 <= j < k ==>
          entries[j].targetNode == pos.children[j] && Describes(t, entries[j], idx + [j], limit)
      {
        layer := layer + 1;
        ChildContext(t, idx, k, limit);
        ChildOpens(idx, k, limit);
        entries := entries + [Entry(entry.nodeList + [pos.children[k]], layer,
                                    entry.pathToHere + entry.targetNode.data.id, pos.children[k])];
      }
    }
    KidsWork(pos.children, entries);
  }

  /** The root's children, all in layer 0. */
  method FirstEntries(t: Tree, limit: int) returns (deque: seq<Entry>)
    ensures AllDescribe(t, deque, seq(|t.children|, k => [k]), limit)
  {
    deque := [];
    for k := 0 to |t.children|
      invariant |deque| == k
      invariant forall j :: 0 <= j < k ==> Describes(t, deque[j], [j], limit)
    {
      RootContext(t, k, limit);
      deque := deque + [Entry([t.children[k]], 0, "", t.children[k])];
    }
  }

  lemma FirstOrdered(t: Tree, q: Query, algorithm: Algorithm)
    ensures var idxs := seq(|t.children|, k => [k]);
            Ordered(idxs, algorithm) && Covers(t, idxs, q)
  {
    var idxs := seq(|t.children|, k => [k]);
    forall i, j | 0 <= i < j < |idxs|
      ensures Apart(idxs[j], idxs[i]) && DfsBefore(idxs[j], idxs[i]) && BfsBefore(idxs[i], idxs[j])
    {
      ChildrenOrdered([], i, j);
      assert [] + [i] == [i] && [] + [j] == [j];
    }
    forall idx: Index | Candidate(t, idx, q)
      ensures exists j :: 0 <= j < |idxs| && idxs[j] <= idx
    {
      assert idxs[idx[0]] <= idx;
    }
  }

  lemma StepDescribes(t: Tree, deque: seq<Entry>, idxs: seq<Index>, more: seq<Entry>, limit: int, algorithm: Algorithm)
    requires deque != [] && AllDescribe(t, deque, idxs, limit)
    requires AllDescribe(t, more, Kids(t, idxs[Next(|idxs|, algorithm)], limit), limit)
    ensures AllDescribe(t, Rest(deque, algorithm) + more,
                        Rest(idxs, algorithm) + Kids(t, idxs[Next(|idxs|, algorithm)], limit), limit)
  {
  }

  lemma StepOrdered(t: Tree, idxs: seq<Index>, limit: int, algorithm: Algorithm)
    requires idxs != [] && Ordered(idxs, algorithm)
    requires var e := idxs[Next(|idxs|, algorithm)]; e != [] && At(t, e).Some?
    ensures Ordered(Rest(idxs, algorithm) + Kids(t, idxs[Next(|idxs|, algorithm)], limit), algorithm)
  {
    if algorithm.Dfs? {
      StepOrderedDfs(t, idxs, limit);
    } else {
      StepOrderedBfs(t, idxs, limit);
    }
  }

  /**
   `computeNextTrainableNode`: null means that no admitted node matches;
   otherwise the answer is the first candidate in the algorithm's order, with
   the path of its parent.
   */
  method ComputeNextTrainableNode(root: Tree, q: Query, algorithm: Algorithm) returns (result: Option<Context>)
    ensures result.None? ==> forall idx :: !Candidate(root, idx, q)
    ensures result.Some? ==>
      exists idx :: FirstCandidate(root, idx, q, algorithm) && result.value == ContextAt(root, idx)
  {
    var deque := FirstEntries(root, q.limit);
    ghost var idxs: seq<Index> := seq(|root.children|, k => [k]);
    FirstOrdered(root, q, algorithm);
    while deque != []
      invariant AllDescribe(root, deque, idxs, q.limit)
      invariant Ordered(idxs, algorithm) && Covers(root, idxs, q)
      decreases Work(deque)
    {
      var entry := deque[Next(|deque|, algorithm)];
      ghost var idx := idxs[Next(|idxs|, algorithm)];
      assert Describes(root, entry, idx, q.limit);
      var pos := entry.nodeList[|entry.nodeList| - 1];
      if IsMatch(pos.data, q) {
        NextIsFirst(root, idxs, q, algorithm);
        assert ContextAt(root, idx) == Context(entry.pathToHere, entry.targetNode);
        return Some(Context(entry.pathToHere, entry.targetNode));
      }
      var more := PushChildren(root, entry, idx, q.limit);
      StepDescribes(root, deque, idxs, more, q.limit, algorithm);
      StepOrdered(root, idxs, q.limit, algorithm);
      StepCovers(root, idxs, q, algorithm);
      RestWork(deque, algorithm);
      WorkSplit(Rest(deque, algorithm), more);
      deque := Rest(deque, algorithm) + more;
      idxs := Rest(idxs, algorithm) + Kids(root, idx, q.limit);
    }
    result := None;
  }

  // ----- what the answer means -----

  /** In a tree with distinct sibling ids the answer is found again at startingPath + id. */
  lemma {:induction false} ContextIsAtItsPath(t: Tree, idx: Index)
    requires WellFormed(t) && At(t, idx).Some?
    ensures NodeAtPathOrNull(t, PathOf(t, idx)) == At(t, idx)
    decreases |idx|
  {
    if idx != [] {
      var c := t.children[idx[0]];
      ContextIsAtItsPath(c, idx[1..]);
      ChildIndexUnique(t.children, idx[0]);
      Paths.HeadTailOf(c.data.id, PathOf(c, idx[1..]));
    }
  }

  /** The answer is the node at startingPath + id, where `learn` and `train` look for it. */
  lemma AnswerIsInTree(t: Tree, idx: Index)
    requires WellFormed(t) && idx != [] && At(t, idx).Some?
    ensures var c := ContextAt(t, idx);
            NodeAtPathOrNull(t, c.startingPath + c.targetMove.data.id) == Some(c.targetMove)
  {
    var n := |idx| - 1;
    assert idx[..n] + [idx[n]] == idx;
    AtBounded(t, idx, n);
    PathAppend(t, idx[..n], idx[n]);
    ContextIsAtItsPath(t, idx);
  }

  /** The answer is a child of the node at startingPath. */
  lemma ParentAndChild(t: Tree, idx: Index)
    requires WellFormed(t) && idx != [] && At(t, idx).Some?
    ensures Reaches(t, ContextAt(t, idx).startingPath) && |ContextAt(t, idx).targetMove.data.id| == 2
  {
    var n := |idx| - 1;
    assert idx[..n] + [idx[n]] == idx;
    AtBounded(t, idx, n);
    PathAppend(t, idx[..n], idx[n]);
    ContextIsAtItsPath(t, idx[..n]);
    Paths.HeadTail(PathOf(t, idx[..n]));
    ReachesWhole(t, PathOf(t, idx[..n]));
  }

  /** bfs answers with a candidate of least depth. */
  lemma BfsLeastDepth(t: Tree, idx: Index, q: Query, other: Index)
    requires FirstCandidate(t, idx, q, Bfs) && Candidate(t, other, q)
    ensures |idx| <= |other|
  {
  }

  lemma {:induction false} OrderIrreflexive(a: Index)
    ensures !DfsBefore(a, a) && !LexLess(a, a)
  {
    if a != [] {
      OrderIrreflexive(a[1..]);
    }
  }

  lemma {:induction false} OrderAsymmetric(a: Index, b: Index)
    ensures !(DfsBefore(a, b) && DfsBefore(b, a)) && !(LexLess(a, b) && LexLess(b, a))
  {
    if a != [] && b != [] && a[0] == b[0] {
      OrderAsymmetric(a[1..], b[1..]);
    }
  }

  /** The first candidate is unique, so the specification determines the answer. */
  lemma FirstUnique(t: Tree, a: Index, b: Index, q: Query, algorithm: Algorithm)
    requires FirstCandidate(t, a, q, algorithm) && FirstCandidate(t, b, q, algorithm)
    ensures a == b
  {
    OrderAsymmetric(a, b);
  }

  // ----- what a card does to the search -----

  /** Writing the data of one node, seen by index. */
  lemma {:induction false} WrittenAt(t: Tree, idx: Index, g: MoveData -> MoveData, other: Index)
    requires WellFormed(t) && At(t, idx).Some? && forall d :: g(d).id == d.id
    ensures var t' := UpdateAt(t, PathOf(t, idx), Writing(g));
            && (At(t', other).Some? <==> At(t, other).Some?)
            && (At(t, other).Some? ==>
                 At(t', other).value.data ==
                 if other == idx then g(At(t, idx).value.data) else At(t, other).value.data)
    decreases idx
  {
    if idx != [] {
      var c := t.children[idx[0]];
      var path := c.data.id + PathOf(c, idx[1..]);
      assert Paths.Head(path) == c.data.id && Paths.Tail(path) == PathOf(c, idx[1..]);
      ChildIndexUnique(t.children, idx[0]);
      if other != [] && other[0] == idx[0] {
        WrittenAt(c, idx[1..], g, other[1..]);
        assert other == [other[0]] + other[1..] && idx == [idx[0]] + idx[1..];
      }
    }
  }

  /**
   A card put on the move at `idx` takes it out of the moves to learn and puts it
   among those to recall from the time when it is due on; for every other move
   the search stays as it was.
   */
  lemma CardedCandidates(t: Tree, idx: Index, user: string, card: Card, other: Index, q: Query)
    requires WellFormed(t) && idx != [] && At(t, idx).Some? && q.key == Some(user)
    ensures var t' := UpdateAt(t, PathOf(t, idx), Writing(Carding(user, card)));
            Candidate(t', other, q) <==>
            if other == idx
            then Admitted(t, idx, q.limit) && At(t, idx).value.data.enabled
                 && q.mode == Some(RecallMode) && card.due <= q.now
            else Candidate(t, other, q)
  {
    WrittenAt(t, idx, Carding(user, card), other);
  }

  /** A move without a card of the user is there to be learnt, and nothing is due without one. */
  lemma FreshCandidate(t: Tree, idx: Index, q: Query)
    requires Admitted(t, idx, q.limit)
    requires q.key.None? || q.key.value !in At(t, idx).value.data.training
    ensures Candidate(t, idx, q) <==> q.mode == Some(LearnMode) && At(t, idx).value.data.enabled
  {
  }
}
