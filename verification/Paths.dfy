/**
 Tree paths (frontend/src/util/path.ts). A path is the concatenation of the
 two-character ids of the moves that lead to a node; the root has path "".
 `slice` never fails in JavaScript, so every function here is total and the
 clamping of `slice` on short strings is written out.
 */
module Paths {
  function Head(p: string): string {
    if |p| <= 2 then p else p[..2]
  }

  function Tail(p: string): string {
    if |p| <= 2 then "" else p[2..]
  }

  function Init(p: string): string {
    if |p| <= 2 then "" else p[..|p| - 2]
  }

  function Last(p: string): string {
    if |p| <= 2 then p else p[|p| - 2..]
  }

  /** `p1.startsWith(p2)` */
  predicate Contains(p1: string, p2: string) {
    p2 <= p1
  }

  function Intersection(p1: string, p2: string): string
    decreases |p1|
  {
    if Head(p1) != "" && Head(p1) == Head(p2) then
      Head(p1) + Intersection(Tail(p1), Tail(p2))
    else
      ""
  }

  lemma HeadTail(p: string)
    ensures Head(p) + Tail(p) == p
    ensures Init(p) + Last(p) == p
  {
  }

  lemma HeadTailOf(id: string, r: string)
    requires |id| == 2
    ensures Head(id + r) == id && Tail(id + r) == r
  {
    assert (id + r)[..2] == id;
    assert (id + r)[2..] == r;
  }

  lemma InitLastOf(p: string, id: string)
    requires |id| == 2
    ensures Init(p + id) == p && Last(p + id) == id
  {
    assert (p + id)[..|p|] == p;
    assert (p + id)[|p|..] == id;
  }

  /** A chain of whole ids, on which a tree lookup can succeed. */
  predicate Whole(p: string) {
    |p| % 2 == 0
  }

  lemma WholeAppend(p: string, id: string)
    requires Whole(p) && |id| == 2
    ensures Whole(p + id)
  {
  }

  lemma InitWhole(p: string)
    requires Whole(p) && p != ""
    ensures Whole(Init(p)) && Init(p) <= p && |Last(p)| == 2
  {
  }

  /** Being an ancestor is decided id by id. */
  lemma PrefixByHead(p: string, q: string)
    requires Whole(p) && p != "" && |q| != 1
    ensures p <= q <==> q != "" && Head(p) == Head(q) && Tail(p) <= Tail(q)
  {
    if |q| >= 2 {
      assert p == p[..2] + p[2..];
      assert q == q[..2] + q[2..];
      if p[..2] == q[..2] && p[2..] <= q[2..] {
        assert q[..|p|] == p;
      }
      if p <= q {
        assert q[2..][..|p| - 2] == q[2..|p|] == p[2..];
      }
    }
  }

  lemma TailWhole(p: string)
    requires Whole(p)
    ensures Whole(Tail(p)) && (p != "" ==> |Head(p)| == 2 && |Tail(p)| == |p| - 2)
  {
  }

  /**
   `intersection` is the greatest common ancestor: it is an ancestor of both
   paths and every common ancestor made of whole ids is an ancestor of it.
   */
  lemma {:induction false} IntersectionIsMeet(p1: string, p2: string, c: string)
    requires Whole(p1) && Whole(p2) && Whole(c)
    ensures Whole(Intersection(p1, p2))
    ensures c <= Intersection(p1, p2) <==> c <= p1 && c <= p2
    decreases |p1|
  {
    TailWhole(p1);
    TailWhole(p2);
    TailWhole(c);
    var meet := Intersection(p1, p2);
    if p1 != "" && p2 != "" && Head(p1) == Head(p2) {
      IntersectionIsMeet(Tail(p1), Tail(p2), Tail(c));
      HeadTailOf(Head(p1), Intersection(Tail(p1), Tail(p2)));
    } else {
      assert meet == "";
    }
    if c != "" {
      PrefixByHead(c, p1);
      PrefixByHead(c, p2);
      PrefixByHead(c, meet);
    }
  }
}
