/**
 The opening explorer (explorer/main.go, explorer/merge.go): games are counted
 per position and move, each import batch adds one merge operand per position,
 and the store folds operands together in whatever grouping it likes. Chess
 itself is a parameter.
 */
module Explorer {
  import opened Wrappers

  /** Legal play: the starting position, decoding and playing a SAN, and a position's key. */
  datatype Rules<!P> = Rules(start: P, play: (P, string) -> Option<P>, key: P -> string)

  datatype Winner = White | Black | NoColor

  datatype Game = Game(winner: Winner, moves: seq<string>)

  datatype Tally = Tally(white: int, black: int, draws: int)

  datatype ResultSummary = ResultSummary(san: string, tally: Tally)

  type Operand = seq<ResultSummary>

  const ZERO := Tally(0, 0, 0)

  function Plus(a: Tally, b: Tally): Tally {
    Tally(a.white + b.white, a.black + b.black, a.draws + b.draws)
  }

  lemma PlusZero(a: Tally)
    ensures Plus(a, ZERO) == a && Plus(ZERO, a) == a
  {
  }

  lemma PlusAssociative(a: Tally, b: Tally, c: Tally)
    ensures Plus(a, Plus(b, c)) == Plus(Plus(a, b), c)
  {
  }

  lemma PlusCommutes(a: Tally, b: Tally)
    ensures Plus(a, b) == Plus(b, a)
  {
  }

  function Total(t: Tally): int {
    t.white + t.black + t.draws
  }

  /** A counted game adds one to the total. */
  lemma PointIsOne(t: Tally, w: Winner)
    ensures Total(Plus(t, PointFor(w))) == Total(t) + 1 && Total(ZERO) == 0
  {
  }

  function PointFor(w: Winner): Tally {
    match w case White => Tally(1, 0, 0) case Black => Tally(0, 1, 0) case NoColor => Tally(0, 0, 1)
  }

  // ----- merge.go -----

  predicate DistinctSans(rs: Operand) {
    forall i, j :: 0 <= i < j < |rs| ==> rs[i].san != rs[j].san
  }

  /** The counts an operand holds for one move. */
  function CountOf(rs: Operand, san: string): Tally {
    if rs == [] then ZERO
    else if rs[0].san == san then Plus(rs[0].tally, CountOf(rs[1..], san))
    else CountOf(rs[1..], san)
  }

  lemma {:induction false} CountAbsent(rs: Operand, san: string)
    requires forall i :: 0 <= i < |rs| ==> rs[i].san != san
    ensures CountOf(rs, san) == ZERO
  {
    if rs != [] {
      CountAbsent(rs[1..], san);
    }
  }

  lemma {:induction false} CountPresent(rs: Operand, i: nat)
    requires DistinctSans(rs) && i < |rs|
    ensures CountOf(rs, rs[i].san) == rs[i].tally
  {
    if i == 0 {
      CountAbsent(rs[1..], rs[0].san);
    } else {
      CountPresent(rs[1..], i - 1);
    }
  }

  lemma {:induction false} CountSnoc(rs: Operand, r: ResultSummary, san: string)
    ensures CountOf(rs + [r], san) == if r.san == san then Plus(CountOf(rs, san), r.tally) else CountOf(rs, san)
  {
    if rs == [] {
      assert rs + [r] == [r];
      assert [r][1..] == [];
    } else {
      assert (rs + [r])[1..] == rs[1..] + [r];
      CountSnoc(rs[1..], r, san);
    }
  }

  function Lookup(m: map<string, Tally>, san: string): Tally {
    if san in m then m[san] else ZERO
  }

  /** The last loop of `mergeResultSummaries`: a map listed in iteration order. */
  method ListResults(merged: map<string, Tally>) returns (rs: Operand)
    ensures DistinctSans(rs)
    ensures forall san :: CountOf(rs, san) == Lookup(merged, san)
    ensures |rs| == |merged|
  {
    rs := [];
    var todo := merged.Keys;
    assert merged.Keys - todo == {};
    while todo != {}
      invariant todo <= merged.Keys && |rs| + |todo| == |merged.Keys|
      invariant DistinctSans(rs)
      invariant forall i :: 0 <= i < |rs| ==> rs[i].san in merged && rs[i].san !in todo
      invariant forall san :: CountOf(rs, san) == if san in todo then ZERO else Lookup(merged, san)
      decreases |todo|
    {
      var san :| san in todo;
      forall s
        ensures CountOf(rs + [ResultSummary(san, merged[san])], s) ==
                if s in todo - {san} then ZERO else Lookup(merged, s)
      {
        CountSnoc(rs, ResultSummary(san, merged[san]), s);
      }
      rs := rs + [ResultSummary(san, merged[san])];
      todo := todo - {san};
    }
  }

  /** What merging two operands may produce; the order of the results is left open. */
  ghost predicate MergesTo(older: Operand, newer: Operand, final: Operand) {
    DistinctSans(final) && forall san :: CountOf(final, san) == Plus(CountOf(older, san), CountOf(newer, san))
  }

  lemma LookupSet(m: map<string, Tally>, key: string, t: Tally, san: string)
    ensures Lookup(m[key := t], san) == if san == key then t else Lookup(m, san)
  {
  }

  /** The first loop: the old results by move. */
  method IndexResults(rs: Operand) returns (merged: map<string, Tally>)
    requires DistinctSans(rs)
    ensures forall san :: Lookup(merged, san) == CountOf(rs, san)
  {
    merged := map[];
    for i := 0 to |rs|
      invariant forall san :: Lookup(merged, san) == CountOf(rs[..i], san)
    {
      var res := rs[i];
      var next := merged[res.san := res.tally];
      CountAbsent(rs[..i], res.san);
      assert rs[..i + 1] == rs[..i] + [res];
      forall san
        ensures Lookup(next, san) == CountOf(rs[..i + 1], san)
      {
        CountSnoc(rs[..i], res, san);
        LookupSet(merged, res.san, res.tally, san);
      }
      merged := next;
    }
    assert rs[..|rs|] == rs;
  }

  lemma AddOne(before: Tally, merged: map<string, Tally>, done: Operand, res: ResultSummary, san: string)
    requires Lookup(merged, san) == Plus(before, CountOf(done, san))
    ensures Lookup(merged[res.san := Plus(Lookup(merged, res.san), res.tally)], san) ==
            Plus(before, CountOf(done + [res], san))
  {
    CountSnoc(done, res, san);
    PlusAssociative(before, CountOf(done, san), res.tally);
  }

  /** The second loop: add to a move's counts, or start them. */
  method AddResults(base: map<string, Tally>, rs: Operand) returns (merged: map<string, Tally>)
    ensures forall san :: Lookup(merged, san) == Plus(Lookup(base, san), CountOf(rs, san))
  {
    merged := base;
    forall san
      ensures Lookup(base, san) == Plus(Lookup(base, san), CountOf(rs[..0], san))
    {
      PlusZero(Lookup(base, san));
    }
    for i := 0 to |rs|
      invariant forall san :: Lookup(merged, san) == Plus(Lookup(base, san), CountOf(rs[..i], san))
    {
      var res := rs[i];
      var sum := if res.san in merged then Plus(merged[res.san], res.tally) else res.tally;
      PlusZero(res.tally);
      var next := merged[res.san := sum];
      assert rs[..i + 1] == rs[..i] + [res];
      forall san
        ensures Lookup(next, san) == Plus(Lookup(base, san), CountOf(rs[..i + 1], san))
      {
        AddOne(Lookup(base, san), merged, rs[..i], res, san);
      }
      merged := next;
    }
    assert rs[..|rs|] == rs;
  }

  /**
   `mergeResultSummaries`. An absent old value (an empty buffer) makes the new
   value the base.
   */
  method MergeResultSummaries(older: Option<Operand>, newer: Operand) returns (final: Operand)
    requires older.Some? ==> DistinctSans(older.value)
    ensures older.Some? ==> MergesTo(older.value, newer, final)
    ensures older.None? ==> final == newer
  {
    if older.None? {
      return newer;
    }
    var merged := IndexResults(older.value);
    merged := AddResults(merged, newer);
    final := ListResults(merged);
  }

  /** `statsMerger`: pebble feeds it operands one at a time, older or newer ones. */
  class StatsMerger {
    var current: Operand

    constructor (value: Operand)
      ensures current == value
    {
      current := value;
    }

    method MergeNewer(value: Operand)
      requires DistinctSans(current)
      modifies this
      ensures MergesTo(old(current), value, current)
    {
      current := MergeResultSummaries(Some(current), value);
    }

    method MergeOlder(value: Operand)
      requires DistinctSans(current)
      modifies this
      ensures MergesTo(old(current), value, current)
    {
      current := MergeResultSummaries(Some(current), value);
    }

    method Finish() returns (value: Operand)
      ensures value == current
    {
      value := current;
    }
  }

  // ----- any grouping, any order -----

  /** How the store happened to fold a key's operands: each merger starts from one and takes others in. */
  datatype Grouping =
    | Leaf(operand: Operand)
    | Newer(merger: Grouping, value: Grouping)
    | Older(merger: Grouping, value: Grouping)

  /** A value the folding may end with. */
  ghost predicate FoldsTo(g: Grouping, result: Operand) {
    match g
    case Leaf(operand) => result == operand
    case Newer(a, b) => exists x, y :: FoldsTo(a, x) && FoldsTo(b, y) && MergesTo(x, y, result)
    case Older(a, b) => exists x, y :: FoldsTo(a, x) && FoldsTo(b, y) && MergesTo(x, y, result)
  }

  function Leaves(g: Grouping): seq<Operand> {
    match g
    case Leaf(operand) => [operand]
    case Newer(a, b) => Leaves(a) + Leaves(b)
    case Older(a, b) => Leaves(a) + Leaves(b)
  }

  function SumOf(operands: seq<Operand>, san: string): Tally {
    if operands == [] then ZERO else Plus(CountOf(operands[0], san), SumOf(operands[1..], san))
  }

  lemma ConsAppend<T>(a: seq<T>, b: seq<T>)
    requires a != []
    ensures (a + b)[0] == a[0] && (a + b)[1..] == a[1..] + b
  {
  }

  lemma {:induction false} SumSplit(a: seq<Operand>, b: seq<Operand>, san: string)
    ensures SumOf(a + b, san) == Plus(SumOf(a, san), SumOf(b, san))
  {
    if a == [] {
      assert a + b == b;
      PlusZero(SumOf(b, san));
    } else {
      SumSplit(a[1..], b, san);
      ConsAppend(a, b);
      PlusAssociative(CountOf(a[0], san), SumOf(a[1..], san), SumOf(b, san));
    }
  }

  lemma SumMoveFront(a: seq<Operand>, rs: Operand, b: seq<Operand>, san: string)
    ensures SumOf(a + ([rs] + b), san) == Plus(CountOf(rs, san), SumOf(a + b, san))
  {
    SumSplit(a, b, san);
    SumSplit(a, [rs] + b, san);
    assert ([rs] + b)[1..] == b;
    PlusAssociative(SumOf(a, san), CountOf(rs, san), SumOf(b, san));
    PlusCommutes(SumOf(a, san), CountOf(rs, san));
    PlusAssociative(CountOf(rs, san), SumOf(a, san), SumOf(b, san));
  }

  lemma TakeOut<T>(s: seq<T>, i: nat)
    requires i < |s|
    ensures s == s[..i] + ([s[i]] + s[i + 1..])
    ensures multiset(s[..i] + s[i + 1..]) == multiset(s) - multiset{s[i]}
  {
    assert s == s[..i] + ([s[i]] + s[i + 1..]);
  }

  /** The sum depends on which operands there are, not on their order. */
  lemma {:induction false} SumReordered(a: seq<Operand>, b: seq<Operand>, san: string)
    requires multiset(a) == multiset(b)
    ensures SumOf(a, san) == SumOf(b, san)
  {
    if a == [] {
      assert |b| == |multiset(b)| == |multiset(a)| == 0;
    } else {
      assert a[0] in multiset(b);
      var i :| 0 <= i < |b| && b[i] == a[0];
      TakeOut(a, 0);
      TakeOut(b, i);
      assert a[..0] + a[1..] == a[1..];
      SumReordered(a[1..], b[..i] + b[i + 1..], san);
      SumMoveFront(b[..i], b[i], b[i + 1..], san);
    }
  }

  /** Every folding of the operands ends with the pointwise sum of all of them. */
  lemma {:induction false} FoldIsSum(g: Grouping, result: Operand, san: string)
    requires FoldsTo(g, result) && forall rs :: rs in Leaves(g) ==> DistinctSans(rs)
    ensures DistinctSans(result) && CountOf(result, san) == SumOf(Leaves(g), san)
  {
    match g
    case Leaf(operand) =>
      assert Leaves(g)[0] == operand && Leaves(g)[1..] == [];
    case Newer(a, b) =>
      var x, y :| FoldsTo(a, x) && FoldsTo(b, y) && MergesTo(x, y, result);
      FoldIsSum(a, x, san);
      FoldIsSum(b, y, san);
      SumSplit(Leaves(a), Leaves(b), san);
    case Older(a, b) =>
      var x, y :| FoldsTo(a, x) && FoldsTo(b, y) && MergesTo(x, y, result);
      FoldIsSum(a, x, san);
      FoldIsSum(b, y, san);
      SumSplit(Leaves(a), Leaves(b), san);
  }

  /** Two foldings of the same operands may list the moves differently but count them alike. */
  lemma {:induction false} FoldOrderIrrelevant(g: Grouping, h: Grouping, x: Operand, y: Operand, san: string)
    requires multiset(Leaves(g)) == multiset(Leaves(h)) && FoldsTo(g, x) && FoldsTo(h, y)
    requires forall rs :: rs in Leaves(g) ==> DistinctSans(rs)
    ensures CountOf(x, san) == CountOf(y, san)
  {
    forall rs | rs in Leaves(h)
      ensures DistinctSans(rs)
    {
      assert rs in multiset(Leaves(h));
      assert rs in multiset(Leaves(g));
    }
    FoldIsSum(g, x, san);
    FoldIsSum(h, y, san);
    SumReordered(Leaves(g), Leaves(h), san);
  }

  // ----- conservation -----

  function TotalOf(rs: Operand): int {
    if rs == [] then 0 else Total(rs[0].tally) + TotalOf(rs[1..])
  }

  /** The games counted for the moves in a list. */
  function TotalOver(sans: seq<string>, rs: Operand): int {
    if sans == [] then 0 else Total(CountOf(rs, sans[0])) + TotalOver(sans[1..], rs)
  }

  predicate NoRepeats(sans: seq<string>) {
    forall i, j :: 0 <= i < j < |sans| ==> sans[i] != sans[j]
  }

  lemma {:induction false} TotalOverCons(sans: seq<string>, r: ResultSummary, rest: Operand)
    requires NoRepeats(sans)
    ensures TotalOver(sans, [r] + rest) == TotalOver(sans, rest) + if r.san in sans then Total(r.tally) else 0
  {
    if sans != [] {
      assert ([r] + rest)[1..] == rest;
      TotalOverCons(sans[1..], r, rest);
      assert sans[0] !in sans[1..];
    }
  }

  lemma {:induction false} TotalByMoves(sans: seq<string>, rs: Operand)
    requires NoRepeats(sans) && forall i :: 0 <= i < |rs| ==> rs[i].san in sans
    ensures TotalOver(sans, rs) == TotalOf(rs)
  {
    if rs == [] {
      NothingOver(sans);
    } else {
      assert rs == [rs[0]] + rs[1..];
      TotalOverCons(sans, rs[0], rs[1..]);
      TotalByMoves(sans, rs[1..]);
    }
  }

  lemma {:induction false} NothingOver(sans: seq<string>)
    ensures TotalOver(sans, []) == 0
  {
    if sans != [] {
      NothingOver(sans[1..]);
    }
  }

  lemma {:induction false} TotalOverSum(sans: seq<string>, a: Operand, b: Operand, c: Operand)
    requires forall san :: CountOf(c, san) == Plus(CountOf(a, san), CountOf(b, san))
    ensures TotalOver(sans, c) == TotalOver(sans, a) + TotalOver(sans, b)
  {
    if sans != [] {
      TotalOverSum(sans[1..], a, b, c);
    }
  }

  function SansOf(rs: Operand): (sans: seq<string>)
    ensures NoRepeats(sans)
    ensures forall san :: san in sans <==> exists i :: 0 <= i < |rs| && rs[i].san == san
  {
    if rs == [] then []
    else
      var rest := SansOf(rs[1..]);
      assert rs == [rs[0]] + rs[1..];
      if rs[0].san in rest then rest else [rs[0].san] + rest
  }

  /** Merging loses no game and invents none. */
  lemma {:induction false} MergeConservesGames(older: Operand, newer: Operand, final: Operand)
    requires MergesTo(older, newer, final)
    ensures TotalOf(final) == TotalOf(older) + TotalOf(newer)
  {
    var all := older + newer + final;
    var sans := SansOf(all);
    forall i | 0 <= i < |older|
      ensures older[i].san in sans
    {
      assert all[i] == older[i];
    }
    forall i | 0 <= i < |newer|
      ensures newer[i].san in sans
    {
      assert all[|older| + i] == newer[i];
    }
    forall i | 0 <= i < |final|
      ensures final[i].san in sans
    {
      assert all[|older| + |newer| + i] == final[i];
    }
    TotalByMoves(sans, older);
    TotalByMoves(sans, newer);
    TotalByMoves(sans, final);
    TotalOverSum(sans, older, newer, final);
  }
}
