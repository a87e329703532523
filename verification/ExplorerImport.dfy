/**
 Importing batches of games into the explorer (explorer/main.go:113-206), and
 what the stored counts of a position end up being.
 */
module ExplorerImport {
  import opened Wrappers
  import opened Explorer

  /** The key each move is played from; None when some move is illegal. */
  function KeysFrom<P>(rules: Rules<P>, pos: P, moves: seq<string>): Option<seq<string>>
    decreases |moves|
  {
    if moves == [] then Some([])
    else match rules.play(pos, moves[0])
      case None => None
      case Some(next) =>
        match KeysFrom(rules, next, moves[1..])
        case None => None
        case Some(keys) => Some([rules.key(pos)] + keys)
  }

  function KeysOf<P>(rules: Rules<P>, moves: seq<string>): (keys: Option<seq<string>>) {
    KeysFrom(rules, rules.start, moves)
  }

  lemma {:induction false} KeysLength<P>(rules: Rules<P>, pos: P, moves: seq<string>)
    ensures KeysFrom(rules, pos, moves).Some? ==> |KeysFrom(rules, pos, moves).value| == |moves|
    decreases |moves|
  {
    if moves != [] {
      match rules.play(pos, moves[0])
      case None =>
      case Some(next) => KeysLength(rules, next, moves[1..]);
    }
  }

  /** The position after a game's first n moves; None when one of them is illegal. */
  function PositionAfter<P>(rules: Rules<P>, moves: seq<string>, n: nat): Option<P>
    requires n <= |moves|
  {
    if n == 0 then Some(rules.start)
    else match PositionAfter(rules, moves, n - 1)
      case None => None
      case Some(pos) => rules.play(pos, moves[n - 1])
  }

  /** The i-th move can be played in the position that the moves before it lead to. */
  predicate LegalMove<P>(rules: Rules<P>, moves: seq<string>, i: nat)
    requires i < |moves|
  {
    PositionAfter(rules, moves, i).Some? && rules.play(PositionAfter(rules, moves, i).value, moves[i]).Some?
  }

  predicate Legal<P>(rules: Rules<P>, moves: seq<string>) {
    forall i :: 0 <= i < |moves| ==> LegalMove(rules, moves, i)
  }

  /** The i-th move is played from a position with this key. */
  predicate PlayedFrom<P>(rules: Rules<P>, moves: seq<string>, i: nat, key: string) {
    && i < |moves|
    && PositionAfter(rules, moves, i).Some? && rules.key(PositionAfter(rules, moves, i).value) == key
  }

  /** The keys collected from the position after n moves on. */
  lemma {:induction false} KeysFromHere<P>(rules: Rules<P>, moves: seq<string>, n: nat)
    requires n <= |moves| && PositionAfter(rules, moves, n).Some?
    ensures KeysFrom(rules, PositionAfter(rules, moves, n).value, moves[n..]).Some? <==>
            forall i :: n <= i < |moves| ==> LegalMove(rules, moves, i)
    ensures var keys := KeysFrom(rules, PositionAfter(rules, moves, n).value, moves[n..]);
            keys.Some? ==>
              && |keys.value| == |moves| - n
              && forall j :: 0 <= j < |keys.value| ==> PlayedFrom(rules, moves, n + j, keys.value[j])
    decreases |moves| - n
  {
    if n < |moves| {
      var pos := PositionAfter(rules, moves, n).value;
      assert moves[n..][0] == moves[n] && moves[n..][1..] == moves[n + 1..];
      assert LegalMove(rules, moves, n) <==> PositionAfter(rules, moves, n + 1).Some?;
      match PositionAfter(rules, moves, n + 1)
      case None =>
      case Some(next) =>
        KeysFromHere(rules, moves, n + 1);
        var rest := KeysFrom(rules, next, moves[n + 1..]);
        if rest.Some? {
          var keys := [rules.key(pos)] + rest.value;
          forall j | 0 <= j < |keys|
            ensures PlayedFrom(rules, moves, n + j, keys[j])
          {
            if j > 0 {
              assert keys[j] == rest.value[j - 1] && n + j == (n + 1) + (j - 1);
            }
          }
        }
    }
  }

  /** The collected keys are those of the positions that the moves are played from. */
  lemma KeysMeaning<P>(rules: Rules<P>, moves: seq<string>)
    ensures KeysOf(rules, moves).Some? <==> Legal(rules, moves)
    ensures var keys := KeysOf(rules, moves);
            keys.Some? ==>
              && |keys.value| == |moves|
              && forall j :: 0 <= j < |keys.value| ==> PlayedFrom(rules, moves, j, keys.value[j])
  {
    KeysFromHere(rules, moves, 0);
    assert moves[0..] == moves;
  }

  method GameKeys<P>(rules: Rules<P>, moves: seq<string>) returns (keys: Option<seq<string>>)
    ensures keys == KeysOf(rules, moves)
    ensures keys.Some? <==> Legal(rules, moves)
    ensures keys.Some? ==> |keys.value| == |moves|
    ensures keys.Some? ==> forall j :: 0 <= j < |keys.value| ==> PlayedFrom(rules, moves, j, keys.value[j])
  {
    KeysMeaning(rules, moves);
    var pos := rules.start;
    var ks: seq<string> := [];
    KeysLength(rules, pos, moves);
    assert moves[0..] == moves;
    assert KeysOf(rules, moves).Some? ==> [] + KeysOf(rules, moves).value == KeysOf(rules, moves).value;
    for i := 0 to |moves|
      invariant |ks| == i
      invariant KeysOf(rules, moves) ==
        match KeysFrom(rules, pos, moves[i..]) case None => None case Some(rest) => Some(ks + rest)
    {
      assert moves[i..][1..] == moves[i + 1..];
      match rules.play(pos, moves[i]) {
        case None => return None;
        case Some(next) =>
          ghost var rest := KeysFrom(rules, next, moves[i + 1..]);
          assert rest.Some? ==> ks + ([rules.key(pos)] + rest.value) == (ks + [rules.key(pos)]) + rest.value;
          ks := ks + [rules.key(pos)];
          pos := next;
      }
    }
    assert ks + [] == ks;
    keys := Some(ks);
  }

  // ----- what should be counted -----

  /**
   A count after the first n moves of one legal game: one more point for every
   move that plays `san` from the position `key`.
   */
  function Played(
    start: Tally, keys: seq<string>, moves: seq<string>, n: nat, point: Tally, key: string, san: string): Tally
    requires n <= |keys| == |moves|
  {
    if n == 0 then start
    else
      var before := Played(start, keys, moves, n - 1, point, key, san);
      if keys[n - 1] == key && moves[n - 1] == san then Plus(before, point) else before
  }

  lemma {:induction false} PlayedShift(
    start: Tally, keys: seq<string>, moves: seq<string>, n: nat, point: Tally, key: string, san: string)
    requires n <= |keys| == |moves|
    ensures Played(start, keys, moves, n, point, key, san) ==
            Plus(start, Played(ZERO, keys, moves, n, point, key, san))
  {
    if n == 0 {
      PlusZero(start);
    } else {
      PlayedShift(start, keys, moves, n - 1, point, key, san);
      PlusAssociative(start, Played(ZERO, keys, moves, n - 1, point, key, san), point);
    }
  }

  /** A game with an illegal move contributes nothing. */
  function GameTally<P>(rules: Rules<P>, g: Game, key: string, san: string): Tally {
    KeysLength(rules, rules.start, g.moves);
    match KeysOf(rules, g.moves)
    case None => ZERO
    case Some(keys) => Played(ZERO, keys, g.moves, |g.moves|, PointFor(g.winner), key, san)
  }

  function Occurrences<P>(rules: Rules<P>, games: seq<Game>, key: string, san: string): Tally {
    if games == [] then ZERO
    else Plus(GameTally(rules, games[0], key, san), Occurrences(rules, games[1..], key, san))
  }

  lemma {:induction false} OccurrencesSplit<P>(rules: Rules<P>, a: seq<Game>, b: seq<Game>, key: string, san: string)
    ensures Occurrences(rules, a + b, key, san) ==
            Plus(Occurrences(rules, a, key, san), Occurrences(rules, b, key, san))
  {
    if a == [] {
      assert a + b == b;
      PlusZero(Occurrences(rules, b, key, san));
    } else {
      OccurrencesSplit(rules, a[1..], b, key, san);
      ConsAppend(a, b);
      PlusAssociative(GameTally(rules, a[0], key, san), Occurrences(rules, a[1..], key, san),
                      Occurrences(rules, b, key, san));
    }
  }

  // ----- importHandler -----

  type Aggregate = map<string, map<string, Tally>>

  function CountIn(agg: Aggregate, key: string, san: string): Tally {
    if key in agg then Lookup(agg[key], san) else ZERO
  }

  /** The counters after a legal game's first n moves have each bumped one. */
  function AfterMoves(before: Aggregate, keys: seq<string>, moves: seq<string>, point: Tally, n: nat): Aggregate
    requires n <= |keys| == |moves|
  {
    if n == 0 then before
    else Bumped(AfterMoves(before, keys, moves, point, n - 1), keys[n - 1], moves[n - 1], point)
  }

  /** The inner loop of the handler. */
  method CountGame(before: Aggregate, keys: seq<string>, g: Game) returns (agg: Aggregate)
    requires |keys| == |g.moves|
    ensures agg == AfterMoves(before, keys, g.moves, PointFor(g.winner), |g.moves|)
  {
    agg := before;
    for i := 0 to |g.moves|
      invariant agg == AfterMoves(before, keys, g.moves, PointFor(g.winner), i)
    {
      agg := Bump(agg, keys[i], g.moves[i], g.winner);
    }
  }

  method Bump(agg: Aggregate, key: string, move: string, winner: Winner) returns (after: Aggregate)
    ensures after == Bumped(agg, key, move, PointFor(winner))
  {
    var moves := if key in agg then agg[key] else map[];
    var summary := if move in moves then moves[move] else ZERO;
    match winner {
      case White => summary := summary.(white := summary.white + 1);
      case Black => summary := summary.(black := summary.black + 1);
      case NoColor => summary := summary.(draws := summary.draws + 1);
    }
    after := agg[key := moves[move := summary]];
  }

  function MovesAt(agg: Aggregate, k: string): map<string, Tally> {
    if k in agg then agg[k] else map[]
  }

  /** One counter bumped; its position's map and the counter itself are created on first use. */
  function Bumped(agg: Aggregate, k: string, s: string, point: Tally): Aggregate {
    agg[k := MovesAt(agg, k)[s := Plus(Lookup(MovesAt(agg, k), s), point)]]
  }

  lemma CountInSet(agg: Aggregate, k: string, moves: map<string, Tally>, key: string, san: string)
    ensures CountIn(agg[k := moves], key, san) == if key == k then Lookup(moves, san) else CountIn(agg, key, san)
  {
  }

  lemma BumpOther(agg: Aggregate, k: string, s: string, point: Tally, key: string, san: string)
    requires key != k
    ensures CountIn(Bumped(agg, k, s, point), key, san) == CountIn(agg, key, san)
  {
    CountInSet(agg, k, MovesAt(agg, k)[s := Plus(Lookup(MovesAt(agg, k), s), point)], key, san);
  }

  lemma BumpSame(agg: Aggregate, k: string, s: string, point: Tally, san: string)
    ensures CountIn(Bumped(agg, k, s, point), k, san) ==
            if san == s then Plus(CountIn(agg, k, s), point) else CountIn(agg, k, san)
  {
    LookupSet(MovesAt(agg, k), s, Plus(Lookup(MovesAt(agg, k), s), point), san);
  }

  lemma BumpOne(agg: Aggregate, k: string, s: string, point: Tally, key: string, san: string)
    ensures k == key && s == san ==> CountIn(Bumped(agg, k, s, point), key, san) == Plus(CountIn(agg, key, san), point)
    ensures k != key || s != san ==> CountIn(Bumped(agg, k, s, point), key, san) == CountIn(agg, key, san)
  {
    if k == key {
      BumpSame(agg, k, s, point, san);
    } else {
      BumpOther(agg, k, s, point, key, san);
    }
  }

  lemma AfterMovesStep(
    before: Aggregate, keys: seq<string>, moves: seq<string>, point: Tally, n: nat, key: string, san: string)
    requires 0 < n <= |keys| == |moves|
    ensures var earlier := CountIn(AfterMoves(before, keys, moves, point, n - 1), key, san);
            CountIn(AfterMoves(before, keys, moves, point, n), key, san) ==
            if keys[n - 1] == key && moves[n - 1] == san then Plus(earlier, point) else earlier
  {
    BumpOne(AfterMoves(before, keys, moves, point, n - 1), keys[n - 1], moves[n - 1], point, key, san);
  }

  /** A game's moves raise each counter by its occurrences in the game. */
  lemma {:induction false} AfterMovesCounts(
    before: Aggregate, keys: seq<string>, moves: seq<string>, point: Tally, n: nat, key: string, san: string)
    requires n <= |keys| == |moves|
    ensures CountIn(AfterMoves(before, keys, moves, point, n), key, san) ==
            Played(CountIn(before, key, san), keys, moves, n, point, key, san)
  {
    if n > 0 {
      AfterMovesCounts(before, keys, moves, point, n - 1, key, san);
      AfterMovesStep(before, keys, moves, point, n, key, san);
    }
  }

  /** The games a batch keeps; the rest are skipped whole. */
  function LegalGames<P>(rules: Rules<P>, games: seq<Game>): nat {
    if games == [] then 0
    else (if KeysOf(rules, games[0].moves).Some? then 1 else 0) + LegalGames(rules, games[1..])
  }

  /** The number of games in which every move can be played. */
  lemma {:induction false} LegalGamesCounted<P>(rules: Rules<P>, games: seq<Game>)
    ensures LegalGames(rules, games) == |set n: nat | n < |games| && Legal(rules, games[n].moves)|
    decreases |games|
  {
    var legal := set n: nat | n < |games| && Legal(rules, games[n].moves);
    if games == [] {
      assert legal == {};
    } else {
      var k := |games| - 1;
      var before := set n: nat | n < k && Legal(rules, games[..k][n].moves);
      assert games == games[..k] + [games[k]];
      LegalSnoc(rules, games[..k], games[k]);
      LegalGamesCounted(rules, games[..k]);
      KeysMeaning(rules, games[k].moves);
      assert legal == before + if Legal(rules, games[k].moves) then {k} else {};
    }
  }

  lemma {:induction false} LegalSnoc<P>(rules: Rules<P>, games: seq<Game>, g: Game)
    ensures LegalGames(rules, games + [g]) ==
            LegalGames(rules, games) + if KeysOf(rules, g.moves).Some? then 1 else 0
  {
    if games == [] {
      assert games + [g] == [g];
      assert [g][1..] == [];
    } else {
      ConsAppend(games, [g]);
      LegalSnoc(rules, games[1..], g);
    }
  }

  lemma OccurrencesSnoc<P>(rules: Rules<P>, games: seq<Game>, g: Game, key: string, san: string)
    ensures Occurrences(rules, games + [g], key, san) ==
            Plus(Occurrences(rules, games, key, san), GameTally(rules, g, key, san))
  {
    OccurrencesSplit(rules, games, [g], key, san);
    assert [g][1..] == [];
    PlusZero(GameTally(rules, g, key, san));
  }

  /** The counters after one more game. */
  lemma GameAdded<P>(rules: Rules<P>, games: seq<Game>, g: Game, before: Aggregate, after: Aggregate)
    requires forall key, san :: CountIn(before, key, san) == Occurrences(rules, games, key, san)
    requires match KeysOf(rules, g.moves)
             case None => after == before
             case Some(keys) =>
               |keys| == |g.moves| && after == AfterMoves(before, keys, g.moves, PointFor(g.winner), |g.moves|)
    ensures forall key, san :: CountIn(after, key, san) == Occurrences(rules, games + [g], key, san)
  {
    forall key, san
      ensures CountIn(after, key, san) == Occurrences(rules, games + [g], key, san)
    {
      OccurrencesSnoc(rules, games, g, key, san);
      match KeysOf(rules, g.moves)
      case None => PlusZero(CountIn(before, key, san));
      case Some(keys) =>
        AfterMovesCounts(before, keys, g.moves, PointFor(g.winner), |g.moves|, key, san);
        PlayedShift(CountIn(before, key, san), keys, g.moves, |g.moves|, PointFor(g.winner), key, san);
    }
  }

  method Aggregated<P>(rules: Rules<P>, games: seq<Game>) returns (agg: Aggregate, imported: nat, skipped: nat)
    ensures forall key, san :: CountIn(agg, key, san) == Occurrences(rules, games, key, san)
    ensures imported == LegalGames(rules, games) && imported + skipped == |games|
  {
    agg, imported, skipped := map[], 0, 0;
    for n := 0 to |games|
      invariant forall key, san :: CountIn(agg, key, san) == Occurrences(rules, games[..n], key, san)
      invariant imported == LegalGames(rules, games[..n]) && imported + skipped == n
    {
      var g := games[n];
      assert games[..n + 1] == games[..n] + [g];
      LegalSnoc(rules, games[..n], g);
      var keys := GameKeys(rules, g.moves);
      ghost var before := agg;
      if keys.None? {
        skipped := skipped + 1;
      } else {
        imported := imported + 1;
        agg := CountGame(agg, keys.value, g);
      }
      GameAdded(rules, games[..n], g, before, agg);
    }
    assert games[..|games|] == games;
  }

  /** A batch's operand for a key says exactly what its games contribute there. */
  ghost predicate OperandFor<P>(rules: Rules<P>, games: seq<Game>, key: string, operand: Option<Operand>) {
    match operand
    case Some(rs) => DistinctSans(rs) && forall san :: CountOf(rs, san) == Occurrences(rules, games, key, san)
    case None => forall san :: Occurrences(rules, games, key, san) == ZERO
  }

  function OperandAt(batch: map<string, Operand>, key: string): Option<Operand> {
    if key in batch then Some(batch[key]) else None
  }

  /** `importHandler`: one merge operand for every position the batch's legal games pass through. */
  method ImportBatch<P>(rules: Rules<P>, games: seq<Game>)
    returns (batch: map<string, Operand>, imported: nat, skipped: nat)
    ensures forall key :: OperandFor(rules, games, key, OperandAt(batch, key))
    ensures imported == LegalGames(rules, games) && imported + skipped == |games|
  {
    var agg;
    agg, imported, skipped := Aggregated(rules, games);
    batch := map[];
    var todo := agg.Keys;
    while todo != {}
      invariant todo <= agg.Keys && batch.Keys == agg.Keys - todo
      invariant forall key :: key in batch ==> OperandFor(rules, games, key, Some(batch[key]))
      decreases |todo|
    {
      var key :| key in todo;
      var rs := ListResults(agg[key]);
      forall san
        ensures CountOf(rs, san) == Occurrences(rules, games, key, san)
      {
        assert CountIn(agg, key, san) == Occurrences(rules, games, key, san);
      }
      batch := batch[key := rs];
      todo := todo - {key};
    }
    forall key | key !in batch
      ensures OperandFor(rules, games, key, None)
    {
      forall san
        ensures Occurrences(rules, games, key, san) == ZERO
      {
        assert CountIn(agg, key, san) == Occurrences(rules, games, key, san);
      }
    }
  }

  // ----- the stored answer -----

  function AllGames(batches: seq<seq<Game>>): seq<Game> {
    if batches == [] then [] else batches[0] + AllGames(batches[1..])
  }

  function Present(operands: seq<Option<Operand>>): seq<Operand> {
    if operands == [] then []
    else (match operands[0] case Some(rs) => [rs] case None => []) + Present(operands[1..])
  }

  lemma PresentCons(operands: seq<Option<Operand>>, san: string)
    requires operands != []
    ensures SumOf(Present(operands), san) ==
            Plus(match operands[0] case Some(rs) => CountOf(rs, san) case None => ZERO,
                 SumOf(Present(operands[1..]), san))
  {
    var rest := Present(operands[1..]);
    match operands[0]
    case None =>
      assert Present(operands) == rest;
      PlusZero(SumOf(rest, san));
    case Some(rs) =>
      assert Present(operands) == [rs] + rest;
      assert ([rs] + rest)[1..] == rest;
  }

  lemma {:induction false} PresentSum<P>(
    rules: Rules<P>, batches: seq<seq<Game>>, operands: seq<Option<Operand>>, key: string, san: string)
    requires |operands| == |batches|
    requires forall n :: 0 <= n < |batches| ==> OperandFor(rules, batches[n], key, operands[n])
    ensures forall rs :: rs in Present(operands) ==> DistinctSans(rs)
    ensures SumOf(Present(operands), san) == Occurrences(rules, AllGames(batches), key, san)
  {
    if batches != [] {
      PresentSum(rules, batches[1..], operands[1..], key, san);
      OccurrencesSplit(rules, batches[0], AllGames(batches[1..]), key, san);
      assert OperandFor(rules, batches[0], key, operands[0]);
      PresentCons(operands, san);
    }
  }

  // ----- the counts, game by game and move by move -----

  /** The game counts for this result, and its i-th move plays `san` from the position `key`. */
  predicate Hit<P>(rules: Rules<P>, g: Game, w: Winner, key: string, san: string, i: nat) {
    g.winner == w && Legal(rules, g.moves) && PlayedFrom(rules, g.moves, i, key) && g.moves[i] == san
  }

  function HitsUpTo<P>(rules: Rules<P>, g: Game, w: Winner, key: string, san: string, n: nat): set<nat> {
    set i: nat | i < n && Hit(rules, g, w, key, san, i)
  }

  /** The games and moves that make up a count. */
  function Hits<P>(rules: Rules<P>, games: seq<Game>, w: Winner, key: string, san: string): set<(nat, nat)> {
    set n: nat, i: nat | n < |games| && i < |games[n].moves| && Hit(rules, games[n], w, key, san, i) :: (n, i)
  }

  function Part(t: Tally, w: Winner): int {
    match w case White => t.white case Black => t.black case NoColor => t.draws
  }

  lemma HitByKey<P>(rules: Rules<P>, g: Game, keys: seq<string>, i: nat, w: Winner, key: string, san: string)
    requires KeysOf(rules, g.moves) == Some(keys) && i < |keys| == |g.moves|
    ensures Hit(rules, g, w, key, san, i) <==> g.winner == w && keys[i] == key && g.moves[i] == san
  {
    KeysMeaning(rules, g.moves);
    assert PlayedFrom(rules, g.moves, i, keys[i]);
  }

  lemma HitsStep<P>(rules: Rules<P>, g: Game, w: Winner, key: string, san: string, n: nat)
    ensures HitsUpTo(rules, g, w, key, san, n + 1) ==
            HitsUpTo(rules, g, w, key, san, n) + if Hit(rules, g, w, key, san, n) then {n} else {}
  {
  }

  lemma PartPlus(t: Tally, r: Winner, w: Winner)
    ensures Part(Plus(t, PointFor(r)), w) == Part(t, w) + if r == w then 1 else 0
  {
  }

  lemma {:induction false} PlayedHits<P>(
    rules: Rules<P>, g: Game, keys: seq<string>, n: nat, point: Tally, w: Winner, key: string, san: string)
    requires KeysOf(rules, g.moves) == Some(keys) && n <= |keys| == |g.moves| && point == PointFor(g.winner)
    ensures Part(Played(ZERO, keys, g.moves, n, point, key, san), w) == |HitsUpTo(rules, g, w, key, san, n)|
  {
    if n == 0 {
      assert HitsUpTo(rules, g, w, key, san, n) == {};
    } else {
      var before, i := Played(ZERO, keys, g.moves, n - 1, point, key, san), n - 1;
      PlayedHits(rules, g, keys, i, point, w, key, san);
      assert |HitsUpTo(rules, g, w, key, san, n)| == |HitsUpTo(rules, g, w, key, san, i)| +
        if g.winner == w && keys[i] == key && g.moves[i] == san then 1 else 0 by {
        HitByKey(rules, g, keys, i, w, key, san);
        HitsStep(rules, g, w, key, san, i);
      }
      PartPlus(before, g.winner, w);
    }
  }

  lemma GameHits<P>(rules: Rules<P>, g: Game, w: Winner, key: string, san: string)
    ensures Part(GameTally(rules, g, key, san), w) == |HitsUpTo(rules, g, w, key, san, |g.moves|)|
  {
    KeysMeaning(rules, g.moves);
    match KeysOf(rules, g.moves)
    case None => assert HitsUpTo(rules, g, w, key, san, |g.moves|) == {};
    case Some(keys) => PlayedHits(rules, g, keys, |g.moves|, PointFor(g.winner), w, key, san);
  }

  function Paired(n: nat, s: set<nat>): set<(nat, nat)> {
    set i: nat | i in s :: (n, i)
  }

  lemma {:induction false} PairedSize(n: nat, s: set<nat>)
    ensures |Paired(n, s)| == |s|
  {
    if s == {} {
      assert Paired(n, s) == {};
    } else {
      var x :| x in s;
      PairedSize(n, s - {x});
      assert Paired(n, s) == Paired(n, s - {x}) + {(n, x)};
    }
  }

  lemma HitsSnoc<P>(rules: Rules<P>, games: seq<Game>, g: Game, w: Winner, key: string, san: string)
    ensures var last := HitsUpTo(rules, g, w, key, san, |g.moves|);
            |Hits(rules, games + [g], w, key, san)| == |Hits(rules, games, w, key, san)| + |last|
  {
    var last := HitsUpTo(rules, g, w, key, san, |g.moves|);
    var before, all := Hits(rules, games, w, key, san), Hits(rules, games + [g], w, key, san);
    forall n: nat, i: nat
      ensures (n, i) in all <==> (n, i) in before || (n, i) in Paired(|games|, last)
    {
      if n < |games| {
        assert (games + [g])[n] == games[n];
      }
    }
    assert all == before + Paired(|games|, last);
    PairedSize(|games|, last);
  }

  /** Each counter is the number of its games and moves. */
  lemma {:induction false} OccurrencesAreHits<P>(
    rules: Rules<P>, games: seq<Game>, w: Winner, key: string, san: string)
    ensures Part(Occurrences(rules, games, key, san), w) == |Hits(rules, games, w, key, san)|
    decreases |games|
  {
    if games == [] {
      assert Hits(rules, games, w, key, san) == {};
    } else {
      var before, g := games[..|games| - 1], games[|games| - 1];
      assert games == before + [g];
      OccurrencesSnoc(rules, before, g, key, san);
      OccurrencesAreHits(rules, before, w, key, san);
      GameHits(rules, g, w, key, san);
      HitsSnoc(rules, before, g, w, key, san);
    }
  }

  /**
   After any batches, folded in any grouping and any order, the stored counts
   of a position and a move are the occurrences in all fully legal games: per
   result, the number of games that ended so and of moves in them that play the
   move from that position.
   */
  lemma {:induction false} StoredCounts<P>(
    rules: Rules<P>, batches: seq<seq<Game>>, operands: seq<Option<Operand>>, key: string,
    g: Grouping, stored: Operand, san: string)
    requires |operands| == |batches|
    requires forall n :: 0 <= n < |batches| ==> OperandFor(rules, batches[n], key, operands[n])
    requires multiset(Leaves(g)) == multiset(Present(operands)) && FoldsTo(g, stored)
    ensures DistinctSans(stored) && CountOf(stored, san) == Occurrences(rules, AllGames(batches), key, san)
    ensures CountOf(stored, san).white == |Hits(rules, AllGames(batches), White, key, san)|
    ensures CountOf(stored, san).black == |Hits(rules, AllGames(batches), Black, key, san)|
    ensures CountOf(stored, san).draws == |Hits(rules, AllGames(batches), NoColor, key, san)|
  {
    OccurrencesAreHits(rules, AllGames(batches), White, key, san);
    OccurrencesAreHits(rules, AllGames(batches), Black, key, san);
    OccurrencesAreHits(rules, AllGames(batches), NoColor, key, san);
    PresentSum(rules, batches, operands, key, san);
    forall rs | rs in Leaves(g)
      ensures DistinctSans(rs)
    {
      assert rs in multiset(Leaves(g));
      assert rs in multiset(Present(operands));
    }
    FoldIsSum(g, stored, san);
    SumReordered(Leaves(g), Present(operands), san);
  }

  /** Splitting the same games into other batches changes no answer. */
  lemma {:induction false} ResplitChangesNothing<P>(
    rules: Rules<P>, key: string, san: string,
    batches: seq<seq<Game>>, operands: seq<Option<Operand>>, g: Grouping, stored: Operand,
    batches': seq<seq<Game>>, operands': seq<Option<Operand>>, g': Grouping, stored': Operand)
    requires |operands| == |batches| && |operands'| == |batches'|
    requires forall n :: 0 <= n < |batches| ==> OperandFor(rules, batches[n], key, operands[n])
    requires forall n :: 0 <= n < |batches'| ==> OperandFor(rules, batches'[n], key, operands'[n])
    requires multiset(Leaves(g)) == multiset(Present(operands)) && FoldsTo(g, stored)
    requires multiset(Leaves(g')) == multiset(Present(operands')) && FoldsTo(g', stored')
    requires AllGames(batches) == AllGames(batches')
    ensures CountOf(stored, san) == CountOf(stored', san)
  {
    StoredCounts(rules, batches, operands, key, g, stored, san);
    StoredCounts(rules, batches', operands', key, g', stored', san);
  }
}
