/**
 One chapter's rows in the moves and training_cards tables
 (backend/schema.sql, backend/internal/store/chapters.go) and the effect each
 store operation has on them. ChapterStore.dfy holds the store itself.
 */
module ChapterRows {
  import opened Wrappers
  import opened Paths
  import opened MoveTree
  import opened PathTable
  import opened LikePattern

  /** Cards are grouped by path and then by user, as `loadCards` groups them. */
  type Cards = map<string, map<string, Card>>

  datatype Rows = Rows(moves: Table, cards: Cards)

  datatype StoreError = PathNotFound | MoveLimit | ChapterLimit | ConstraintViolation

  datatype Outcome = Stored(rows: Rows) | Refused(error: StoreError)

  /** The moves table has no training column. */
  function RowOf(move: MoveData): MoveData {
    move.(training := map[])
  }

  /** The root placeholder at path "" is not a move. */
  function MoveCount(moves: Table): nat {
    |moves.Keys - {""}|
  }

  predicate PathExists(rows: Rows, path: string) {
    path != "" && path in rows.moves
  }

  function AddMove(rows: Rows, path: string, move: MoveData, cap: nat): Outcome {
    if path != "" && !PathExists(rows, path) then Refused(PathNotFound)
    else if !PathExists(rows, path + move.id) && MoveCount(rows.moves) >= cap then Refused(MoveLimit)
    else Stored(Upsert(rows, path, move))
  }

  function Upsert(rows: Rows, path: string, move: MoveData): Rows {
    rows.(moves := rows.moves[path + move.id := RowOf(move)])
  }

  function UpdateTraining(rows: Rows, path: string, user: string, card: Card): Outcome {
    if path !in rows.moves then Refused(PathNotFound)
    else Stored(rows.(cards := rows.cards[path := CardsAt(rows.cards, path)[user := card]]))
  }

  function CardsAt(cards: Cards, path: string): map<string, Card> {
    if path in cards then cards[path] else map[]
  }

  /** Deleting a move row deletes its cards too (ON DELETE CASCADE). */
  function DeleteNode(rows: Rows, path: string): Outcome {
    if !PathExists(rows, path) then
      if path == "" then Stored(rows) else Refused(PathNotFound)
    else Stored(Rows(
      map q | q in rows.moves && !DeleteMatches(path, q) :: rows.moves[q],
      map q | q in rows.cards && !DeleteMatches(path, q) :: rows.cards[q]))
  }

  function SetComment(rows: Rows, path: string, comment: string): Outcome {
    if path !in rows.moves then Refused(PathNotFound)
    else Stored(rows.(moves := rows.moves[path := rows.moves[path].(comment := comment)]))
  }

  /** What the server sends to a reader: each move with its users' cards. */
  function Joined(rows: Rows): Table {
    map p | p in rows.moves :: rows.moves[p].(training := CardsAt(rows.cards, p))
  }

  /** `mergeCardsIntoMoves`: rows are overwritten while iterating over the cards. */
  method MergeCardsIntoMoves(rows: Rows) returns (merged: Table)
    requires forall p :: p in rows.moves ==> rows.moves[p].training == map[]
    ensures merged == Joined(rows)
  {
    merged := rows.moves;
    var todo := rows.cards.Keys;
    while todo != {}
      invariant todo <= rows.cards.Keys
      invariant merged.Keys == rows.moves.Keys
      invariant forall p :: p in merged ==>
        merged[p] == if p in todo then rows.moves[p] else Joined(rows)[p]
      decreases |todo|
    {
      var path :| path in todo;
      if path in merged {
        merged := merged[path := merged[path].(training := rows.cards[path])];
      }
      todo := todo - {path};
    }
  }

  // ----- what every operation keeps -----

  /** Parents present, ids at the end of paths, cards only on existing moves. */
  predicate Consistent(rows: Rows) {
    && PrefixClosed(rows.moves) && IdConsistent(rows.moves)
    && (forall p :: p in rows.moves ==> rows.moves[p].training == map[])
    && rows.cards.Keys <= rows.moves.Keys
  }

  lemma JoinedTable(rows: Rows)
    requires Consistent(rows)
    ensures PrefixClosed(Joined(rows)) && IdConsistent(Joined(rows))
  {
  }

  datatype StoreOp =
    | Add(path: string, move: MoveData)
    | Train(path: string, user: string, card: Card)
    | Delete(path: string)
    | Comment(path: string, text: string)

  function Apply(rows: Rows, op: StoreOp, cap: nat): Outcome {
    match op
    case Add(path, move) => AddMove(rows, path, move, cap)
    case Train(path, user, card) => UpdateTraining(rows, path, user, card)
    case Delete(path) => DeleteNode(rows, path)
    case Comment(path, text) => SetComment(rows, path, text)
  }

  /** A refused operation leaves the rows alone. */
  function After(rows: Rows, op: StoreOp, cap: nat): Rows {
    match Apply(rows, op, cap) case Stored(rows') => rows' case Refused(_) => rows
  }

  /** Adds carry the two-character ids the clients generate. */
  predicate ProperOp(op: StoreOp) {
    op.Add? ==> |op.move.id| == 2
  }

  lemma AddedConsistent(rows: Rows, path: string, move: MoveData)
    requires Consistent(rows) && path in rows.moves && |move.id| == 2
    ensures Consistent(Upsert(rows, path, move))
  {
    InitLastOf(path, move.id);
    var moves' := Upsert(rows, path, move).moves;
    forall p | p in moves' && p != ""
      ensures |p| >= 2 && Init(p) in moves' && moves'[p].id == Last(p)
    {
    }
  }

  /**
   An accepted add keeps the table well shaped exactly when the move's id has
   two characters, or when it overwrites the root row with an empty id.
   */
  lemma AddKeepsShapeIff(rows: Rows, path: string, move: MoveData, cap: nat)
    requires Consistent(rows) && AddMove(rows, path, move, cap).Stored?
    ensures Consistent(AddMove(rows, path, move, cap).rows) <==> |move.id| == 2 || path + move.id == ""
  {
    var rows' := AddMove(rows, path, move, cap).rows;
    var p := path + move.id;
    PrefixClosedWhole(rows.moves, path);
    assert p in rows'.moves && rows'.moves[p].id == move.id;
    if |move.id| == 2 {
      AddedConsistent(rows, path, move);
    } else if p != "" {
      if path == "" {
        assert p == move.id;
        if |p| > 2 { assert Last(p) != move.id; }
      } else {
        assert |Last(p)| == 2;
      }
    } else {
      assert forall q :: q in rows'.moves <==> q in rows.moves;
    }
  }

  lemma PrefixOfInit(p: string, q: string)
    ensures p <= Init(q) ==> p <= q
  {
  }

  lemma DeletedConsistent(rows: Rows, path: string)
    requires Consistent(rows) && PathExists(rows, path)
    ensures Consistent(DeleteNode(rows, path).rows)
    ensures forall q :: q in DeleteNode(rows, path).rows.moves <==> q in rows.moves && !(path <= q)
    ensures forall q :: q in DeleteNode(rows, path).rows.cards <==> q in rows.cards && !(path <= q)
  {
    var rows' := DeleteNode(rows, path).rows;
    forall q
      ensures DeleteMatches(path, q) <==> path <= q
    {
      DeleteMatchesPrefix(path, q);
    }
    forall q | q in rows'.moves && q != ""
      ensures |q| >= 2 && Init(q) in rows'.moves
    {
      PrefixOfInit(path, q);
    }
  }

  lemma {:induction false} StepConsistent(rows: Rows, op: StoreOp, cap: nat)
    requires Consistent(rows) && ProperOp(op)
    ensures Consistent(After(rows, op, cap))
  {
    match op
    case Add(path, move) =>
      if Apply(rows, op, cap).Stored? {
        AddedConsistent(rows, path, move);
      }
    case Delete(path) =>
      if PathExists(rows, path) {
        DeletedConsistent(rows, path);
      }
    case Train(_, _, _) =>
    case Comment(_, _) =>
  }

  // ----- what each operation leaves at every path -----

  function CardOf(rows: Rows, q: string, user: string): Option<Card> {
    if q in rows.cards && user in rows.cards[q] then Some(rows.cards[q][user]) else None
  }

  /**
   An add is accepted when its parent is there, the root always counting as
   there, and when it writes over a move or the chapter is below its cap. It
   writes one row, without cards, and leaves the cards alone.
   */
  lemma AddEffect(rows: Rows, path: string, move: MoveData, cap: nat, q: string)
    ensures var outcome, p := AddMove(rows, path, move, cap), path + move.id;
            && (outcome == Refused(PathNotFound) <==> path != "" && path !in rows.moves)
            && (outcome == Refused(MoveLimit) <==>
                 (path == "" || path in rows.moves) && (p == "" || p !in rows.moves)
                 && |rows.moves.Keys - {""}| >= cap)
            && (outcome.Refused? ==> outcome.error in {PathNotFound, MoveLimit})
            && (outcome.Stored? ==>
                 && outcome.rows.cards == rows.cards
                 && Find(outcome.rows.moves, q) ==
                    if q == p then Some(move.(training := map[])) else Find(rows.moves, q))
  {
  }

  /** A move that the chapter has already can be sent again even when the chapter is full. */
  lemma ResentAtCap(rows: Rows, path: string, move: MoveData, cap: nat)
    requires Consistent(rows) && |move.id| == 2 && path + move.id in rows.moves
    ensures AddMove(rows, path, move, cap).Stored? && MoveCount(AddMove(rows, path, move, cap).rows.moves) ==
                                                      MoveCount(rows.moves)
  {
    InitLastOf(path, move.id);
    UpsertCount(rows.moves, path + move.id, RowOf(move));
  }

  /** A card needs its row, replaces that user's card there, and touches nothing else. */
  lemma TrainEffect(rows: Rows, path: string, user: string, card: Card, q: string, other: string)
    ensures var outcome := UpdateTraining(rows, path, user, card);
            if path in rows.moves then
              && outcome.Stored? && outcome.rows.moves == rows.moves
              && CardOf(outcome.rows, q, other) ==
                 if q == path && other == user then Some(card) else CardOf(rows, q, other)
            else outcome == Refused(PathNotFound)
  {
  }

  /** A delete takes the rows and cards whose path starts with the deleted one, and no others. */
  lemma DeleteEffect(rows: Rows, path: string, q: string, user: string)
    ensures var outcome := DeleteNode(rows, path);
            if path == "" then outcome == Stored(rows)
            else if path in rows.moves then
              && outcome.Stored?
              && Find(outcome.rows.moves, q) == (if path <= q then None else Find(rows.moves, q))
              && CardOf(outcome.rows, q, user) == (if path <= q then None else CardOf(rows, q, user))
            else outcome == Refused(PathNotFound)
  {
    DeleteMatchesPrefix(path, q);
  }

  /** A comment needs its row and replaces that row's comment only. */
  lemma CommentEffect(rows: Rows, path: string, text: string, q: string)
    ensures var outcome := SetComment(rows, path, text);
            if path in rows.moves then
              && outcome.Stored? && outcome.rows.cards == rows.cards
              && Find(outcome.rows.moves, q) ==
                 if q == path then Some(rows.moves[path].(comment := text)) else Find(rows.moves, q)
            else outcome == Refused(PathNotFound)
  {
  }

  /** A reader gets each row with the cards of its users. */
  lemma JoinedEffect(rows: Rows, q: string, user: string)
    ensures q in Joined(rows) <==> q in rows.moves
    ensures q in rows.moves ==>
      && Joined(rows)[q].(training := rows.moves[q].training) == rows.moves[q]
      && (user in Joined(rows)[q].training <==> CardOf(rows, q, user).Some?)
      && (user in Joined(rows)[q].training ==> Some(Joined(rows)[q].training[user]) == CardOf(rows, q, user))
  {
  }

  lemma SubsetCount(a: Table, b: Table)
    requires a.Keys <= b.Keys
    ensures MoveCount(a) <= MoveCount(b)
  {
    SubsetSize(a.Keys - {""}, b.Keys - {""});
  }

  lemma {:induction false} SubsetSize(a: set<string>, b: set<string>)
    requires a <= b
    ensures |a| <= |b|
  {
    if a != {} {
      var x :| x in a;
      SubsetSize(a - {x}, b - {x});
    }
  }

  lemma GrowthWithout<T>(a: set<T>, x: T, out: T)
    ensures |(a + {x}) - {out}| == |a - {out}| + if x == out || x in a then 0 else 1
  {
    if x == out || x in a {
      assert (a + {x}) - {out} == a - {out};
    } else {
      assert (a + {x}) - {out} == (a - {out}) + {x};
    }
  }

  /** Writing one path adds at most one move, and none when it was there already. */
  lemma UpsertCount(m: Table, p: string, d: MoveData)
    ensures MoveCount(m[p := d]) == MoveCount(m) + if p == "" || p in m then 0 else 1
  {
    assert m[p := d].Keys == m.Keys + {p};
    GrowthWithout(m.Keys, p, "");
  }

  lemma {:induction false} StepWithinCap(rows: Rows, op: StoreOp, cap: nat)
    requires MoveCount(rows.moves) <= cap
    ensures MoveCount(After(rows, op, cap).moves) <= cap
  {
    match op
    case Add(path, move) =>
      UpsertCount(rows.moves, path + move.id, RowOf(move));
    case Delete(path) =>
      OnlyFewer(rows, op, cap);
    case Comment(path, text) =>
      OnlyFewer(rows, op, cap);
    case Train(_, _, _) =>
  }

  /** Operations other than adds never bring a path into the table. */
  lemma OnlyFewer(rows: Rows, op: StoreOp, cap: nat)
    requires !op.Add?
    ensures After(rows, op, cap).moves.Keys <= rows.moves.Keys
    ensures MoveCount(After(rows, op, cap).moves) <= MoveCount(rows.moves)
  {
    SubsetCount(After(rows, op, cap).moves, rows.moves);
  }

  function Run(rows: Rows, ops: seq<StoreOp>, cap: nat): Rows
    decreases |ops|
  {
    if ops == [] then rows else Run(After(rows, ops[0], cap), ops[1..], cap)
  }

  /** A new chapter's rows: the flattened tree, without any cards. */
  function Created(root: Tree): Rows {
    Rows(map p | p in Flatten(root) :: RowOf(Flatten(root)[p]), map[])
  }

  lemma CreatedConsistent(root: Tree)
    requires WellFormed(root)
    ensures Consistent(Created(root))
  {
    FlattenPrefixClosed(root);
  }

  /** A move as it is stored: everything but its cards, which have a table of their own. */
  function CardsCleared(d: Option<MoveData>): Option<MoveData> {
    match d case None => None case Some(move) => Some(move.(training := map[]))
  }

  /** At every path the new rows hold what the tree shows there, cards aside, and they hold nothing else. */
  lemma CreatedRows(root: Tree, q: string)
    requires WellFormed(root)
    ensures Find(Created(root).moves, q) == CardsCleared(View(root, q))
    ensures Created(root).cards == map[]
  {
    FlattenView(root, q);
  }

  /**
   Every table reached from a chapter creation by store operations that run one
   at a time is prefix-closed, has its cards on existing moves, and respects
   the cap.
   */
  lemma {:induction false} ReachableConsistent(rows: Rows, ops: seq<StoreOp>, cap: nat)
    requires Consistent(rows) && MoveCount(rows.moves) <= cap
    requires forall op :: op in ops ==> ProperOp(op)
    ensures Consistent(Run(rows, ops, cap)) && MoveCount(Run(rows, ops, cap).moves) <= cap
    decreases |ops|
  {
    if ops != [] {
      StepConsistent(rows, ops[0], cap);
      StepWithinCap(rows, ops[0], cap);
      ReachableConsistent(After(rows, ops[0], cap), ops[1..], cap);
    }
  }
}
