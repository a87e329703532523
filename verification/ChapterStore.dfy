/**
 The chapter tables of the database (backend/internal/store/chapters.go,
 backend/schema.sql): every chapter's rows, and the operations of `DB` that
 change them. The effect of each operation on one chapter is in ChapterRows.dfy.
 */
module ChapterStore {
  import opened Wrappers
  import opened MoveTree
  import opened PathTable
  import opened ChapterRows

  const MAX_MOVES_PER_CHAPTER := 5000
  const MAX_CHAPTERS_PER_USER := 20

  datatype Chapter = Chapter(owner: string, name: string, trainAs: string, rows: Rows)

  /** A stray multiplier below 1 counts as 1. */
  function Clamped(multiplier: int): nat {
    if multiplier < 1 then 1 else multiplier
  }

  /** A user without a row has the stock multiplier. */
  function OwnerMultiplier(users: map<string, int>, owner: string): nat {
    if owner in users then Clamped(users[owner]) else 1
  }

  function MoveCap(users: map<string, int>, owner: string): nat {
    MAX_MOVES_PER_CHAPTER * OwnerMultiplier(users, owner)
  }

  function ChapterCap(users: map<string, int>, owner: string): nat {
    MAX_CHAPTERS_PER_USER * OwnerMultiplier(users, owner)
  }

  /** The stock limits are 5000 moves and 20 chapters; a multiplier from two up raises both, and none lowers them. */
  lemma Caps(users: map<string, int>, owner: string)
    ensures owner in users && users[owner] >= 1 ==>
      MoveCap(users, owner) == 5000 * users[owner] && ChapterCap(users, owner) == 20 * users[owner]
    ensures owner !in users || users[owner] < 1 ==> MoveCap(users, owner) == 5000 && ChapterCap(users, owner) == 20
  {
  }

  function OwnedBy(chapters: map<string, Chapter>, owner: string): set<string> {
    set id | id in chapters && chapters[id].owner == owner
  }

  /** A chapter's rows are consistent and within its owner's cap. */
  predicate SoundChapter(users: map<string, int>, c: Chapter) {
    Consistent(c.rows) && MoveCount(c.rows.moves) <= MoveCap(users, c.owner)
  }

  predicate AllSound(users: map<string, int>, chapters: map<string, Chapter>) {
    forall id :: id in chapters ==> SoundChapter(users, chapters[id])
  }

  ghost predicate NoneOverCap(users: map<string, int>, chapters: map<string, Chapter>) {
    forall owner :: |OwnedBy(chapters, owner)| <= ChapterCap(users, owner)
  }

  /** Every chapter is sound, and no owner has too many. */
  ghost predicate Sound(users: map<string, int>, chapters: map<string, Chapter>) {
    AllSound(users, chapters) && NoneOverCap(users, chapters)
  }

  lemma InsertWithinCap(users: map<string, int>, chapters: map<string, Chapter>, id: string, c: Chapter)
    requires NoneOverCap(users, chapters)
    requires id !in chapters && |OwnedBy(chapters, c.owner)| < ChapterCap(users, c.owner)
    ensures NoneOverCap(users, chapters[id := c])
  {
    forall owner
      ensures |OwnedBy(chapters[id := c], owner)| <= ChapterCap(users, owner)
    {
      OwnedInsert(chapters, id, c, owner);
    }
  }

  lemma OwnedInsert(chapters: map<string, Chapter>, id: string, c: Chapter, owner: string)
    requires id !in chapters
    ensures |OwnedBy(chapters[id := c], owner)| == |OwnedBy(chapters, owner)| + if owner == c.owner then 1 else 0
  {
    if owner == c.owner {
      assert OwnedBy(chapters[id := c], owner) == OwnedBy(chapters, owner) + {id};
    } else {
      assert OwnedBy(chapters[id := c], owner) == OwnedBy(chapters, owner);
    }
  }

  lemma InsertSound(users: map<string, int>, chapters: map<string, Chapter>, id: string, c: Chapter)
    requires Sound(users, chapters) && SoundChapter(users, c)
    requires id !in chapters && |OwnedBy(chapters, c.owner)| < ChapterCap(users, c.owner)
    ensures Sound(users, chapters[id := c])
  {
    InsertWithinCap(users, chapters, id, c);
  }

  /** Why creating a chapter is refused: the limits first, then the keys. */
  function CreateError(users: map<string, int>, chapters: map<string, Chapter>,
                       id: string, owner: string, root: Tree): Option<StoreError>
  {
    if |OwnedBy(chapters, owner)| >= ChapterCap(users, owner) then Some(ChapterLimit)
    else if MoveCount(Flatten(root)) > MoveCap(users, owner) then Some(MoveLimit)
    else if owner !in users || id in chapters then Some(ConstraintViolation)
    else None
  }

  /** The chapter made from a well-formed tree is sound when its moves are within the cap. */
  lemma CreatedSound(users: map<string, int>, c: Chapter, root: Tree)
    requires WellFormed(root) && c.rows == Created(root)
    requires MoveCount(Flatten(root)) <= MoveCap(users, c.owner)
    ensures SoundChapter(users, c)
  {
    CreatedConsistent(root);
    assert Created(root).moves.Keys == Flatten(root).Keys;
  }

  lemma ReplaceWithinCap(users: map<string, int>, chapters: map<string, Chapter>, id: string, c: Chapter)
    requires NoneOverCap(users, chapters) && id in chapters && chapters[id].owner == c.owner
    ensures NoneOverCap(users, chapters[id := c])
  {
    forall owner
      ensures |OwnedBy(chapters[id := c], owner)| <= ChapterCap(users, owner)
    {
      assert OwnedBy(chapters[id := c], owner) == OwnedBy(chapters, owner);
    }
  }

  lemma OperatedSound(users: map<string, int>, c: Chapter, op: StoreOp)
    requires SoundChapter(users, c) && ProperOp(op)
    ensures SoundChapter(users, c.(rows := After(c.rows, op, MoveCap(users, c.owner))))
  {
    StepConsistent(c.rows, op, MoveCap(users, c.owner));
    StepWithinCap(c.rows, op, MoveCap(users, c.owner));
  }

  class ChapterStore {
    /** Quota multipliers of the users that have a row. */
    const users: map<string, int>
    var chapters: map<string, Chapter>

    constructor (users: map<string, int>)
      ensures this.users == users && chapters == map[] && Sound(users, chapters)
    {
      this.users, chapters := users, map[];
      new;
      assert forall owner :: OwnedBy(map[], owner) == {};
    }

    method CreateChapter(id: string, owner: string, name: string, trainAs: string, root: Tree)
      returns (error: Option<StoreError>)
      modifies this
      ensures error == CreateError(users, old(chapters), id, owner, root)
      ensures error.None? <==>
        && owner in users && id !in old(chapters)
        && |OwnedBy(old(chapters), owner)| < ChapterCap(users, owner)
        && MoveCount(Flatten(root)) <= MoveCap(users, owner)
      ensures error == Some(ChapterLimit) <==> |OwnedBy(old(chapters), owner)| >= ChapterCap(users, owner)
      ensures error == Some(MoveLimit) <==>
        && |OwnedBy(old(chapters), owner)| < ChapterCap(users, owner)
        && MoveCount(Flatten(root)) > MoveCap(users, owner)
      ensures chapters == if error.Some? then old(chapters)
                          else old(chapters)[id := Chapter(owner, name, trainAs, Created(root))]
      ensures error.None? && WellFormed(root) ==>
        && id in chapters && chapters[id].rows.cards == map[]
        && forall q :: Find(chapters[id].rows.moves, q) == CardsCleared(View(root, q))
      ensures old(Sound(users, chapters)) && WellFormed(root) ==> Sound(users, chapters)
    {
      if |OwnedBy(chapters, owner)| >= ChapterCap(users, owner) {
        return Some(ChapterLimit);
      }
      var moves := FlattenTree(root);
      if MoveCount(moves) > MoveCap(users, owner) {
        return Some(MoveLimit);
      }
      if owner !in users || id in chapters {
        return Some(ConstraintViolation);
      }
      var c := Chapter(owner, name, trainAs, Created(root));
      if Sound(users, chapters) && WellFormed(root) {
        CreatedSound(users, c, root);
        InsertSound(users, chapters, id, c);
      }
      chapters := chapters[id := c];
      error := None;
      if WellFormed(root) {
        forall q
          ensures Find(c.rows.moves, q) == CardsCleared(View(root, q))
        {
          CreatedRows(root, q);
        }
      }
    }

    method Perform(id: string, op: StoreOp) returns (error: Option<StoreError>)
      requires id in chapters
      modifies this
      ensures Performed(old(chapters), op, id, MoveCap(users, old(chapters)[id].owner), chapters, error)
      ensures old(Sound(users, chapters)) && ProperOp(op) ==> Sound(users, chapters)
    {
      if Sound(users, chapters) && ProperOp(op) {
        OperatedSound(users, chapters[id], op);
        ReplaceWithinCap(users, chapters, id,
          chapters[id].(rows := After(chapters[id].rows, op, MoveCap(users, chapters[id].owner))));
      }
      match Apply(chapters[id].rows, op, MoveCap(users, chapters[id].owner))
      case Refused(e) => error := Some(e);
      case Stored(rows) =>
        chapters := chapters[id := chapters[id].(rows := rows)];
        error := None;
    }

    /**
     `AddMoveToChapter`. For a chapter that does not exist, a deeper parent is
     not found, and a move under the root violates the foreign key.
     */
    method AddMoveToChapter(id: string, path: string, move: MoveData) returns (error: Option<StoreError>)
      modifies this
      ensures id !in old(chapters) ==>
        chapters == old(chapters) && error == Some(if path == "" then ConstraintViolation else PathNotFound)
      ensures id in old(chapters) ==>
        Performed(old(chapters), Add(path, move), id, MoveCap(users, old(chapters)[id].owner), chapters, error)
      ensures old(Sound(users, chapters)) && |move.id| == 2 ==> Sound(users, chapters)
    {
      if id !in chapters {
        return Some(if path == "" then ConstraintViolation else PathNotFound);
      }
      error := Perform(id, Add(path, move));
    }

    method UpdateTrainingState(id: string, path: string, user: string, card: Card) returns (error: Option<StoreError>)
      modifies this
      ensures id !in old(chapters) ==> chapters == old(chapters) && error == Some(PathNotFound)
      ensures id in old(chapters) ==>
        Performed(old(chapters), Train(path, user, card), id, MoveCap(users, old(chapters)[id].owner), chapters, error)
      ensures old(Sound(users, chapters)) ==> Sound(users, chapters)
    {
      if id !in chapters {
        return Some(PathNotFound);
      }
      error := Perform(id, Train(path, user, card));
    }

    /** `DeleteNodeFromChapter`: the root path is a deliberate no-op. */
    method DeleteNodeFromChapter(id: string, path: string) returns (error: Option<StoreError>)
      modifies this
      ensures id !in old(chapters) ==>
        chapters == old(chapters) && error == if path == "" then None else Some(PathNotFound)
      ensures id in old(chapters) ==>
        Performed(old(chapters), Delete(path), id, MoveCap(users, old(chapters)[id].owner), chapters, error)
      ensures old(Sound(users, chapters)) ==> Sound(users, chapters)
    {
      if id !in chapters {
        return if path == "" then None else Some(PathNotFound);
      }
      error := Perform(id, Delete(path));
    }

    method SetComment(id: string, path: string, comment: string) returns (error: Option<StoreError>)
      modifies this
      ensures id !in old(chapters) ==> chapters == old(chapters) && error == Some(PathNotFound)
      ensures id in old(chapters) ==>
        Performed(old(chapters), Comment(path, comment), id, MoveCap(users, old(chapters)[id].owner), chapters, error)
      ensures old(Sound(users, chapters)) ==> Sound(users, chapters)
    {
      if id !in chapters {
        return Some(PathNotFound);
      }
      error := Perform(id, Comment(path, comment));
    }
  }

  /** One chapter's rows became what the operation makes of them; every other chapter is untouched. */
  predicate Performed(before: map<string, Chapter>, op: StoreOp, id: string, cap: nat,
                      after: map<string, Chapter>, error: Option<StoreError>)
    requires id in before
  {
    match Apply(before[id].rows, op, cap)
    case Stored(rows) => error == None && after == before[id := before[id].(rows := rows)]
    case Refused(e) => error == Some(e) && after == before
  }
}
