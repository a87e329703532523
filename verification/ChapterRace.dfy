/**
 The move cap is checked before the write and outside a transaction
 (backend/internal/store/chapters.go:221-262), so concurrent adds interleave.
 This module bounds the overshoot and shows what else the race can do.
 */
module ChapterRace {
  import opened Paths
  import opened MoveTree
  import opened PathTable
  import opened ChapterRows

  /** The table, and the adds that passed their checks but have not written yet. */
  datatype Racing = Racing(rows: Rows, inFlight: seq<(string, MoveData)>)

  /** Every add is a check and a later write; the other operations are single statements. */
  datatype Action = Check(path: string, move: MoveData) | Write(i: nat) | Other(op: StoreOp)

  function Step(s: Racing, a: Action, cap: nat): Racing {
    match a
    case Check(path, move) =>
      if AddMove(s.rows, path, move, cap).Stored?
      then s.(inFlight := s.inFlight + [(path, move)]) else s
    case Write(i) =>
      if i < |s.inFlight|
      then Racing(Upsert(s.rows, s.inFlight[i].0, s.inFlight[i].1), s.inFlight[..i] + s.inFlight[i + 1..])
      else s
    case Other(op) => if op.Add? then s else s.(rows := After(s.rows, op, cap))
  }

  function Run(s: Racing, actions: seq<Action>, cap: nat): Racing
    decreases |actions|
  {
    if actions == [] then s else Run(Step(s, actions[0], cap), actions[1..], cap)
  }

  /** At most k adds are between their check and their write at any moment. */
  predicate AtMostInFlight(s: Racing, actions: seq<Action>, cap: nat, k: nat)
    decreases |actions|
  {
    |s.inFlight| <= k && (actions != [] ==> AtMostInFlight(Step(s, actions[0], cap), actions[1..], cap, k))
  }

  /** The moves there are, and the ones the pending writes will bring back or create. */
  function Promised(s: Racing): set<string> {
    (s.rows.moves.Keys + set i | 0 <= i < |s.inFlight| :: s.inFlight[i].0 + s.inFlight[i].1.id) - {""}
  }

  lemma PromisedSize(s: Racing)
    ensures MoveCount(s.rows.moves) <= |Promised(s)| <= MoveCount(s.rows.moves) + |s.inFlight|
  {
    var moves := s.rows.moves.Keys - {""};
    var pending := set i | 0 <= i < |s.inFlight| :: s.inFlight[i].0 + s.inFlight[i].1.id;
    SubsetSize(moves, Promised(s));
    ImageSize(s.inFlight);
    SubsetSize(Promised(s), moves + pending);
    assert |moves + pending| <= |moves| + |pending|;
  }

  lemma {:induction false} ImageSize(adds: seq<(string, MoveData)>)
    ensures |set i | 0 <= i < |adds| :: adds[i].0 + adds[i].1.id| <= |adds|
  {
    if adds != [] {
      var n := |adds| - 1;
      ImageSize(adds[..n]);
      var s := set i | 0 <= i < |adds| :: adds[i].0 + adds[i].1.id;
      var s' := set i | 0 <= i < n :: adds[..n][i].0 + adds[..n][i].1.id;
      assert s <= s' + {adds[n].0 + adds[n].1.id};
      SubsetSize(s, s' + {adds[n].0 + adds[n].1.id});
    }
  }

  lemma CheckPromised(s: Racing, path: string, move: MoveData, cap: nat)
    requires AddMove(s.rows, path, move, cap).Stored?
    ensures var s' := s.(inFlight := s.inFlight + [(path, move)]);
            |Promised(s')| <= |Promised(s)| || |Promised(s')| <= cap + |s.inFlight|
  {
    var s' := s.(inFlight := s.inFlight + [(path, move)]);
    var p := path + move.id;
    if p == "" || p in s.rows.moves {
      assert Promised(s') <= Promised(s);
      SubsetSize(Promised(s'), Promised(s));
    } else {
      PromisedSize(s');
    }
  }

  /** Only a check of a new move promises more, and it sees the count below the cap. */
  lemma StepPromised(s: Racing, a: Action, cap: nat, k: nat)
    requires |Promised(s)| <= cap + k - 1 && |Step(s, a, cap).inFlight| <= k
    ensures |Promised(Step(s, a, cap))| <= cap + k - 1
  {
    var s' := Step(s, a, cap);
    match a
    case Check(path, move) =>
      if s' != s {
        CheckPromised(s, path, move, cap);
      }
    case Write(i) =>
      assert Promised(s') <= Promised(s);
      SubsetSize(Promised(s'), Promised(s));
    case Other(op) =>
      if !op.Add? {
        OnlyFewer(s.rows, op, cap);
      }
      assert Promised(s') <= Promised(s);
      SubsetSize(Promised(s'), Promised(s));
  }

  /** With up to k adds between check and write, the table never exceeds cap + k - 1 moves. */
  lemma {:induction false} OvershootBounded(s: Racing, actions: seq<Action>, cap: nat, k: nat)
    requires |Promised(s)| <= cap + k - 1 && AtMostInFlight(s, actions, cap, k)
    ensures |Promised(Run(s, actions, cap))| <= cap + k - 1
    ensures MoveCount(Run(s, actions, cap).rows.moves) <= cap + k - 1
    decreases |actions|
  {
    if actions == [] {
      PromisedSize(s);
    } else {
      StepPromised(s, actions[0], cap, k);
      OvershootBounded(Step(s, actions[0], cap), actions[1..], cap, k);
    }
  }

  /** From a table within its cap, with nothing in flight. */
  lemma SoftCap(rows: Rows, actions: seq<Action>, cap: nat, k: nat)
    requires MoveCount(rows.moves) <= cap && k >= 1
    requires AtMostInFlight(Racing(rows, []), actions, cap, k)
    ensures MoveCount(Run(Racing(rows, []), actions, cap).rows.moves) <= cap + k - 1
  {
    PromisedSize(Racing(rows, []));
    OvershootBounded(Racing(rows, []), actions, cap, k);
  }

  // ----- the bound is reached -----

  function Checks(moves: seq<MoveData>): seq<Action> {
    seq(|moves|, i requires 0 <= i < |moves| => Check("", moves[i]))
  }

  function Writes(k: nat): seq<Action> {
    seq(k, i => Write(0))
  }

  function Pending(moves: seq<MoveData>): seq<(string, MoveData)> {
    seq(|moves|, i requires 0 <= i < |moves| => ("", moves[i]))
  }

  /** Moves that the table does not have, all different. */
  predicate Fresh(m: Table, moves: seq<MoveData>) {
    && (forall i :: 0 <= i < |moves| ==> moves[i].id != "" && moves[i].id !in m)
    && (forall i, j :: 0 <= i < j < |moves| ==> moves[i].id != moves[j].id)
  }

  /** While nothing is written, every check sees the same room below the cap. */
  lemma {:induction false} AllChecked(s: Racing, moves: seq<MoveData>, rest: seq<Action>, cap: nat, k: nat)
    requires MoveCount(s.rows.moves) < cap && |s.inFlight| + |moves| <= k
    ensures var checked := s.(inFlight := s.inFlight + Pending(moves));
            && Run(s, Checks(moves) + rest, cap) == Run(checked, rest, cap)
            && (AtMostInFlight(checked, rest, cap, k) ==> AtMostInFlight(s, Checks(moves) + rest, cap, k))
    decreases |moves|
  {
    var actions := Checks(moves) + rest;
    if moves == [] {
      assert actions == rest;
      assert s.inFlight + Pending(moves) == s.inFlight;
    } else {
      var next := Step(s, Check("", moves[0]), cap);
      assert next == s.(inFlight := s.inFlight + [("", moves[0])]);
      assert actions[0] == Check("", moves[0]) && actions[1..] == Checks(moves[1..]) + rest;
      AllChecked(next, moves[1..], rest, cap, k);
      assert next.inFlight + Pending(moves[1..]) == s.inFlight + Pending(moves);
    }
  }

  lemma {:induction false} AllWritten(rows: Rows, moves: seq<MoveData>, cap: nat, k: nat)
    requires Fresh(rows.moves, moves) && |moves| <= k
    ensures MoveCount(Run(Racing(rows, Pending(moves)), Writes(|moves|), cap).rows.moves) ==
            MoveCount(rows.moves) + |moves|
    ensures AtMostInFlight(Racing(rows, Pending(moves)), Writes(|moves|), cap, k)
    decreases |moves|
  {
    if moves != [] {
      var s, actions := Racing(rows, Pending(moves)), Writes(|moves|);
      var rows' := Upsert(rows, "", moves[0]);
      assert "" + moves[0].id == moves[0].id;
      UpsertCount(rows.moves, moves[0].id, RowOf(moves[0]));
      assert s.inFlight[..0] + s.inFlight[1..] == Pending(moves[1..]);
      assert Step(s, Write(0), cap) == Racing(rows', Pending(moves[1..]));
      assert actions[0] == Write(0) && actions[1..] == Writes(|moves| - 1);
      AllWritten(rows', moves[1..], cap, k);
    }
  }

  /** One move below the cap, k adds that are all checked before they are written end at cap + k - 1. */
  lemma SoftCapReached(rows: Rows, moves: seq<MoveData>, cap: nat)
    requires MoveCount(rows.moves) + 1 == cap && Fresh(rows.moves, moves)
    ensures var s, actions, k := Racing(rows, []), Checks(moves) + Writes(|moves|), |moves|;
            && AtMostInFlight(s, actions, cap, k)
            && MoveCount(Run(s, actions, cap).rows.moves) == cap + k - 1
  {
    AllChecked(Racing(rows, []), moves, Writes(|moves|), cap, |moves|);
    assert [] + Pending(moves) == Pending(moves);
    AllWritten(rows, moves, cap, |moves|);
  }

  // ----- when a pending write is safe -----

  /** A write that was checked keeps the table's shape exactly when its parent is still there. */
  lemma WriteConsistentIff(s: Racing, i: nat, cap: nat)
    requires Consistent(s.rows) && i < |s.inFlight| && |s.inFlight[i].1.id| == 2
    ensures Consistent(Step(s, Write(i), cap).rows) <==> s.inFlight[i].0 in s.rows.moves
  {
    var (path, move) := s.inFlight[i];
    if path in s.rows.moves {
      AddedConsistent(s.rows, path, move);
    } else {
      InitLastOf(path, move.id);
      var moves' := Upsert(s.rows, path, move).moves;
      assert path + move.id in moves' && path !in moves';
    }
  }

  /** The table is in shape, and every pending add still has its parent. */
  predicate Anchored(s: Racing) {
    && Consistent(s.rows)
    && forall i :: 0 <= i < |s.inFlight| ==> s.inFlight[i].0 in s.rows.moves && |s.inFlight[i].1.id| == 2
  }

  /** A delete of a move at or above the parent of a pending add. */
  predicate Undercuts(s: Racing, a: Action) {
    && a.Other? && a.op.Delete? && PathExists(s.rows, a.op.path)
    && exists i :: 0 <= i < |s.inFlight| && a.op.path <= s.inFlight[i].0
  }

  predicate ProperAction(a: Action) {
    a.Check? ==> |a.move.id| == 2
  }

  lemma DeleteAnchoredIff(s: Racing, path: string, cap: nat)
    requires Anchored(s)
    ensures Anchored(s.(rows := After(s.rows, Delete(path), cap))) <==> !Undercuts(s, Other(Delete(path)))
  {
    var rows' := After(s.rows, Delete(path), cap);
    StepConsistent(s.rows, Delete(path), cap);
    if PathExists(s.rows, path) {
      DeletedConsistent(s.rows, path);
      forall i | 0 <= i < |s.inFlight|
        ensures s.inFlight[i].0 in rows'.moves <==> !(path <= s.inFlight[i].0)
      {
        assert s.inFlight[i].0 in s.rows.moves;
      }
    }
  }

  lemma WriteAnchored(s: Racing, i: nat, cap: nat)
    requires Anchored(s) && i < |s.inFlight|
    ensures Anchored(Step(s, Write(i), cap))
  {
    WriteConsistentIff(s, i, cap);
  }

  /** Only such a delete takes a parent away from a pending add, and it always does. */
  lemma StepAnchoredIff(s: Racing, a: Action, cap: nat)
    requires Anchored(s) && ProperAction(a)
    ensures Anchored(Step(s, a, cap)) <==> !Undercuts(s, a)
  {
    match a
    case Check(path, move) =>
    case Write(i) =>
      if i < |s.inFlight| {
        WriteAnchored(s, i, cap);
      }
    case Other(op) =>
      if op.Delete? {
        DeleteAnchoredIff(s, op.path, cap);
      } else if !op.Add? {
        StepConsistent(s.rows, op, cap);
        assert After(s.rows, op, cap).moves.Keys == s.rows.moves.Keys;
      }
  }

  predicate NeverUndercut(s: Racing, actions: seq<Action>, cap: nat)
    decreases |actions|
  {
    actions != [] ==>
      && ProperAction(actions[0]) && !Undercuts(s, actions[0])
      && NeverUndercut(Step(s, actions[0], cap), actions[1..], cap)
  }

  /** Interleaved adds keep the shape that sequential ones keep, as long as no delete cuts below a pending one. */
  lemma {:induction false} RaceConsistent(s: Racing, actions: seq<Action>, cap: nat)
    requires Anchored(s) && NeverUndercut(s, actions, cap)
    ensures Anchored(Run(s, actions, cap))
    decreases |actions|
  {
    if actions != [] {
      StepAnchoredIff(s, actions[0], cap);
      RaceConsistent(Step(s, actions[0], cap), actions[1..], cap);
    }
  }

  /**
   The same race can leave an orphan: a parent checked by an add and deleted
   before the write takes the table out of the shape that sequential runs keep.
   */
  lemma RaceLeavesOrphan(rows: Rows, path: string, move: MoveData, cap: nat)
    requires Consistent(rows) && PathExists(rows, path) && |move.id| == 2
    requires AddMove(rows, path, move, cap).Stored?
    ensures var end := Run(Racing(rows, []), [Check(path, move), Other(Delete(path)), Write(0)], cap);
            path + move.id in end.rows.moves && path !in end.rows.moves && !Consistent(end.rows)
  {
    var s0 := Racing(rows, []);
    var actions := [Check(path, move), Other(Delete(path)), Write(0)];
    var s1 := Step(s0, actions[0], cap);
    assert s1 == Racing(rows, [(path, move)]);
    var s2 := Step(s1, actions[1], cap);
    DeletedConsistent(rows, path);
    assert s2.inFlight == [(path, move)] && path !in s2.rows.moves;
    var s3 := Step(s2, actions[2], cap);
    assert path + move.id != path;
    InitLastOf(path, move.id);
    var rest := actions[1..];
    assert Run(s2, rest[1..], cap) == Run(s3, rest[1..][1..], cap) == s3;
    assert Run(s0, actions, cap) == Run(s1, rest, cap) == Run(s2, rest[1..], cap);
  }
}
