/**
 The room's delivery and the editing protocol together: what a client that only
 watches ends up with, from what the room server does with its messages. Bodies
 of broadcasts are numbers that index the log of accepted messages.
 */
module RoomConvergence {
  import opened MoveTree
  import opened ChapterRows
  import opened Messages
  import opened Dispatch
  import opened Protocol
  import RoomServer
  import RoomDelivery

  /** The server accepts every message of the log as it is, and every move of it is new. */
  predicate Accepted(rows: Rows, log: seq<Message>, cap: nat)
    decreases |log|
  {
    log != [] ==>
      && Authored(log[0], UserOf(log[0])) && NewToAll(rows, log[0])
      && Apply(rows, OpOf(log[0]), cap).Stored?
      && Accepted(Apply(rows, OpOf(log[0]), cap).rows, log[1..], cap)
  }

  /** The session's user that the server put in, if the message names one. */
  function UserOf(m: Message): string {
    if m.TrainingUpdated? then m.username else ""
  }

  function RowsAfter(rows: Rows, log: seq<Message>, cap: nat): Rows
    requires Accepted(rows, log, cap)
    decreases |log|
  {
    if log == [] then rows else RowsAfter(Apply(rows, OpOf(log[0]), cap).rows, log[1..], cap)
  }

  /** Applying the whole log to a tree that agreed when it began. */
  lemma {:induction false} LogAgrees(t: Tree, rows: Rows, log: seq<Message>, cap: nat)
    requires Consistent(rows) && Agrees(t, rows) && Accepted(rows, log, cap)
    ensures Agrees(CatchUp(t, log), RowsAfter(rows, log, cap))
    decreases |log|
  {
    if log != [] {
      var m := log[0];
      ReceiverAgreesIff(t, rows, m, UserOf(m), cap);
      StepConsistent(rows, OpOf(m), cap);
      LogAgrees(Remote(t, m), Apply(rows, OpOf(m), cap).rows, log[1..], cap);
    }
  }

  /** The broadcasts that carry a log. */
  function Carried(n: nat): seq<RoomServer.Message> {
    seq(n, i => RoomServer.Broadcast(i))
  }

  /** The messages of the log that some broadcasts stand for. */
  function Decoded(log: seq<Message>, msgs: seq<RoomServer.Message>): seq<Message> {
    if msgs == [] then []
    else
      (if msgs[0].Broadcast? && 0 <= msgs[0].body < |log| then [log[msgs[0].body]] else []) + Decoded(log, msgs[1..])
  }

  lemma {:induction false} DecodedFrom(log: seq<Message>, n: nat)
    requires n <= |log|
    ensures Decoded(log, Carried(|log|)[n..]) == log[n..]
    decreases |log| - n
  {
    if n < |log| {
      var msgs := Carried(|log|)[n..];
      assert msgs[0] == RoomServer.Broadcast(n) && msgs[1..] == Carried(|log|)[n + 1..];
      DecodedFrom(log, n + 1);
      assert log[n..] == [log[n]] + log[n + 1..];
    }
  }

  lemma {:induction false} NoneWaiting(msgs: seq<RoomServer.Message>, rest: seq<RoomServer.Message>)
    requires RoomDelivery.Broadcasts(rest) == []
    ensures RoomDelivery.Broadcasts(msgs + rest) == RoomDelivery.Broadcasts(msgs)
  {
    RoomDelivery.BroadcastsSplit(msgs, rest);
  }

  /**
   A client that joined with a tree that agreed, only watches, is not scheduled
   for eviction and has no broadcast waiting in its buffer ends with a tree that
   agrees with the rows, when the log is what its room published to it since.
   */
  lemma WatcherConverges(actions: seq<RoomServer.Action>, sub: RoomServer.SubId,
                         t: Tree, rows: Rows, log: seq<Message>, cap: nat)
    requires forall a :: a in actions ==> RoomDelivery.DirectOnly(a)
    requires var s := RoomServer.Run(RoomServer.EMPTY, actions);
             && sub in s.subs && !s.subs[sub].evicting && RoomDelivery.Broadcasts(s.subs[sub].msgs) == []
    requires RoomDelivery.PublishedIn(RoomServer.EMPTY, actions, sub) == Carried(|log|)
    requires Consistent(rows) && Agrees(t, rows) && Accepted(rows, log, cap)
    ensures var written := RoomServer.Run(RoomServer.EMPTY, actions).subs[sub].written;
            Agrees(CatchUp(t, Decoded(log, RoomDelivery.Broadcasts(written))), RowsAfter(rows, log, cap))
  {
    var client := RoomServer.Run(RoomServer.EMPTY, actions).subs[sub];
    RoomDelivery.DeliveredExactly(actions, sub);
    NoneWaiting(client.written, client.msgs);
    DecodedFrom(log, 0);
    assert Carried(|log|)[0..] == Carried(|log|) && log[0..] == log;
    LogAgrees(t, rows, log, cap);
  }
}
