/**
 What the server does with one chapter message (backend/internal/ws/dispatch.go):
 correct the envelope, apply it to the store, then fan it out to the others or
 tell the sender alone to reload. Every sender may edit here.
 */
module Dispatch {
  import opened ChapterRows
  import opened Messages

  datatype Reply = Broadcast(rows: Rows, message: Message) | ReloadSender

  datatype Delivery = Op(message: Message) | Reload

  /** Comments are cut to the limit, and cards are filed under the session's own user. */
  function Canonical(m: Message, username: string): Message {
    match m
    case CommentSet(path, text) => CommentSet(path, Truncated(text))
    case TrainingUpdated(path, _, card) => TrainingUpdated(path, username, card)
    case _ => m
  }

  /**
   The corrected message is of the same kind and about the same path. Moves and
   deletes are left as they are, a comment keeps its first thousand characters,
   and a card gets the name of the session's user, whatever the sender wrote.
   */
  lemma CanonicalForm(m: Message, username: string)
    ensures var event := Canonical(m, username);
            && event.path == m.path
            && (m.MoveCreated? || m.NodeDeleted? ==> event == m)
            && (m.CommentSet? ==>
                 && event.CommentSet? && event.text <= m.text
                 && |event.text| == if |m.text| > 1000 then 1000 else |m.text|)
            && (m.TrainingUpdated? ==> event == m.(username := username))
  {
  }

  function OpOf(m: Message): StoreOp {
    match m
    case MoveCreated(path, move) => StoreOp.Add(path, move)
    case NodeDeleted(path) => StoreOp.Delete(path)
    case CommentSet(path, text) => StoreOp.Comment(path, text)
    case TrainingUpdated(path, username, card) => StoreOp.Train(path, username, card)
  }

  function Handle(rows: Rows, m: Message, username: string, cap: nat): Reply {
    match Apply(rows, OpOf(Canonical(m, username)), cap)
    case Stored(rows') => Broadcast(rows', Canonical(m, username))
    case Refused(_) => ReloadSender
  }

  /** The server's side of one room: the chapter's rows and a queue per member. */
  class Hub {
    var rows: Rows
    var queues: seq<seq<Delivery>>
    const usernames: seq<string>
    const cap: nat

    constructor (rows: Rows, usernames: seq<string>, cap: nat)
      ensures this.rows == rows && this.usernames == usernames && this.cap == cap
      ensures queues == seq(|usernames|, i => [])
    {
      this.rows, this.usernames, this.cap := rows, usernames, cap;
      queues := seq(|usernames|, i => []);
    }

    method HandleMessage(sender: nat, m: Message)
      requires sender < |usernames| && |queues| == |usernames|
      modifies this
      ensures |queues| == |usernames|
      ensures match Handle(old(rows), m, usernames[sender], cap)
              case Broadcast(rows', event) =>
                && rows == rows'
                && forall j :: 0 <= j < |queues| ==>
                     queues[j] == if j == sender then old(queues[j]) else old(queues[j]) + [Op(event)]
              case ReloadSender =>
                rows == old(rows) && queues == old(queues)[sender := old(queues[sender]) + [Reload]]
    {
      var event := m;
      if event.CommentSet? && |event.text| > MAX_COMMENT_CHARS {
        event := event.(text := event.text[..MAX_COMMENT_CHARS]);
      }
      if event.TrainingUpdated? {
        event := event.(username := usernames[sender]);
      }
      var outcome;
      match event {
        case MoveCreated(path, move) => outcome := AddMove(rows, path, move, cap);
        case CommentSet(path, text) => outcome := SetComment(rows, path, text);
        case TrainingUpdated(path, username, card) => outcome := UpdateTraining(rows, path, username, card);
        case NodeDeleted(path) => outcome := DeleteNode(rows, path);
      }
      if outcome.Stored? {
        rows := outcome.rows;
        PublishRoom(event, sender);
      } else {
        queues := queues[sender := queues[sender] + [Reload]];
      }
    }

    method PublishRoom(event: Message, sender: nat)
      modifies this`queues
      ensures |queues| == |old(queues)|
      ensures forall j :: 0 <= j < |queues| ==>
        queues[j] == if j == sender then old(queues[j]) else old(queues[j]) + [Op(event)]
    {
      for i := 0 to |queues|
        invariant |queues| == |old(queues)|
        invariant forall j :: 0 <= j < |queues| ==>
          queues[j] == if j == sender || j >= i then old(queues[j]) else old(queues[j]) + [Op(event)]
      {
        if i != sender {
          queues := queues[i := queues[i] + [Op(event)]];
        }
      }
    }
  }
}
