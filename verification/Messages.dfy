/** The chapter messages on the socket (backend/internal/domain/events.go), without the chapter id. */
module Messages {
  import opened MoveTree

  datatype Message =
    | MoveCreated(path: string, move: MoveData)
    | NodeDeleted(path: string)
    | CommentSet(path: string, text: string)
    | TrainingUpdated(path: string, username: string, card: Card)

  /** The same limit on both sides, counted in characters. */
  const MAX_COMMENT_CHARS := 1000

  function Truncated(text: string): string {
    if |text| > MAX_COMMENT_CHARS then text[..MAX_COMMENT_CHARS] else text
  }
}
