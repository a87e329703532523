# A chess repertoire kept twice: model and proofs

The system stores a chess repertoire twice. The Go server keeps every chapter as
a flat table from path to move. The browser keeps it as a mutable tree, and a
path is the string of two-character move ids that leads from the root to a node.
A small WebSocket protocol keeps the two in step while several people edit and
train. This project models that pair, the protocol between them, and the
self-contained algorithms around them, and proves what they promise.

How the modules follow the program:

- `Paths`, `MoveTree`, `HeapTree`: paths, the browser's tree as a value, and the
  same look-ups and edits on linked objects that change in place.
- `PathTable`, `RowsOnce`, `BuildTree`: the server's table, what the tree that
  `buildTree` assembles looks like, and the loop itself on objects.
- `LikePattern`, `ChapterRows`, `ChapterRace`, `ChapterStore`: the SQL operations
  of one chapter, the same operations interleaved, and the store of all chapters.
- `Messages`, `Dispatch`, `ClientChapter`, `HeldNodes`, `TrainerStore`, `Protocol`:
  the messages, the server's step, the browser's counters, the node objects that
  its store holds on to, its store actions, and the runs of server and clients
  together.
- `TrainableSearch`, `TreeMerge`, `MoveList`, `MoveListPage`: the search for the
  next move to train, merging two trees, and the layout of the move list.
- `Explorer`, `ExplorerImport`: opening statistics, their import and the merge
  operator that the key-value store may apply in any grouping.
- `TokenBucket`, `Limiter`: rate limiting and its garbage collection.
- `RoomServer`, `RoomDelivery`, `RoomConvergence`: rooms, message buffers, what
  arrives, and what a watching client ends up with.
- `CsvReader`, `PromiseThrottle`: the RFC 4180 reader and the promise throttler.

The main results:

- Clients and server agree throughout a run exactly when each of its steps is
  harmless: an edit is refused, or it lands at the node that its message names and
  is new to whoever gets it, and a client that connects again holds what the server
  holds (`Protocol.RunSyncedIff`). An editor whose selection is in step makes
  harmless edits (`Protocol.RunInStep`). After such a run a client whose queue is
  empty and that has not been lost holds exactly the server's rows joined with their
  cards (`Protocol.Convergence`, and `RoomConvergence.WatcherConverges` on top of
  the room's own buffers).
- `buildTree` and `flattenTree` are inverse, up to sibling order, whatever order
  map iteration and the unstable sort choose (`PathTable.RebuildFlatten`,
  `PathTable.FlattenRebuild`, `BuildTree.BuildTree`).
- A delete on the server removes exactly the rows below the path, for all paths,
  wildcards included (`LikePattern.DeleteMatchesPrefix`).
- The incremental counters equal the full recount after every run of sensible
  actions, and for each action the exact condition is known, for a delete in any
  tree (`ClientChapter.CountersAgree` and the lemmas ending in `Iff`).
- The search returns the first admitted candidate of its order, or null when
  there is none (`TrainableSearch.ComputeNextTrainableNode`).
- Stored statistics are the numbers of games and moves in all legal games that play
  the move from the position, however the games were batched and the operands folded
  (`ExplorerImport.StoredCounts`).
- Evicting idle rate-limit buckets changes no answer exactly when an idle period
  refills a bucket (`Limiter.GcInvisibleIff`), and each key keeps its own rate
  between any two moments of a run (`Limiter.KeyRateBounded`).
- A refused call changes no later answer, and as long as a bucket does not run over,
  every token earned is paid out or still there (`TokenBucket.RefusalsAreFree`,
  `TokenBucket.RunBalance`).
- Every subscriber that is not being evicted has received exactly what was
  published to it (`RoomDelivery.DeliveredExactly`), and one is evicted exactly when
  a broadcast or a reply finds sixteen messages waiting (`RoomDelivery.DroppedIff`).
- The move list shows every move once, with the number, the comment and the
  parentheses or line that its place in the tree calls for
  (`MoveList.EveryMoveOnce`, `MoveListPage.PageRight`).

Where the code differs from what its comments or callers expect, the model
follows the code and says what follows from it:

- `nodeAtPath` always returns a node, so the `if (!node)` guards of the store
  actions never fire. A delete of a path that is not there takes the nearest
  ancestor's whole subtree off the counters (`ClientChapter.DeletedExactIff`) and
  removes another move exactly when that ancestor has a child with the same last
  id (`ClientChapter.DriftedDeleteIff`). Where siblings share an id, the counters
  lose only the first one and the tree loses all (`ClientChapter.PresentDeleteIff`).
- A node that the store holds and another client has cut out of the tree is still
  worked on and counted (`HeldNodes.LooseExactIff`). If the path has been created
  again meanwhile, the server accepts the card and the sender's tree misses it
  (`Protocol.CardedAgreesIff`).
- `deleteLine` on a line that the selection is not in leaves the deleted path
  selected while the selected node is its parent (`TrainerStore.InStepAfterDelete`).
  The next move is sent under a path that the server refuses
  (`Protocol.StaleParentReloads`), unless someone has created that path again. Then
  it is accepted, and the sender has it under another node than everyone else, with
  nothing left to deliver (`TrainerStore.StaleSelectionRun`, `Protocol.OutOfStep`,
  `Protocol.RecreatedPathDiverges`).
- A client that connects again keeps its old tree and fetches nothing, so it agrees
  with the server only if its tree does at that moment (`Protocol.StepSyncedIff`).
- `addMove` counts a disabled move without a card as unseen, and pushes without
  looking for an existing child, while the server upserts
  (`ClientChapter.AddedExactIff`, `Protocol.PushedAgreesIff`).
- `updateTrainingRemote` leaves the unseen counter alone
  (`ClientChapter.CardedExactIff`).
- `learn` lowers the counter even when the target has left the tree
  (`ClientChapter.LearnedExactIff`).
- The comment in `merge` that should join two comments compares instead of
  assigning, so the first tree's comment stays; the result is right exactly when
  the second tree has no comment on a shared path (`TreeMerge.CommentsJoinedIff`).
- The layer of a queued move grows with its place among its siblings, so elder
  siblings on the way count against the depth limit as plies do. A match three
  plies deep can be missed at any limit (`TrainableSearch.AdmittedIff`,
  `TrainableSearch.MatchMissed`).
- The move cap is a soft one: k adds in flight can overshoot it by k - 1 and no
  more, and a pending add leaves an orphan exactly when its parent has been deleted
  before the write (`ChapterRace.SoftCap`, `ChapterRace.SoftCapReached`,
  `ChapterRace.WriteConsistentIff`).
- A queue that is still waiting when a reload is fetched does no harm on the way
  exactly when none of its broadcasts has anything new to say to the fetched rows
  (`Protocol.LateReloadQueueIff`). It can be right again at its end all the same: a
  create and the delete of the same move cancel out (`Protocol.CreateAndDeleteCancel`).
- An evicted subscriber is left twice. A leave breaks the one-room-per-owner rule
  exactly when it empties a room while another one is mapped for the owner
  (`RoomServer.LeaveAllMappedIff`, `RoomServer.LateLeaveSplitsRoom`).
- A comment in Tree.tsx has Black's reply after a parenthesis read `1... e5`; the
  code prints such a reply without its number (`MoveList.ReplyUnnumbered`,
  `MoveList.ReplyFollowsParentIff`).
- The CSV reader ends a record at a lone carriage return too, and takes it together
  with a line feed that follows (`CsvReader.CrThenLf`).
- A comment in chapters.go says that the root has no move row. A created chapter
  does get one, at path "", and the model has it.

`dafny verify dfyconfig.toml` checks the whole project.

## Model

| member | source | states |
|---|---|---|
| Paths.HeadTail | frontend/src/util/path.ts:10-16 | a path is its head followed by its tail, and its init followed by its last, for every string |
| Paths.IntersectionIsMeet | frontend/src/util/path.ts:28-32 | the intersection is the greatest common ancestor: a path is an ancestor of it exactly when it is an ancestor of both |
| Paths.PrefixByHead | frontend/src/util/path.ts:10-18 | being an ancestor in the sense of `startsWith` is the same as agreeing id by id |
| MoveTree.NodeAtPathReached | frontend/src/util/tree.ts:14-20 | `nodeAtPath` returns the node at the deepest part of the path that can be followed, and the path's own node exactly when the path exists |
| MoveTree.NodeAtAppend | frontend/src/util/tree.ts:71-78 | looking up a concatenated path is looking up its second part from the node of the first |
| MoveTree.ReachesWhole | frontend/src/util/tree.ts:22-23 | only chains of whole ids lead anywhere, and a node's id is the last id of its path |
| MoveTree.ViewUpdate | frontend/src/util/tree.ts:47-58 | an update at p shows, below p, what the updated node shows, and changes nothing at any other path |
| MoveTree.UpdateMissing | frontend/src/util/tree.ts:52-57 | an update at a path that is missing changes nothing |
| MoveTree.ViewPush | frontend/src/store/state.ts:766-766 | a pushed child appears with its subtree at exactly its own paths, when its id was free |
| MoveTree.ViewDelete | frontend/src/util/tree.ts:89-97 | a delete hides exactly the paths that start with the deleted one |
| MoveTree.DeleteWellFormed | frontend/src/util/tree.ts:89-97 | a delete, even of a missing path, keeps sibling ids distinct |
| MoveTree.ViewWrite | frontend/src/store/state.ts:605-605 | writing a node's data shows at that path only and keeps the tree well formed |
| MoveTree.CountUpdate | frontend/src/util/tree.ts:6-12 | updating one node changes a count over the whole tree by what that node's subtree gained and lost |
| MoveTree.PushKeepsPlies | frontend/src/store/state.ts:860-877 | a tree in which every child is one ply below its parent stays so when a move one ply below its parent is pushed |
| HeapTree.ChildById | frontend/src/util/tree.ts:22-23 | the loop over objects finds the first child with the id |
| HeapTree.FindOrNull | frontend/src/util/tree.ts:71-78 | on linked objects the look-up returns the object at the path, and null exactly when the path is missing |
| HeapTree.FindNearest | frontend/src/util/tree.ts:14-20 | on linked objects the look-up returns the object where the path can no longer be followed |
| HeapTree.ChangeSeen | frontend/src/util/tree.ts:47-58 | changing one object in place is the tree update at its path, when no object occurs twice |
| HeapTree.LiveTree.WriteAt | frontend/src/util/tree.ts:47-58 | a write through `updateAt` leaves exactly the tree that the value-level update gives, and reports whether the path was there |
| HeapTree.LiveTree.PushAt | frontend/src/store/state.ts:766-774 | the push in place leaves the tree with the new leaf at the path, or unchanged when the path is missing |
| HeapTree.LiveTree.RemoveChild | frontend/src/util/tree.ts:89-93 | the filter drops every child with the id and keeps the others in order |
| HeapTree.LiveTree.DeleteNodeAt | frontend/src/util/tree.ts:95-106 | the delete in place leaves the tree that the value-level delete gives, and no sharing arises |
| PathTable.FlattenTree | backend/internal/store/chapters.go:567-581 | the recursive walk that overwrites one map yields the flattened table |
| PathTable.FlattenView | backend/internal/store/chapters.go:567-581 | the flattened table holds, at every path, the data that the tree shows there, and no other path |
| PathTable.CountIsPaths | frontend/src/util/tree.ts:6-12 | counting nodes over a tree is counting its paths: the counters are the numbers of enabled and of unseen moves in the flat table |
| PathTable.FlattenPrefixClosed | backend/internal/store/chapters.go:564-581 | a flattened tree's table holds every parent, and each row's id ends its path |
| PathTable.RebuildView | backend/internal/store/chapters.go:584-621 | a rebuilt table shows, below every row and at every path, exactly the table's rows |
| PathTable.RebuildWellFormed | backend/internal/store/chapters.go:601-618 | a prefix-closed, id-consistent table is rebuilt with distinct two-character sibling ids |
| PathTable.FlattenRebuild | backend/internal/store/chapters.go:567-621 | flattening the rebuilt tree gives the table back, for every order the loop may run in |
| PathTable.RebuildFlatten | backend/internal/store/chapters.go:567-621 | rebuilding a flattened tree gives the same tree up to the order of siblings |
| PathTable.SameViewsSameTree | backend/internal/store/chapters.go:584-621 | two well-formed trees that show the same data at every path differ in sibling order only |
| RowsOnce.EveryRowOnce | backend/internal/store/chapters.go:601-618 | on any table with a root row and no one-rune path, orphans included, every row is exactly one node |
| RowsOnce.RowPlaced | backend/internal/store/chapters.go:612-617 | each row's node, with its own data, hangs below its parent's row, or below the root when that row is missing |
| BuildTree.BuildTree | backend/internal/store/chapters.go:584-621 | the loop over sorted paths panics exactly when some non-root path has fewer than two runes, and else links the objects into the rebuilt tree |
| BuildTree.Place | backend/internal/store/chapters.go:601-618 | one turn of the loop keeps, for every path handled so far, its node, its data and its children in order |
| BuildTree.Hang | backend/internal/store/chapters.go:612-617 | appending to the parent's children keeps every other node's children as they were |
| BuildTree.ParentFirst | backend/internal/store/chapters.go:589-591 | sorting by byte length puts a row's parent before the row |
| LikePattern.ParseEscaped | backend/internal/store/chapters.go:383-385 | an escaped path parses to that path's literal characters, wildcards included |
| LikePattern.DeleteMatchesPrefix | backend/internal/store/chapters.go:335-339 | the delete's condition holds of a row exactly when its path literally starts with the deleted one |
| LikePattern.Wildcards | backend/internal/store/chapters.go:381-385 | `_` matches any one character and `%` anything |
| LikePattern.UnescapedOvermatches | backend/internal/store/chapters.go:381-385 | without the escaping, an id made of a wildcard would match unrelated rows |
| ChapterRows.MergeCardsIntoMoves | backend/internal/store/chapters.go:550-562 | overwriting rows while iterating over the cards in any order gives each move its own users' cards, and drops cards without a move |
| ChapterRows.AddEffect | backend/internal/store/chapters.go:209-262 | an add is accepted when its parent is there and it overwrites a move or the chapter is below its cap; it writes its one row, without cards, and each refusal has its own error |
| ChapterRows.ResentAtCap | backend/internal/store/chapters.go:221-243 | a move that the chapter has can be sent again at any cap |
| ChapterRows.TrainEffect | backend/internal/store/chapters.go:274-307 | a card needs its row and replaces that user's card on that move only |
| ChapterRows.DeleteEffect | backend/internal/store/chapters.go:320-341 | a delete takes the rows and cards whose path starts with the deleted one, leaves all others as they were, and does nothing at the empty path |
| ChapterRows.CommentEffect | backend/internal/store/chapters.go:348-360 | a comment needs its row and replaces the comment there only |
| ChapterRows.JoinedEffect | backend/internal/store/chapters.go:550-562 | a reader gets every row, unchanged but for the cards of its users |
| ChapterRows.AddKeepsShapeIff | backend/internal/store/chapters.go:209-262 | an accepted add keeps the table prefix-closed and id-consistent exactly when the id has two characters, or when it overwrites the root row with an empty id |
| ChapterRows.DeletedConsistent | backend/internal/store/chapters.go:320-341 | a delete removes exactly the rows and cards below the path, and keeps parents present and cards on existing moves |
| ChapterRows.StepConsistent | backend/internal/store/chapters.go:209-360 | every store operation keeps the table prefix-closed, id-consistent, and its cards on existing moves |
| ChapterRows.StepWithinCap | backend/internal/store/chapters.go:221-243 | an operation run on its own never takes the chapter over the move cap |
| ChapterRows.CreatedConsistent | backend/internal/store/chapters.go:35-45 | the rows of a new chapter are consistent when its tree is well formed |
| ChapterRows.CreatedRows | backend/internal/store/chapters.go:35-79 | at every path the rows of a new chapter hold what the submitted tree shows there, cards aside, and there is no other row and no card |
| ChapterRows.ReachableConsistent | backend/internal/store/chapters.go:209-341 | every table reached by operations that run one at a time is consistent and within the cap |
| ChapterRace.OvershootBounded | backend/internal/store/chapters.go:221-243 | the moves in the table, and those in it or promised by pending adds, never exceed cap + k - 1 in any interleaving with at most k adds in flight |
| ChapterRace.SoftCap | backend/internal/store/chapters.go:221-243 | from a table within the cap, the table itself never exceeds cap + k - 1 |
| ChapterRace.SoftCapReached | backend/internal/store/chapters.go:221-243 | one move below the cap, k new adds all checked before they are written end at exactly cap + k - 1 |
| ChapterRace.WriteConsistentIff | backend/internal/store/chapters.go:204-218 | a checked add's write keeps the table's shape exactly when its parent's row is still there |
| ChapterRace.StepAnchoredIff | backend/internal/store/chapters.go:204-262 | a step takes a pending add's parent away exactly when it deletes an existing move at or above that parent |
| ChapterRace.RaceConsistent | backend/internal/store/chapters.go:204-262 | interleaved adds keep the table in shape in every run without such a delete |
| ChapterRace.RaceLeavesOrphan | backend/internal/store/chapters.go:204-218 | an add checked before its parent is deleted and written afterwards leaves an orphan |
| ChapterStore.ChapterStore.CreateChapter | backend/internal/store/chapters.go:18-60 | a chapter is refused exactly at its owner's chapter cap, then over the move cap, then for a bad key; otherwise its rows hold at every path what the submitted tree shows, cards aside, and the store stays sound |
| ChapterStore.Caps | backend/internal/store/chapters.go:108-173 | the caps are 5000 moves and 20 chapters times a multiplier from one up, and the stock caps for a lower multiplier or a user without a row |
| ChapterStore.ChapterStore.AddMoveToChapter | backend/internal/store/chapters.go:209-262 | only the named chapter changes, by an upsert or a refusal, and caps and shape are kept for two-character ids |
| ChapterStore.ChapterStore.UpdateTrainingState | backend/internal/store/chapters.go:274-307 | only that user's card on an existing row changes, and a missing row is reported |
| ChapterStore.ChapterStore.DeleteNodeFromChapter | backend/internal/store/chapters.go:320-341 | only rows and cards below the path go; the empty path is a no-op and a missing one is reported |
| ChapterStore.ChapterStore.SetComment | backend/internal/store/chapters.go:348-360 | only that row's comment changes, and a missing row is reported |
| ChapterStore.InsertWithinCap | backend/internal/store/chapters.go:25-33 | a chapter added below its owner's cap leaves every owner within the cap |
| ChapterStore.CreatedSound | backend/internal/store/chapters.go:35-45 | a chapter made from a well-formed tree is consistent and within its move cap |
| ClientChapter.ParseChapter | frontend/src/util/chapters.ts:12-36 | the traversal counts the enabled moves, and those without a card of the user |
| ClientChapter.MadeExact | frontend/src/store/state.ts:874-877 | a move made on the board keeps both counters equal to the recount |
| ClientChapter.AddedExactIff | frontend/src/store/state.ts:766-777 | a received move keeps the counters right exactly when it is enabled or the user has a card on it |
| ClientChapter.DeletedExact | frontend/src/store/state.ts:469-480 | deleting a move of the tree keeps both counters equal to the recount |
| ClientChapter.DeletedExactIff | frontend/src/store/state.ts:788-800 | in any tree, a delete keeps the counters right exactly when the path is a move of the tree and its later siblings with the same id have nothing enabled, or it is missing and nothing at the nearest ancestor is enabled outside the children with its last id |
| ClientChapter.PresentDeleteIff | frontend/src/util/tree.ts:89-97 | deleting a move that is there is counted right exactly when no later sibling of the same id, which the filter drops too, has anything enabled |
| ClientChapter.MissedParent | frontend/src/util/tree.ts:95-106 | for a missing path, the parent that `deleteNodeAt` filters is the node that `nodeAtPath` returned |
| ClientChapter.DriftedDeleteIff | frontend/src/util/tree.ts:95-106 | deleting a missing path leaves the tree alone exactly when the nearest ancestor has no child with the path's last id; otherwise it is the delete of that child |
| ClientChapter.DriftedDeleteHitsAnotherMove | frontend/src/util/tree.ts:95-106 | deleting a path whose parent is missing removes a root move with the same last id |
| ClientChapter.CommentedExact | frontend/src/store/state.ts:605-605 | writing a comment leaves both counters right |
| ClientChapter.CardedExactIff | frontend/src/store/state.ts:818-835 | a received card leaves the counters right exactly unless it is the user's own first card on an enabled move |
| ClientChapter.LearnedExactIff | frontend/src/store/state.ts:661-664 | learning leaves the counters right exactly when the target is in the tree, enabled and without a card |
| ClientChapter.TrainedExact | frontend/src/store/state.ts:708-711 | reviewing a card that exists leaves the counters right |
| ClientChapter.CountersAgree | frontend/src/store/state.ts:455-910 | after every run of sensible actions both counters equal the full recount |
| TrainerStore.GetNodeList | frontend/src/util/tree.ts:25-45 | the list is the chain of nodes along the path as far as it can be followed |
| TrainerStore.FromNodeList | frontend/src/util/path.ts:20-24 | the result is the ids of the nodes in order |
| TrainerStore.SpineRoundTrip | frontend/src/util/tree.ts:25-45 | reading the ids of a node list back gives the part of the path that exists, and the list ends at `nodeAtPath` |
| TrainerStore.TrainerStore.Jump | frontend/src/store/state.ts:447-453 | the selected path becomes the path asked for, the selected node the deepest one on it, and the two agree exactly when the path exists |
| TrainerStore.NextPosition | frontend/src/store/state.ts:513-525 | the search's first candidate becomes the target with its parent selected, or nothing is selected when there is none |
| TrainerStore.TrainerStore.SetNextTrainablePosition | frontend/src/store/state.ts:506-527 | in learn and recall mode selection and target become the search's answer; otherwise nothing changes |
| TrainerStore.PositionedInTree | frontend/src/store/state.ts:517-525 | in a tree with distinct sibling ids that target is in the tree at its own path, right below the selected node, and is what the mode looks for |
| TrainerStore.WorkOnPositionedExact | frontend/src/store/state.ts:643-728 | learning or reviewing the target straight after the search keeps both counters equal to the recount |
| TrainerStore.TrainerStore.Cut | frontend/src/store/state.ts:469-480 | tree and counters change as the delete says, and held nodes that were cut out live on by themselves |
| HeldNodes.CutOutIff | frontend/src/store/state.ts:477-477 | a delete cuts out exactly the held nodes at and below the deleted move |
| HeldNodes.CardedNode | frontend/src/store/state.ts:661-663 | a card put on a held node is there afterwards, in the tree or outside, and the node is otherwise unchanged |
| TrainerStore.TrainerStore.DeleteLine | frontend/src/store/state.ts:455-504 | tree and counters change as the delete says, one node_deleted is sent, the selection moves off the subtree, and its path and node agree exactly when it was inside |
| TrainerStore.TrainerStore.DeleteNodeRemote | frontend/src/store/state.ts:783-815 | tree and counters change as the delete says; a selection outside stays, one inside moves to the parent, or to the next position to train in learn and recall mode; outside those modes path and node keep agreeing |
| TrainerStore.TrainerStore.MakeMove | frontend/src/store/state.ts:841-910 | a known SAN changes nothing; a new one is pushed to the selected node, in the tree or cut out of it, with its parent's ply plus one, the play's id, SAN and position, no comment and no cards, enabled exactly when its mover is trained; it is counted and sent; only edit mode follows it, and it fails exactly when the SAN is new and not the canonical one; on a node of the tree the counters stay equal to the recount, and plies keep counting |
| TrainerStore.SanIndexPushed | frontend/src/store/state.ts:864-905 | after the push, the SAN that was typed is found exactly when it is the canonical one |
| TrainerStore.TrainerStore.AddMove | frontend/src/store/state.ts:758-780 | the move is pushed and counted, or the client resyncs exactly when the parent is missing |
| TrainerStore.TrainerStore.SetCommentAt | frontend/src/store/state.ts:588-621 | the comment cut to the limit is written at the nearest node and sent |
| TrainerStore.TrainerStore.SetCommentRemote | frontend/src/store/state.ts:624-637 | a received comment is written at the nearest node |
| TrainerStore.TrainerStore.UpdateTrainingRemote | frontend/src/store/state.ts:818-835 | a received card is written at the nearest node and the counters stay |
| TrainerStore.TrainerStore.Learn | frontend/src/store/state.ts:643-685 | the target node gets its card wherever it is by now, unseen goes down by one, and the card is sent under the starting path and the target's id |
| TrainerStore.TrainerStore.Train | frontend/src/store/state.ts:690-728 | the user's card on the target node, wherever it is by now, is replaced by its review and sent under the starting path and the target's id; without a card nothing happens |
| HeldNodes.LooseExactIff | frontend/src/store/state.ts:661-664 | a move made on a cut-out node keeps the counters right exactly when it is disabled, and learning one never does |
| TrainerStore.TrainerStore.ResyncAndRestore | frontend/src/store/state.ts:530-549 | the fetched tree replaces the local one with exact counters; the selection survives exactly when its path still exists, and is the next position to train in learn and recall mode |
| TrainerStore.AddedIsKnown | frontend/src/store/state.ts:849-905 | a move added by its canonical SAN is found again among the children |
| TrainerStore.ReachedAfterDelete | frontend/src/store/state.ts:502-503 | a deleted path can be followed to its parent and no further |
| TrainerStore.SelectionAfterDelete | frontend/src/store/state.ts:502-503 | after `deleteLine` the selected node is the deleted move's parent in either branch |
| TrainerStore.InStepAfterDelete | frontend/src/store/state.ts:502-503 | after `deleteLine` the selected path leads to the selected node exactly when the selection was inside the deleted subtree |
| TrainerStore.StaleSelectionRun | frontend/src/store/state.ts:455-504 | deleteLine with the selection elsewhere, the deleted move received again, then a move on the board: it is pushed to the parent and sent under the path of the move received again |
| Dispatch.Hub.HandleMessage | backend/internal/ws/dispatch.go:76-199 | an accepted message is applied and its corrected form queued for everyone but the sender; a refused one changes no row and queues a reload for the sender alone |
| Dispatch.Hub.PublishRoom | backend/internal/ws/server.go:368-384 | every queue but the sender's grows by the message |
| Dispatch.CanonicalForm | backend/internal/ws/dispatch.go:76-199 | the message that is applied and broadcast is of the same kind and path; a comment keeps its first thousand characters, and a card is filed under the session's user |
| Protocol.HandledAsAuthored | backend/internal/ws/dispatch.go:76-199 | whatever a client sends is handled as a message that the UI could have sent for the session user |
| Protocol.StoreActionsMatch | frontend/src/store/state.ts:455-910 | the trees of the protocol's steps are those of the store actions: makeMove, learn and train work on the held node wherever it is, everything else on the path of the message |
| Protocol.LocalAgreesIff | backend/internal/ws/dispatch.go:76-199 | an accepted message leaves the sender's tree equal to the new rows exactly when its own change landed at the path in the message and a created move was new, or changed nothing in either |
| Protocol.RemoteAgreesIff | backend/internal/ws/dispatch.go:76-199 | an accepted message leaves another client's tree equal to the new rows exactly when it does not create a move the server had already |
| Protocol.PushedAgreesIff | frontend/src/store/state.ts:877-893 | a move pushed at one path and upserted below another keeps tree and table equal exactly when the two are the same and the move is new |
| Protocol.LoosePushAgreesIff | frontend/src/store/state.ts:877-893 | a move pushed to a cut-out node and accepted by the server keeps them equal exactly when the server has that very row already |
| Protocol.CardedAgreesIff | frontend/src/store/state.ts:663-672 | a card put on a held node and stored under a path keeps them equal exactly when the node is at that path, or the card changes nothing in the tree and nothing in the table |
| Protocol.CreateAgrees | backend/internal/store/chapters.go:245-256 | a pushed new move and the upserted row keep tree and table equal |
| Protocol.DeleteAgrees | backend/internal/store/chapters.go:335-339 | the tree delete and the prefix delete keep tree and table equal |
| Protocol.CommentAgrees | backend/internal/store/chapters.go:348-360 | the written comment and the updated row keep tree and table equal |
| Protocol.CardAgrees | backend/internal/store/chapters.go:274-307 | the written card and the upserted card row keep tree and joined table equal |
| Protocol.FetchedAgrees | backend/internal/store/chapters.go:449-475 | a fetched tree says what the rows say |
| Protocol.FetchedAfterCreation | backend/internal/store/chapters.go:35-79 | the tree fetched straight after a creation shows at every path what the submitted tree shows, cards aside |
| Protocol.EditSyncedIff | backend/internal/ws/dispatch.go:76-199 | an edit keeps every client's tree, once caught up and unless lost, equal to the server's table exactly when it is refused, or lands right at the sender and is new to all who get it |
| Protocol.StepSyncedIff | frontend/src/hooks/useWebsocket.ts:62-140 | deliveries, fetched joins, lost connections and offline edits always keep that, and a reconnect exactly when the old tree agrees with the rows at that moment |
| Protocol.JoinerAgrees | frontend/src/store/state.ts:530-549 | a client that joins with a fetch takes part at once and agrees with the server |
| Protocol.RunSyncedIff | frontend/src/hooks/useWebsocket.ts:62-140 | everyone agrees throughout a run exactly when each of its steps is harmless in that sense |
| Protocol.RunInStep | frontend/src/store/state.ts:841-910 | a run is harmless if every editor works on the node at the path it sends, makes only moves its own tree does not have, and nobody connects again |
| Protocol.Convergence | backend/internal/ws/dispatch.go:76-199 | after any run of harmless steps from an empty room, a client with an empty queue that has not been lost holds the joined rows, and two such clients hold the same tree up to sibling order |
| Protocol.RepeatedIff | frontend/src/hooks/useWebsocket.ts:108-122 | a message applied to a tree that agrees already leaves it so exactly when there is nothing new in it, for each of the four kinds |
| Protocol.LateReloadIff | frontend/src/store/state.ts:530-549 | one broadcast still queued when a reload is fetched is harmless exactly when the fetched rows leave it nothing to do |
| Protocol.QueueIff | frontend/src/hooks/useWebsocket.ts:108-122 | a queue of any length keeps an agreeing tree in agreement after each of its messages exactly when none of them has anything new to say to it |
| Protocol.LateReloadQueueIff | frontend/src/store/state.ts:530-549 | the same for the queue that is waiting when a reload is fetched |
| Protocol.CreateAndDeleteCancel | frontend/src/store/state.ts:530-549 | a queued create and the delete of the same move leave the fetched tree right at the end and wrong in between |
| Protocol.LateReloadDuplicates | frontend/src/store/state.ts:530-547 | a fetch that already holds a still queued move ends with two siblings of one id |
| Protocol.StaleParentReloads | backend/internal/store/chapters.go:209-218 | a move sent under a path that has been deleted is refused and the sender told to reload |
| Protocol.OutOfStep | frontend/src/store/state.ts:877-893 | a move pushed at another path than the one sent is refused by the server, or takes its maker out of agreement |
| Protocol.RecreatedPathDiverges | frontend/src/store/state.ts:455-504 | from any two settled clients that agree, the deletion, the re-creation by the other client and the next move form a run in which everything is accepted and delivered, and the maker of that move still ends apart from the server |
| RoomConvergence.LogAgrees | frontend/src/hooks/useWebsocket.ts:108-122 | a client that applies the accepted messages in order ends with a tree that says what the rows say |
| RoomConvergence.WatcherConverges | backend/internal/ws/server.go:365-398 | a watching client that is not being evicted and has no broadcast waiting holds what the server's rows say, from the messages written to its socket |
| TrainableSearch.ComputeNextTrainableNode | frontend/src/util/training.ts:131-203 | the deque loop ends; null means that no admitted move matches; otherwise the answer is the first match in the algorithm's order, with its parent's path |
| TrainableSearch.PushChildren | frontend/src/util/training.ts:189-200 | the children are queued with their own paths and growing layers, exactly when the layer rule opens them, and less work is queued than was taken |
| TrainableSearch.NextIsFirst | frontend/src/util/training.ts:160-182 | a match at the deque's end that is served is before every other candidate |
| TrainableSearch.StepCovers | frontend/src/util/training.ts:186-200 | no candidate is lost when an entry is replaced by its children |
| TrainableSearch.StepOrdered | frontend/src/util/training.ts:160-200 | the deque stays sorted: right-to-left preorder for dfs, at most two levels in order for bfs |
| TrainableSearch.FirstUnique | frontend/src/util/training.ts:157-203 | there is only one first candidate, so the answer is determined |
| TrainableSearch.OrderMeaning | frontend/src/util/training.ts:157-203 | a move comes before its descendants; dfs takes the last branch first, bfs the least depth and then the first branch |
| TrainableSearch.CardedCandidates | frontend/src/util/training.ts:169-181 | a card takes a move out of those to learn and puts it among those to recall from its due time on, and the search is otherwise unchanged |
| TrainableSearch.FreshCandidate | frontend/src/util/training.ts:169-181 | an enabled move without a card of the user is a candidate in learn mode and in no other |
| TrainableSearch.BfsLeastDepth | frontend/src/util/training.ts:160-160 | bfs answers with a candidate of least depth |
| TrainableSearch.DepthWithinLimit | frontend/src/util/training.ts:189-200 | no admitted move lies deeper than twice the limit, or than one ply for a limit below one |
| TrainableSearch.AdmittedIff | frontend/src/util/training.ts:189-200 | the search looks at exactly the first ply and the moves whose plies, plus the elder siblings of the moves in between, add up to at most twice the limit |
| TrainableSearch.MatchMissed | frontend/src/util/training.ts:189-200 | at any limit from two, a tree whose only match is the third move below a late sibling is searched in vain, although it is within twice the limit |
| TrainableSearch.ParentAndChild | frontend/src/util/training.ts:169-181 | the node at startingPath exists and the answer is its child with a two-character id |
| TrainableSearch.AnswerIsInTree | frontend/src/util/training.ts:169-181 | the answer sits at startingPath followed by its id, where learn and train look for it |
| TreeMerge.MergeInto | frontend/src/util/training.ts:98-107 | the forEach that merges or pushes child after child, seeing what it pushed before, yields the merged tree |
| TreeMerge.MergeIsUnion | frontend/src/util/training.ts:98-107 | the merged tree has exactly the paths of both, keeps the first tree's data on shared paths and the second's elsewhere, and sibling ids stay distinct |
| TreeMerge.CommentsJoinedIff | frontend/src/util/training.ts:100-101 | every node shows the joined comment it was meant to exactly when the second tree has no comment on a shared path |
| TreeMerge.MergeIdempotent | frontend/src/util/training.ts:98-107 | merging the same tree a second time changes nothing |
| TreeMerge.MergeKeepsOrder | frontend/src/util/training.ts:98-107 | the first tree's children keep their places and the new ones follow in their own order |
| MoveList.EveryMoveOnce | frontend/src/components/pgn/Tree.tsx:337-440 | in edit mode the mutual recursion puts every node but the root on the page exactly once, with its true path |
| MoveList.ShownIsReached | frontend/src/components/pgn/Tree.tsx:337-440 | a node shows at a path once when the path leads to it in the tree, and never otherwise |
| MoveList.ReplyUnnumbered | frontend/src/components/pgn/Tree.tsx:297-303 | in a sideline, a black reply that continues the line carries no number |
| MoveList.ReplyFollowsParentIff | frontend/src/components/pgn/Tree.tsx:365-397 | the last move shown before that reply is its parent exactly when no parenthesised sibling stands in between |
| MoveList.MainlineInRows | frontend/src/components/pgn/Tree.tsx:403-440 | with alternating plies the column is rows of number, white slot and black slot between interrupts, every move under its own number, only the last row short |
| MoveList.WhiteRows | frontend/src/components/pgn/Tree.tsx:412-432 | a white move opens a row, which an interrupt completes and opens again |
| MoveList.BlackRows | frontend/src/components/pgn/Tree.tsx:412-432 | a black move completes the open row of its turn |
| MoveList.PliesAlternate | frontend/src/components/pgn/Tree.tsx:403-440 | in a tree whose plies count, the plies go up by one along the mainline |
| MoveListPage.PageRight | frontend/src/components/pgn/Tree.tsx:274-440 | around every move of the page: mainline moves carry no number and are interrupted exactly for a comment or a rival; sideline moves carry one exactly when White makes them or they neither stand alone nor open a pair; comments follow their moves; parentheses hold the second of a pair, lines everything else |
| MoveListPage.TurnOfPly | frontend/src/components/pgn/Tree.tsx:274-274 | White's and Black's k-th moves carry the number k |
| MoveListPage.BranchesIff | frontend/src/util/tree.ts:99-104 | a line branches within a depth exactly when one of that many nodes along it has a choice of moves |
| Explorer.MergeResultSummaries | explorer/merge.go:10-54 | the merged value sums the counts of every move, keeps moves distinct, and is the new value when there was none |
| Explorer.IndexResults | explorer/merge.go:29-33 | the first loop indexes the old counts by move |
| Explorer.AddResults | explorer/merge.go:35-45 | the second loop adds each new result to its move |
| Explorer.ListResults | explorer/merge.go:47-51 | the map listed in any order holds each move once with its counts |
| Explorer.StatsMerger.MergeNewer | explorer/main.go:250-257 | the current value becomes its merge with a newer operand |
| Explorer.StatsMerger.MergeOlder | explorer/main.go:259-268 | the current value becomes its merge with an older operand |
| Explorer.FoldIsSum | explorer/main.go:245-268 | every folding of operands ends with the pointwise sum of all of them, moves distinct |
| Explorer.SumReordered | explorer/main.go:259-260 | the sum depends on which operands there are, not on their order |
| Explorer.FoldOrderIrrelevant | explorer/main.go:245-268 | two foldings of the same operands count every move alike |
| Explorer.MergeConservesGames | explorer/merge.go:29-53 | the merge's total over all moves is the sum of the two totals |
| ExplorerImport.GameKeys | explorer/main.go:193-206 | a game yields for its i-th move the key of the position after the first i moves, or nothing exactly when some move cannot be played in the position before it |
| ExplorerImport.KeysMeaning | explorer/main.go:193-206 | the same of the collected keys: legal games and no others have them, one per move |
| ExplorerImport.CountGame | explorer/main.go:135-154 | the inner loop bumps one counter per move, in order |
| ExplorerImport.AfterMovesCounts | explorer/main.go:135-154 | after a game each counter has grown by how often the game plays that move from that position, once per repetition |
| ExplorerImport.Aggregated | explorer/main.go:124-155 | the aggregate of a batch counts every position and move as often as its legal games do, and imported plus skipped is all games |
| ExplorerImport.OccurrencesAreHits | explorer/main.go:124-155 | each counter is the number of pairs of a legal game with that result and a move in it played from that position |
| ExplorerImport.LegalGamesCounted | explorer/main.go:124-134 | the number of imported games is that of the games in which every move can be played |
| ExplorerImport.ImportBatch | explorer/main.go:113-184 | for every position the batch writes one operand with exactly its games' counts, or none when they have none |
| ExplorerImport.StoredCounts | explorer/main.go:124-184 | after any batches, folded in any grouping and order, the stored white, black and drawn counts are the numbers of pairs of a fully legal game with that result and a move of it that plays the SAN from the position |
| ExplorerImport.ResplitChangesNothing | explorer/main.go:121-155 | splitting the same games into other batches changes no answer |
| TokenBucket.TokenBucket.Allow | backend/internal/ratelimit/limiter.go:45-62 | the answer and the new state are those of the refill-then-pay step at the clock reading |
| TokenBucket.StepBalance | backend/internal/ratelimit/limiter.go:49-61 | a call is allowed exactly when what was there and what was earned, up to the capacity, is a whole token; it then takes one, and a refused call takes nothing |
| TokenBucket.RefusalIsFree | backend/internal/ratelimit/limiter.go:45-62 | a refused call changes no later answer |
| TokenBucket.RefusalsAreFree | backend/internal/ratelimit/limiter.go:45-62 | leaving out any of the refused calls of a run leaves all other answers as they were |
| TokenBucket.RunBalance | backend/internal/ratelimit/limiter.go:45-62 | along a run that never fills the bucket, allowed calls and tokens left are exactly the tokens at first and those earned |
| TokenBucket.StepPays | backend/internal/ratelimit/limiter.go:49-61 | a call keeps the tokens in range, never moves `last` back, and pays one token for what it allows |
| TokenBucket.RunInRange | backend/internal/ratelimit/limiter.go:45-62 | over every run the tokens stay in [0, capacity], even if the clock steps back |
| TokenBucket.RateBounded | backend/internal/ratelimit/limiter.go:17-19 | from any point of a run on, allowed calls are at most capacity plus what is refilled after the first of them |
| TokenBucket.PatientNeverRefused | backend/internal/ratelimit/limiter.go:17-19 | with room for a token, a caller that waits for one refill between its calls is never refused, exactly when its first call finds a token |
| TokenBucket.PatientFromTheStart | backend/internal/ratelimit/limiter.go:108-120 | on a bucket made full for the first call, such a caller is never refused |
| TokenBucket.IdleIsFull | backend/internal/ratelimit/limiter.go:85-88 | a bucket left alone for an idle period that refills it answers like a new one |
| Limiter.Limiter.Allow | backend/internal/ratelimit/limiter.go:109-120 | the key's bucket, created full on first use, is charged and its last use recorded; other keys are untouched |
| Limiter.Limiter.Gc | backend/internal/ratelimit/limiter.go:138-147 | exactly the entries last used before the cutoff go |
| Limiter.AllowTouches | backend/internal/ratelimit/limiter.go:109-120 | a call charges the key's bucket, or a full one, records when it came, and leaves other keys alone |
| Limiter.AllowRelated | backend/internal/ratelimit/limiter.go:109-120 | a call answers alike with and without evictions and keeps the two limiters related |
| Limiter.GcInvisible | backend/internal/ratelimit/limiter.go:85-88 | any interleaving of calls and collections answers as never-evicted buckets would, when an idle period refills a bucket |
| Limiter.GcShows | backend/internal/ratelimit/limiter.go:138-147 | for any capacity that an idle period does not refill, there is a run in which the collected limiter refuses nothing and the never-evicted one refuses a call |
| Limiter.GcInvisibleIff | backend/internal/ratelimit/limiter.go:85-88 | for every integer capacity, collections change no answer of any run exactly when an idle period refills a bucket |
| Limiter.KeyIsAlone | backend/internal/ratelimit/limiter.go:64-67 | a key's answers are those of one bucket of its own, whatever other keys and collections do |
| Limiter.KeyRateBounded | backend/internal/ratelimit/limiter.go:64-67 | between any two moments of a run, whatever came before, a key is allowed at most a full bucket plus what is refilled in between |
| RoomServer.Server.Join | backend/internal/ws/server.go:290-334 | the subscriber enters its owner's room, created on first use, and presence goes to those with space |
| RoomServer.Server.Leave | backend/internal/ws/server.go:338-363 | the subscriber leaves, an empty room is unmapped, others are told |
| RoomServer.Server.PublishRoom | backend/internal/ws/server.go:368-384 | every other member with fewer than sixteen messages waiting gets the message behind them and is otherwise unchanged; one with sixteen keeps them and is scheduled for eviction; everyone else and the rooms are unchanged |
| RoomServer.Server.SendTo | backend/internal/ws/server.go:389-398 | the same for the one subscriber |
| RoomServer.RunSound | backend/internal/ws/server.go:290-398 | in every run, double leaves included, mapped rooms are non-empty and keyed by their own id, members point to their room, and no buffer is over its size |
| RoomServer.StepMembers | backend/internal/ws/server.go:290-363 | a step adds to a room who joins it and takes out who leaves it, and nobody else |
| RoomServer.LeaveAllMappedIff | backend/internal/ws/server.go:338-350 | a leave keeps every room with members mapped exactly when it does not empty its room while another is mapped for the owner |
| RoomServer.StepAllMappedIff | backend/internal/ws/server.go:290-398 | only such a leave can break it |
| RoomServer.RunAllMapped | backend/internal/ws/server.go:290-363 | throughout a run every room with members is mapped exactly when each of its leaves is harmless |
| RoomServer.LeavingOnceIsHarmless | backend/internal/ws/server.go:338-363 | runs in which each subscriber leaves once have harmless leaves only |
| RoomServer.OneRoomPerOwner | backend/internal/ws/server.go:286-288 | if no leave is harmful, all members of one owner share one room |
| RoomServer.LateLeaveSplitsRoom | backend/internal/ws/server.go:346-350 | a second, late leave of an evicted subscriber unmaps a re-created room, and the next joiner is alone |
| RoomDelivery.StepDelivers | backend/internal/ws/server.go:365-398 | a published broadcast arrives at the end of what a member received, or the member is scheduled for eviction |
| RoomDelivery.OnlyOwnRoom | backend/internal/ws/server.go:368-384 | what is published to a subscriber was published to the room it is pinned to, by someone else |
| RoomDelivery.RunDelivers | backend/internal/ws/server.go:365-398 | the same over whole runs |
| RoomDelivery.DeliveredExactly | backend/internal/ws/server.go:365-398 | a subscriber not scheduled for eviction has, written or buffered and in order, exactly what was published to its room since it joined, its own excepted |
| RoomDelivery.StepQueues | backend/internal/ws/server.go:290-398 | per step and subscriber: what comes by waits if fewer than sixteen wait, only a write takes the oldest away, and eviction is scheduled exactly for a broadcast or reply that found sixteen |
| RoomDelivery.JoinerStarts | backend/internal/ws/server.go:290-334 | a subscriber exists from its join on and starts with its own presence waiting |
| RoomDelivery.RunTakes | backend/internal/ws/server.go:290-398 | over a run nothing that entered a channel is lost, repeated or reordered |
| RoomDelivery.DroppedIff | backend/internal/ws/server.go:365-398 | from the start of the server, a subscriber is scheduled for eviction exactly if a broadcast or a reply once found its channel full |
| CsvReader.ReadCsv | scripts/firebase-import/import.mjs:127-164 | the index loop computes the scanner's records |
| CsvReader.RoundTrip | scripts/firebase-import/import.mjs:125-164 | any file printed by section 2 of RFC 4180, with any legal quoting and LF, CRLF or a lone CR after each record, is read back exactly, unless a bare LF follows a lone CR |
| CsvReader.RoundTripUnterminated | scripts/firebase-import/import.mjs:161-164 | without a final line break the last record is kept, unless it is one empty field |
| CsvReader.CrThenLf | scripts/firebase-import/import.mjs:149-155 | an empty record ended by CR and one ended by LF are read as one |
| PromiseThrottle.PromiseThrottle.Call | frontend/src/util/sound.ts:33-67 | a call runs at once when nothing is in flight, else takes the waiting place and throttles who had it |
| PromiseThrottle.PromiseThrottle.Settle | frontend/src/util/sound.ts:36-43 | the call in flight settles and the waiting one starts |
| PromiseThrottle.AlwaysOrderly | frontend/src/util/sound.ts:17-21 | in every interleaving at most one call is in flight, at most one waits, and calls start in the order they were made |
| PromiseThrottle.WaitingCallFate | frontend/src/util/sound.ts:49-64 | a waiting call is throttled exactly when another call comes before the settlement |
| PromiseThrottle.OutcomesAreFinal | frontend/src/util/sound.ts:50-65 | a settled or throttled call stays so |
| PromiseThrottle.LastCallRuns | frontend/src/util/sound.ts:17-21 | the last call has settled after at most two settlements |
| PromiseThrottle.EveryCallAccounted | frontend/src/util/sound.ts:22-68 | every call is running, waiting, settled or throttled, and a throttled one is never the last |

## Left out

- HTTP handlers, sessions, permission checks, cookies, avatars, the database driver's own failures and the WebSocket transport: senders may edit, statements succeed or report what the code tests for, and a buffer is a queue.
- Chess itself: making a SAN, playing it and a position's key are parameters; PGN import and export are not part of this model.
- FSRS scheduling: a card is a due time and an opaque state, and a review is a parameter.
- Protocol.Convergence: concurrent edits are not covered; an editor has drained its queue, and the server has answered an edit, and a reload has been fetched, before the next edit. A client that is to be evicted makes no further edit before its connection closes; nothing is claimed of it until it connects again.
- Several chapters per client and per room: the protocol and the store actions have one chapter, and creating, renaming and deleting chapters over the socket is left out.
- HeldNodes.Kept: a node object is named by its path, so a node hidden behind a sibling of the same id counts as cut out, and two nodes held inside one cut-out subtree do not share later changes.
- IndexedDB persistence, due counts and due times, `guess` and the other user-interface fields of the store.
- TreeMerge.MergeInto: the trees are values; sharing of the pushed subtrees between the two trees is not captured.
- ClientChapter.DeletedExactIff: stated for paths made of whole two-character ids, which is what the clients send.
- BuildTree.BuildTree: the sort is not modelled; the sorted listing it may produce is a parameter, and every such listing is covered.
- Comments are cut by characters on both sides; that JavaScript counts UTF-16 units and Go counts runes outside the basic plane is not modelled.
- Dispatch.Hub.HandleMessage: a message that is not valid JSON, or one whose failure the code only logs, is left out, and so are ping and the chapter messages.
- Quota multipliers do not change during a run of the chapter store.
- TokenBucket.RateBounded: floating point is exact real arithmetic here.
- Limiter.Limiter.Allow: the clock is read once per call, where the code reads it up to three times.
- Explorer.MergeResultSummaries: counts are unbounded integers, and JSON encoding is the identity.
- The key-value store itself: a key's operands are folded in some grouping and order, each exactly once.
- RoomConvergence.WatcherConverges: a client that also edits is covered by `Protocol.Convergence` alone, where a full buffer may drop any message.
- RoomDelivery.DeliveredExactly: only operation broadcasts are covered; presence messages are dropped silently when a buffer is full, and replies to one client are not broadcasts.
- The read loop, ping timers and the moment at which a scheduled eviction runs: eviction is a later leave step at any point of the run.
- MoveList.EveryMoveOnce: edit mode only; the filter of training mode, comment truncation, menus and editors are left out.
- CsvReader.ReadCsv: the header check and the mapping of columns after line 164 are left out.
- PromiseThrottle.AlwaysOrderly: the wrapped function does not call the throttle itself, and a settlement and its `finally` callback are one step.
- React hooks and components other than the layout recursion, styles, sounds, hotkeys, charts and time formatting.
