# A verified model of the kuxurum tic-tac-toe server

This Dafny project models the core of a small Ktor server. The server has three parts:

- **The game coordinator.** Players register a WebSocket connection under their id (`/connect`). They join or create a game (`/createGame`) and submit turns (`/makeTurn`). The server pushes `GameCreated`, `FoundSecondPlayer`, `TurnMade` and `GameEnded` messages to every registered participant, and `isGameEnded` decides the outcome after each turn.
- **The article store of the sample blog.** A 32-bit `AtomicInteger` hands out ids. A process-wide list starts with one article. The `/articles` routes append to it, update the first match in place, and remove by id.
- **The HTML task table.** `Priority`, `Task`, `taskAsRow` (a raw-string template passed through `trimIndent`) and `asTable` (`joinToString`).

The model follows the code as written, quirks included. Each quirk is proved as a lemma:

- a row or column whose three cells are all 0 counts as won, with value 0 (`Board.EmptyBoardYieldsZero`, `Board.EmptyRowMasksLaterLines`);
- each diagonal check compares only the centre with one corner, so on a board with no uniform row or column a diagonal wins with its third cell different; each witness board shows which check decides (`Board.MainDiagonalIgnoresLastCell`, `Board.AntiDiagonalIgnoresLastCell`);
- a verdict of 0 ends `/makeTurn` without any response (`Games.NoResponseMeansZeroVerdict`);
- the id pool is never shrunk, so only one game ever exists (`Games.PoolNeverShrinks`, `Games.AtMostOneGame`);
- a started game's status carries the first player's id and name, not both players (`Games.JoinWaitingGame`);
- a third join fails on the cast (`Games.JoinStartedGameFails`);
- `/makeTurn` overwrites a cell that is already set (`Games.MakeTurnWritesOneCell`);
- `GameCreated` carries the player's id;
- the `/connect` loop ignores every decoded message but `RegisterWs`, and stops at the first frame that is not a serialised `Message` (`Sessions.StopsAtUndecodable`, `Sessions.RegistrationAfterUndecodable`);
- an update whose form has a title but no body writes the title and then throws, leaving the old body (`Articles.UpdateActionEffect`).

The row-0 game is the one where p1 plays (0,0), (0,1), (0,2) and p2 plays (1,1), (1,2). Each of its first four turns leaves an empty row and so gets no response (`Board.RowZeroBoards`). The final turn announces p1 as the winner (`Games.RowZeroFinish`).

Files:

| file | content |
|---|---|
| `wrappers.dfy` | `Option`, standing for Kotlin's nullable values |
| `board.dfy` | the 3x3 board as a value (`Grid`), the verdict `Verdict` of `isGameEnded` and its loop method over an `array2`, and one-cell writes |
| `messages.dfy` | the closed `Message` hierarchy and its serial-name tags |
| `sessions.dfy` | the `sessions` registry and the frame loop of `/connect`, as functions |
| `games.dfy` | the whole server state as a value, with `CreateGame` and `MakeTurn` as state transitions, the invariant they keep, and the handler properties |
| `server.dfy` | the class `GameServer`, holding the module-level maps in place and one `array2` board per started game; each handler is a method proved to take the state exactly as `games.dfy` says |
| `articles.dfy` | `Article`, the id counter with 32-bit wrap-around, and the class `ArticleStore` with its list operations, proved against functions on the list's values |
| `tasks.dfy` | `Priority`, `Task`, `trimIndent`/`joinToString` written out, `taskAsRow` and `asTable` |

## Model

| member | source | states |
|---|---|---|
| Board.Cells | src/main/kotlin/org/kuxurum/plugins/Routing.kt:217 | the value read off a 3x3 array holds, at every (i, j), the array's cell (i, j) |
| Board.Verdict | src/main/kotlin/org/kuxurum/plugins/Routing.kt:239-285 | `isGameEnded` as a value: the value of the first uniform row, then column, then the centre/corner checks, else null. A verdict is always the value of some cell, and null means no row or column is uniform |
| Board.VerdictOrder | src/main/kotlin/org/kuxurum/plugins/Routing.kt:239-285 | the verdict is null exactly when no row, no column and neither centre/corner pair agrees. Otherwise it is the value of the first uniform row, else of the first uniform column, else field[0][0] when the centre equals it, else field[2][0] |
| Board.IsGameEnded | src/main/kotlin/org/kuxurum/plugins/Routing.kt:239-285 | the nested loops with early returns compute exactly the verdict of the board, without changing it |
| Board.EmptyBoardYieldsZero | src/main/kotlin/org/kuxurum/plugins/Routing.kt:240-249 | an all-empty board yields 0, not null |
| Board.EmptyRowMasksLaterLines | src/main/kotlin/org/kuxurum/plugins/Routing.kt:240-249 | a board with an all-empty row always has a verdict: 0, or the value of an earlier uniform row |
| Board.MainDiagonalIgnoresLastCell | src/main/kotlin/org/kuxurum/plugins/Routing.kt:262-271 | a board with no uniform row or column, whose centre equals field[0][0] but not field[2][2], still wins on the main diagonal with the centre's value |
| Board.AntiDiagonalIgnoresLastCell | src/main/kotlin/org/kuxurum/plugins/Routing.kt:273-282 | a board with no uniform row or column, whose centre differs from field[0][0] (so the main-diagonal check fails) and equals field[2][0] but not field[0][2], still wins on the anti-diagonal with the centre's value |
| Board.VerdictComesFromALine | src/main/kotlin/org/kuxurum/plugins/Routing.kt:239-285 | every non-null verdict is the common value of a uniform row or column, or a value the centre shares with field[0][0] or field[2][0] |
| Board.Put | src/main/kotlin/org/kuxurum/plugins/Routing.kt:176 | writing v at (x, y) sets that cell to v and leaves the other eight unchanged |
| Board.SetCell | src/main/kotlin/org/kuxurum/plugins/Routing.kt:176 | the in-place array write changes the board's value exactly as `Put` does |
| Board.FirstMoveYieldsZero | src/main/kotlin/org/kuxurum/plugins/Routing.kt:240-249 | after any first move on an empty board the verdict is 0 |
| Board.RowZeroBoards | src/main/kotlin/org/kuxurum/plugins/Routing.kt:239-285 | in the row-0 game the first four boards yield 0 and the fifth yields 1 |
| Messages.Tag | src/main/kotlin/org/kuxurum/plugins/WebSocket.kt:87-108 | each variant's serial name selects that variant back |
| Messages.TagsDistinguishVariants | src/main/kotlin/org/kuxurum/plugins/WebSocket.kt:87-108 | two messages share a tag exactly when they are the same variant |
| Messages.ExactlyFiveTags | src/main/kotlin/org/kuxurum/plugins/WebSocket.kt:87-108 | exactly five tags are known: register, game_created, found_second_player, turn_made, game_ended |
| Sessions.HandleFrame | src/main/kotlin/org/kuxurum/plugins/WebSocket.kt:75-79 | `RegisterWs(id)` maps id to the current connection, replacing any earlier entry and keeping every other entry. Any other decoded message changes nothing |
| Sessions.ProcessFrames | src/main/kotlin/org/kuxurum/plugins/WebSocket.kt:65-81 | the frames of one connection, handled in arrival order until the first one that is not a serialised `Message`. Every entry afterwards is this connection or is as before |
| Sessions.RegisteredIds | src/main/kotlin/org/kuxurum/plugins/WebSocket.kt:66-78 | the ids the loop registers before it ends, whatever other messages precede them; each comes from a `register` frame of that connection |
| Sessions.StopsAtUndecodable | src/main/kotlin/org/kuxurum/plugins/WebSocket.kt:66-71 | a frame that is not a serialised `Message` (malformed, or under an unknown serial name) makes the decode throw and ends the loop: nothing after it is handled |
| Sessions.RegistrationAfterUndecodable | src/main/kotlin/org/kuxurum/plugins/WebSocket.kt:65-79 | a registration behind a malformed frame is never made; behind a decoded message of any other kind (`turn_made`, `game_ended`, ...) it is |
| Sessions.ProcessFramesEffect | src/main/kotlin/org/kuxurum/plugins/WebSocket.kt:65-81 | after a connection's frames, the registry holds the old ids plus exactly the registered ones. Those map to this connection; all other entries are as before |
| Sessions.KeysOnlyGrow | src/main/kotlin/org/kuxurum/plugins/WebSocket.kt:65-85 | no entry is ever removed |
| Sessions.ProcessFramesAppend | src/main/kotlin/org/kuxurum/plugins/WebSocket.kt:66 | frames are handled one at a time in arrival order: a prefix of decodable frames, then the rest, is the whole |
| Sessions.LaterRegistrationWins | src/main/kotlin/org/kuxurum/plugins/WebSocket.kt:76-78 | a second registration of the same id on another connection silently replaces the first |
| Games.Send | src/main/kotlin/org/kuxurum/plugins/Routing.kt:135 | a send is delivered, on the recipient's current connection, exactly when the recipient is registered |
| Games.Inv | src/main/kotlin/org/kuxurum/plugins/Routing.kt:124-145 | the invariant of every reachable state: at most one pooled id, games only under pooled ids, boards exactly for started games with player1 the waiting player, cells 0..2. Every board lies under the pooled id |
| Games.CreateGame | src/main/kotlin/org/kuxurum/plugins/Routing.kt:124-145 | `/createGame` on the whole state: sessions are unchanged, at most one message is sent, no board is removed, and a failed cast changes neither games, boards nor sends |
| Games.MakeTurn | src/main/kotlin/org/kuxurum/plugins/Routing.kt:156-196 | `/makeTurn` on the whole state: only boards and sent messages change, no game or board is added or removed, and a 404 or an index failure changes nothing |
| Games.EndEvents | src/main/kotlin/org/kuxurum/plugins/Routing.kt:182-193 | the `GameEnded` sends for a verdict: at most two, only to the two players, and none unless the verdict is 1 or 2 |
| Games.Answer | src/main/kotlin/org/kuxurum/plugins/Routing.kt:182-195 | the answer for a verdict is 200 or none at all, and a verdict of 0 gets none |
| Games.Announce | src/main/kotlin/org/kuxurum/plugins/Routing.kt:178-195 | what a played turn sends and answers: at most four messages, each to one of the two players, and an answer of 200 or none |
| Games.MarkOf | src/main/kotlin/org/kuxurum/plugins/Routing.kt:167-174 | for a seated player, the mark is 1 exactly for player1 (compared first); a mark of 2 means the player is player2 and not player1 |
| Games.PlayedTurn | src/main/kotlin/org/kuxurum/plugins/Routing.kt:176-195 | a seated player's in-range turn stores the board with the mark written, and appends the announcement of that board to the sent messages |
| Games.InitialInv | src/main/kotlin/org/kuxurum/plugins/Routing.kt:235-237 | the start-up state satisfies the invariant |
| Games.AtMostOneGame | src/main/kotlin/org/kuxurum/plugins/Routing.kt:128-132 | in every reachable state there is at most one game and at most one board |
| Games.CreateGamePreservesInv | src/main/kotlin/org/kuxurum/plugins/Routing.kt:124-145 | `/createGame` keeps the invariant: one pooled id, games keyed by it, boards exactly for started games, player1 the waiting player, cells 0..2 |
| Games.MakeTurnPreservesInv | src/main/kotlin/org/kuxurum/plugins/Routing.kt:156-196 | `/makeTurn` keeps the invariant |
| Games.PoolNeverShrinks | src/main/kotlin/org/kuxurum/plugins/Routing.kt:128-132 | the pool gains the fresh id only when empty and is never shrunk, so every call selects the same first id |
| Games.CreateOnEmptyPool | src/main/kotlin/org/kuxurum/plugins/Routing.kt:128-144 | with an empty pool, one fresh id is pooled and a waiting game is stored and returned under it. The boards are unchanged, and `GameCreated` carrying the player's id is sent only to a registered player |
| Games.JoinWaitingGame | src/main/kotlin/org/kuxurum/plugins/Routing.kt:133-144 | joining a waiting game sends `FoundSecondPlayer(joiner)` to the waiting player if registered. It stores an all-zero board with player1 the waiting player and player2 the joiner, and marks the game in progress under the waiting player's id and name. Nothing else changes |
| Games.JoinStartedGameFails | src/main/kotlin/org/kuxurum/plugins/Routing.kt:133-134 | joining a game in progress fails on the cast, with no send and no change |
| Games.ThreeJoins | src/main/kotlin/org/kuxurum/plugins/Routing.kt:124-145 | from start-up: the first join waits, the second starts the game, the third fails and changes nothing |
| Games.MakeTurnNotFound | src/main/kotlin/org/kuxurum/plugins/Routing.kt:162-174 | an unknown game, or a player in neither seat, gets 404 with no change and no message |
| Games.MakeTurnOutOfRange | src/main/kotlin/org/kuxurum/plugins/Routing.kt:176 | coordinates outside 0..2 throw before any write or send |
| Games.MakeTurnWritesOneCell | src/main/kotlin/org/kuxurum/plugins/Routing.kt:167-176 | a turn writes the player's mark at (x, y), overwriting what was there, and leaves the other cells, the other maps and the other boards unchanged |
| Games.MakeTurnEvents | src/main/kotlin/org/kuxurum/plugins/Routing.kt:178-195 | both players get `TurnMade` (player1 first). For a verdict of 1 or 2, both then get `GameEnded` naming that player and the answer is 200. For null the answer is 200 with nothing more. For any other verdict there is no answer |
| Games.NoResponseMeansZeroVerdict | src/main/kotlin/org/kuxurum/plugins/Routing.kt:182-187 | in a reachable state a turn goes unanswered exactly when the verdict is 0 |
| Games.VerdictIsAMark | src/main/kotlin/org/kuxurum/plugins/Routing.kt:239-285 | on a board holding only 0, 1 and 2, the verdict is one of them |
| Games.FirstTurnGetsNoResponse | src/main/kotlin/org/kuxurum/plugins/Routing.kt:176-195 | the first turn on a new game sends only the two `TurnMade` messages and gets no answer |
| Games.TurnOnSoleBoard | src/main/kotlin/org/kuxurum/plugins/Routing.kt:167-195 | for any two seat ids, a seated player's turn on the only board stores the board with that seat's mark written, sends its announcement, and answers according to its verdict |
| Games.RowZeroFinish | src/main/kotlin/org/kuxurum/plugins/Routing.kt:176-195 | completing row 0 sends the board and then `GameEnded(p1)` to both players, and answers 200 |
| GameServer.ActualGame.constructor | src/main/kotlin/org/kuxurum/plugins/Routing.kt:136 | a new board is a fresh all-zero 3x3 array with the two player ids |
| GameServer.GameServer.constructor | src/main/kotlin/org/kuxurum/plugins/Routing.kt:235-237 | the maps start empty, which is the initial state, and the invariant holds |
| GameServer.GameServer.SendSerialized | src/main/kotlin/org/kuxurum/plugins/Routing.kt:135 | a send appends a delivery to the log exactly when the recipient is registered |
| GameServer.GameServer.Receive | src/main/kotlin/org/kuxurum/plugins/WebSocket.kt:75-79 | one decoded message updates `sessions` as `HandleFrame` says and nothing else |
| GameServer.GameServer.Connect | src/main/kotlin/org/kuxurum/plugins/WebSocket.kt:65-81 | the frame loop updates `sessions` as `ProcessFrames` says and nothing else, and reports a throw exactly when some frame is not a serialised `Message` |
| GameServer.GameServer.GetGameStatus | src/main/kotlin/org/kuxurum/plugins/Routing.kt:147-154 | the stored game, or 404 when there is none |
| GameServer.GameServer.CreateGame | src/main/kotlin/org/kuxurum/plugins/Routing.kt:124-145 | the handler leaves exactly the state and result `Games.CreateGame` gives, and keeps the invariant |
| GameServer.GameServer.WaitForSecondPlayer | src/main/kotlin/org/kuxurum/plugins/Routing.kt:138-144 | sends `GameCreated` and stores the waiting game |
| GameServer.GameServer.JoinGame | src/main/kotlin/org/kuxurum/plugins/Routing.kt:133-144 | sends `FoundSecondPlayer`, adds the board and stores the started game, nothing else |
| GameServer.GameServer.AddBoard | src/main/kotlin/org/kuxurum/plugins/Routing.kt:136 | a fresh all-zero board for the waiting player and the joiner is stored under the game id |
| GameServer.GameServer.MakeTurn | src/main/kotlin/org/kuxurum/plugins/Routing.kt:156-196 | the handler leaves exactly the state and result `Games.MakeTurn` gives, and keeps the invariant |
| GameServer.GameServer.PlayTurn | src/main/kotlin/org/kuxurum/plugins/Routing.kt:176-195 | the write and the announcement together are the played case of `Games.MakeTurn` |
| GameServer.GameServer.WriteCell | src/main/kotlin/org/kuxurum/plugins/Routing.kt:176 | the in-place write changes only that game's board, as `Put` says |
| GameServer.GameServer.AnnounceTurn | src/main/kotlin/org/kuxurum/plugins/Routing.kt:178-195 | the sends and the answer are those of `Games.Announce` for the written board |
| GameServer.GameServer.AnnounceVerdict | src/main/kotlin/org/kuxurum/plugins/Routing.kt:182-195 | the `GameEnded` sends and the answer for a verdict |
| Articles.Inc32 | src/main/kotlin/org/kuxurum/models/Article.kt:17 | `getAndIncrement` adds one, and wraps from `Int.MAX_VALUE` to `Int.MIN_VALUE` |
| Articles.Wrap32 | src/main/kotlin/org/kuxurum/models/Article.kt:17 | reduction into the `Int` range: congruent to its input modulo 2^32, and the identity on `Int` values |
| Articles.IdsFrom | src/main/kotlin/org/kuxurum/models/Article.kt:13-20 | the ids that n successive `newEntry` calls hand out from a counter value, one per call |
| Articles.IdsFromWrap | src/main/kotlin/org/kuxurum/models/Article.kt:17 | the i-th id handed out is the start value plus i, wrapped to 32 bits |
| Articles.IdsIncreaseWithoutWrap | src/main/kotlin/org/kuxurum/models/Article.kt:17 | while the counter does not pass `Int.MAX_VALUE`, successive ids strictly increase |
| Articles.IdsDistinctWithinOneCycle | src/main/kotlin/org/kuxurum/models/Article.kt:17 | any 2^32 successive ids are pairwise distinct, even across the wrap |
| Articles.IdsWrapAtMax | src/main/kotlin/org/kuxurum/models/Article.kt:12-17 | the id after `Int.MAX_VALUE` is `Int.MIN_VALUE` |
| Articles.Article.constructor | src/main/kotlin/org/kuxurum/models/Article.kt:6-10 | an article holds the given id, title and body; the id is a constant, title and body are fields |
| Articles.Snapshot | src/main/kotlin/org/kuxurum/models/Article.kt:6-10 | the list of article objects read back as values, one per object, in list order |
| Articles.FirstWithId | src/main/kotlin/org/kuxurum/plugins/Routing.kt:53-61 | `find` gives the first position with the id, or none exactly when no entry has it |
| Articles.UpdateFirst | src/main/kotlin/org/kuxurum/plugins/Routing.kt:77-82 | the full update: the list keeps its length and every entry keeps its id |
| Articles.UpdateFirstAtFound | src/main/kotlin/org/kuxurum/plugins/Routing.kt:77-82 | the update rewrites exactly the entry `find` locates, and changes nothing when there is none |
| Articles.UpdateFirstIdempotent | src/main/kotlin/org/kuxurum/plugins/Routing.kt:77-82 | updating twice with the same values is updating once |
| Articles.UpdateAction | src/main/kotlin/org/kuxurum/plugins/Routing.kt:76-82 | the update action with optional title and body: it redirects exactly when the article is found and both fields are present. A missing article or title changes nothing, and ids and length are always kept |
| Articles.UpdateActionEffect | src/main/kotlin/org/kuxurum/plugins/Routing.kt:78-80 | with both fields it is the full update. With the body missing, the found article gets the new title and keeps its old body, and the route throws |
| Articles.RemoveIf | src/main/kotlin/org/kuxurum/plugins/Routing.kt:85 | `removeIf`: never longer than the list, and no kept entry has the id |
| Articles.RemoveIfMembers | src/main/kotlin/org/kuxurum/plugins/Routing.kt:84-87 | an entry survives `removeIf` exactly when it was present and has another id |
| Articles.RemoveIfAppend | src/main/kotlin/org/kuxurum/plugins/Routing.kt:85 | `removeIf` filters piecewise: on a concatenation it is the filter of each part, concatenated, so survivors keep their order and multiplicity |
| Articles.RemoveIfKeepsOthers | src/main/kotlin/org/kuxurum/plugins/Routing.kt:84-87 | with no entry carrying the id, the list is unchanged |
| Articles.RemoveIfIdempotent | src/main/kotlin/org/kuxurum/plugins/Routing.kt:84-87 | deleting twice is deleting once |
| Articles.PostKeepsIdsDistinct | src/main/kotlin/org/kuxurum/plugins/Routing.kt:44-51 | before the wrap, a post keeps stored ids distinct and below the counter, and `find` then locates the new article |
| Articles.FindAppended | src/main/kotlin/org/kuxurum/plugins/Routing.kt:53-61 | an appended entry with an unused id is the one `find` returns |
| Articles.EditsKeepIdsDistinct | src/main/kotlin/org/kuxurum/plugins/Routing.kt:73-89 | the update action, partial or full, and delete keep stored ids distinct and below the counter |
| Articles.RemoveIfKeepsIdsBelow | src/main/kotlin/org/kuxurum/plugins/Routing.kt:84-87 | `removeIf` keeps stored ids distinct and below the counter |
| Articles.ArticleStore.constructor | src/main/kotlin/org/kuxurum/models/Article.kt:24-29 | the list holds exactly one article, id 0 with the seeded title and body, and the counter is 1 |
| Articles.ArticleStore.NewEntry | src/main/kotlin/org/kuxurum/models/Article.kt:13-20 | a fresh article whose id is the counter's old value, with title and body copied unchanged. The counter advances by one (wrapping) |
| Articles.ArticleStore.Post | src/main/kotlin/org/kuxurum/plugins/Routing.kt:44-51 | the list gains exactly the new entry at its end, and the returned id is the counter's old value |
| Articles.ArticleStore.Find | src/main/kotlin/org/kuxurum/plugins/Routing.kt:53-61 | returns the object at the first position with the id, or null when no article has it |
| Articles.ArticleStore.Update | src/main/kotlin/org/kuxurum/plugins/Routing.kt:77-82 | finds the article, assigns the title, then the body, in place. The contents and outcome are exactly `UpdateAction`'s, and the list itself is unchanged |
| Articles.ArticleStore.Assign | src/main/kotlin/org/kuxurum/plugins/Routing.kt:79-81 | the two assignments: the title is always written; the body only when present, else the route throws |
| Articles.ArticleStore.SetTitle | src/main/kotlin/org/kuxurum/plugins/Routing.kt:79 | assigning the title changes only that article's title |
| Articles.ArticleStore.SetBody | src/main/kotlin/org/kuxurum/plugins/Routing.kt:80 | assigning the body changes only that article's body |
| Articles.ArticleStore.Survivors | src/main/kotlin/org/kuxurum/plugins/Routing.kt:84-87 | the articles with another id, in list order |
| Articles.ArticleStore.Delete | src/main/kotlin/org/kuxurum/plugins/Routing.kt:84-87 | the list becomes exactly the entries with another id, in order |
| Articles.ArticleStore.EditById | src/main/kotlin/org/kuxurum/plugins/Routing.kt:73-89 | a missing `_action` throws with no change. "update" runs the update action, "delete" deletes and redirects, and anything else changes nothing and sends no response. The counter is untouched |
| Tasks.Ordinal | src/main/kotlin/org/kuxurum/models/Task.kt:10-12 | each priority sits at its ordinal in the declaration order |
| Tasks.Name | src/main/kotlin/org/kuxurum/models/Task.kt:10-12 | a priority renders as a non-empty name without line breaks |
| Tasks.PriorityValues | src/main/kotlin/org/kuxurum/models/Task.kt:10-12 | exactly four values, Low, Medium, High, Vital in that order, with distinct names |
| Tasks.Lines | src/main/kotlin/org/kuxurum/models/Task.kt:24 | splitting gives at least one line, none containing a line break |
| Tasks.Join | src/main/kotlin/org/kuxurum/models/Task.kt:29 | `joinToString` with a separator: an empty list gives "", and break-free pieces with a break-free separator give a break-free string (the round trip with `Lines` is `Tasks.JoinLines`/`Tasks.LinesJoin`) |
| Tasks.JoinLines | src/main/kotlin/org/kuxurum/models/Task.kt:24 | joining the lines of a string with "\n" gives the string back |
| Tasks.LinesJoin | src/main/kotlin/org/kuxurum/models/Task.kt:28-33 | splitting a join of break-free lines gives the lines back, in order |
| Tasks.JoinBreaks | src/main/kotlin/org/kuxurum/models/Task.kt:29 | a join of n break-free lines holds exactly n - 1 line breaks |
| Tasks.IndentWidth | src/main/kotlin/org/kuxurum/models/Task.kt:24 | the indentation is the longest whitespace prefix |
| Tasks.MinIndentOf | src/main/kotlin/org/kuxurum/models/Task.kt:24 | the smallest indentation among non-blank lines, or none exactly when every line is blank |
| Tasks.Reindent | src/main/kotlin/org/kuxurum/models/Task.kt:24 | the lines `trimIndent` keeps: a blank first and a blank last line dropped, each other line cut by the indent; at most two lines fewer, and break-free lines stay break-free |
| Tasks.TrimIndent | src/main/kotlin/org/kuxurum/models/Task.kt:24 | `trimIndent`: when any line is kept, the lines of the result are exactly the re-indented lines |
| Tasks.TrimIndentKeepsFlushText | src/main/kotlin/org/kuxurum/models/Task.kt:24 | text with a non-blank unindented line and no blank first or last line is left unchanged |
| Tasks.RowTemplate | src/main/kotlin/org/kuxurum/models/Task.kt:22-24 | the raw template of a break-free row has three lines: empty, the row indented by eight spaces, and four spaces |
| Tasks.TrimRowTemplate | src/main/kotlin/org/kuxurum/models/Task.kt:22-24 | `trimIndent` reduces the template to the row itself |
| Tasks.Row | src/main/kotlin/org/kuxurum/models/Task.kt:23 | the interpolated row starts with a non-whitespace character, and has no line break when the name and description have none |
| Tasks.TaskAsRow | src/main/kotlin/org/kuxurum/models/Task.kt:21-25 | a task with break-free fields renders as exactly its row `<tr><td>name</td><td>description</td><td>priority</td></tr>` |
| Tasks.Rows | src/main/kotlin/org/kuxurum/models/Task.kt:32 | one rendered row per task, in list order |
| Tasks.AsTable | src/main/kotlin/org/kuxurum/models/Task.kt:27-34 | the table always starts with `<table rules="all">` and ends with `</table>` |
| Tasks.AsTableEmpty | src/main/kotlin/org/kuxurum/models/Task.kt:28-31 | an empty list renders as `<table rules="all"></table>` |
| Tasks.AsTableRows | src/main/kotlin/org/kuxurum/models/Task.kt:27-34 | for n >= 1 tasks with break-free fields, the text between the tags splits into exactly the n rows in list order, with n - 1 line breaks |
| Tasks.TwoRowTable | src/main/kotlin/org/kuxurum/models/Task.kt:27-34 | two tasks render as the first row, one line break, the second row, between the tags |
| Tasks.StorageTable | src/main/kotlin/org/kuxurum/models/Task.kt:5-8 | the seeded storage renders as the rows of task1 and task2 separated by one line break |

## Left out

- Ktor plumbing is reduced to explicit results:
  - the routing itself;
  - `receiveParameters`;
  - `getOrFail` and `toInt` on the path id and on the `/createGame`, `/makeTurn` and create-article parameters: these all throw before any state change. The update action's missing title or body and a missing `_action` are modelled, as `Articles.EditOutcome.MissingParameter`;
  - the HTTP status codes, modelled as the `TurnResult` and `JoinResult` values.
- The JSON wire encoding and the polymorphic serializer registration belong to the serialisation library. `Message` is a datatype, and only its tags are modelled. `sendSerialized` appends to a ghost log of deliveries.
- The connection object becomes an abstract number, `Conn`.
- `UUID.randomUUID()` is a parameter (`freshId`) of `/createGame`.
- The server handles concurrent requests over unsynchronised maps. The model processes one request at a time.
- `ActualGame.equals`/`hashCode` are not needed by the handlers.
- `ActualGame.field` is an `array2<int>`. The Kotlin `Array<IntArray>` has rows that are never replaced, so the two agree. The model does not capture aliasing of the `TurnMade` payload with the live board (the payload is the board's value at send time).
- Not modelled:
  - the `/tasks` WebSocket demo with `delay`;
  - the H2/Exposed database and the `Articles` table;
  - the customer and order routes;
  - the FreeMarker pages;
  - the `/tasks` and `/tasks/byPriority` HTTP routes.
- Tasks.TrimIndent: lines are split on "\n" only. Kotlin's `lines()` also splits on "\r\n" and "\r". Whitespace is ' ', '\t' and '\r' only, where Kotlin's `isWhitespace` recognises every Unicode space.
- Tasks.TaskAsRow: stated only for names and descriptions without line breaks, because `trimIndent` runs after interpolation and would re-indent the text of a multi-line field.
- Tasks.StorageTable: states the rendered table through `Row` of the two seeded tasks rather than as one literal string.
- Articles.PostKeepsIdsDistinct: holds only while the counter stays below `Int.MAX_VALUE`. After the wrap, `newEntry` hands out negative ids and, after 2^32 calls, ids already in use.
- Games.RowZeroFinish: the row-0 game is proved as its boards (`Board.RowZeroBoards`) plus its final turn, not as one chain of five handler calls.
- Sessions.ProcessFrames: the `println` of each decoded message is left out. A connection that has closed stays in `sessions`. In the source, a later `sendSerialized` to it throws part-way through a handler; the model logs the delivery instead (`Games.Send`).
- Tasks.Join: has no contract of its own beyond the empty and break-free cases; its round trip with `Lines` is stated by `Tasks.JoinLines` and `Tasks.LinesJoin`.
