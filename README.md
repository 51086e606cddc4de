# open-minesweeper: the room server, modelled in Dafny

open-minesweeper is a cooperative minesweeper played in shared rooms over a
WebSocket relay. This project models the relay's core:

- one room, `Game` (server/game.js);
- the room registry, `GameManager` (server/gameManager.js);
- the command dispatcher of server/index.js, `Server`: `broadcastToGame`,
  every case of the message `switch`, and the `close` handler.

A room has a roster with a host and a `lobby -> playing -> won | lost` phase.
Its board is laid out lazily on the first reveal, with no mine in the 3x3 block
around the clicked cell. A reveal floods outwards from cells that show 0. Flags
are toggled, and clients see a masked projection of the board. The registry
does the following:

- hands out six-character codes from a 32-letter alphabet, retrying on
  collision;
- stores rooms by code;
- sweeps rooms idle for over an hour;
- reports statistics.

The dispatcher remembers, per connection, the player and room it joined. It
keeps the `clients` table and sends each command's answer back:

- to the sender's socket;
- or to the open sockets of the room.

Files and modules (one module each):

| file | module | contents |
|---|---|---|
| wrappers.dfy | `Wrappers` | `Option`, `Result`, `Outcome` (the source's thrown errors become `Failure`/`Fail`) |
| board.dfy | `Board` | the grid as values and the facts the rest is stated in: cell sets and their sizes, the 3x3 block, the safe zone, the adjacent-mine count, the row-major mine list |
| games.dfy | `Games` | class `Game` over an `array2<Cell>` board, with a ghost mine set tying the array to `Board`'s terms |
| registry.dfy | `Registry` | class `GameManager` with `games: map<string, Game>` |
| server.dfy | `Server` | class `Server` with the `clients` table, per-connection sessions and the open sockets; each handler returns the list of events it sends |

Invariants the methods keep:

- **`Game.Valid`**:
  - the colours on the roster are distinct;
  - revealed and flagged cells are disjoint board cells;
  - with no board, nothing is revealed;
  - once the board exists, it holds exactly `settings.mines` mines, every
    safe cell carries its true adjacent-mine count, and no revealed cell is
    a mine.
- **`GameManager.Valid`**:
  - every room is stored under its own well-formed code and is valid;
  - its host is on its roster;
  - its settings are playable;
  - no two codes share a room or a board.
- **`Server.Valid`**: a connection knows its player exactly when it knows its
  room, and owns that player's table entry.

Behaviour of the code that the model keeps, although a reader might expect
otherwise:

- `addPlayer` refuses any colour already on the roster, even one held by the
  same id (server/game.js:23).
- `restart` is open to every player in the room; only the game's phase is
  checked (server/index.js:191-207).
- `start` checks the host and the player count, not the room's phase, so a
  running or finished game can be started again (server/index.js:106-126).
- The message `switch` has no `emote` case (server/index.js:47-231), so such a
  message gets no answer.

## Model

| member | source | states |
|---|---|---|
| Board.CellsCard | server/game.js:188 | a width-by-height board has width*height cells |
| Board.WinCountMeansAllSafe | server/game.js:187-194 | for revealed safe cells, "revealed count equals width*height minus mines" holds exactly when every safe cell is revealed |
| Board.Forbidden | server/game.js:74-83 | the safe zone is exactly the in-bounds cells of the 3x3 block around the click |
| Board.ForbiddenCard | server/game.js:74-83 | the safe zone of an in-bounds click has at most min(w,3)*min(h,3) cells |
| Board.PlayableAlwaysPlaceable | server/game.js:85-95 | under playable settings every in-bounds first click leaves at least `mines` eligible cells, so the placement loop can finish |
| Board.ClientCheckAdmitsHang | server/game.js:85-95 | the admitted settings 3x3 with 1 mine are not playable: a centre click leaves no eligible cell, so the loop never ends |
| Board.AroundExact | server/game.js:102-110 | the offsets dy, dx in -1..1 visit nine distinct cells, exactly the cells near (x, y), the centre included |
| Board.AroundCountStep | server/game.js:102-110 | one more offset of the count loop adds one exactly when that cell is a mine |
| Board.NeighbourCountIsMinesNear | server/game.js:101-111 | the count is the number of mines in the 3x3 block |
| Board.NeighbourCountBound | server/game.js:101-111 | a safe cell's count is at most 8 |
| Board.ZeroCountIffNoMineNear | server/game.js:169 | a count of 0 means exactly that no mine lies next to the cell |
| Board.RowMinesExact | server/game.js:144-148 | one row's scan lists exactly that row's mines, left to right |
| Board.MinesRowMajorExact | server/game.js:143-149 | the loss scan lists every mine exactly once, in row-major order, and nothing else |
| Games.Without | server/game.js:33 | the filtered roster keeps exactly the entries with another id, and is no longer |
| Games.WithoutAbsent | server/game.js:33 | removing an id that is not on the roster leaves it unchanged |
| Games.WithoutKeepsColorsDistinct | server/game.js:33 | removal keeps the colours pairwise distinct |
| Games.NextHostRemains | server/game.js:36-39 | after a departure that leaves someone, the host is on the remaining roster and is not the one who left |
| Games.ToggleFlips | server/game.js:209-222 | on an unrevealed cell, a toggle flips exactly that cell's flag, reports its new state and changes the count by one |
| Games.ToggleTwice | server/game.js:200-223 | toggling the same cell twice restores the flags |
| Games.ToggleKeepsDisjoint | server/game.js:209-212 | flags never land on revealed cells |
| Games.DistinctCellsPairwise | server/game.js:155-166 | the reveal delta never lists a cell twice, and it has one coordinate per entry |
| Games.MaskHidesUnrevealed | server/game.js:238-249 | an unrevealed cell's projection does not depend on the cell (no mine leaks) |
| Games.Blank | server/game.js:65-71 | a fresh height-by-width board of safe, unrevealed cells with count 0 |
| Games.Game.constructor | server/game.js:4-15 | the host is the only player and the host; the room is in the lobby with no board and no marks; the room is valid |
| Games.Game.AddPlayer | server/game.js:17-30 | refuses with "Game is full" at capacity, then with "Color already taken"; a refusal changes nothing; otherwise appends the player and touches the room; succeeds exactly when neither refusal applies |
| Games.Game.RemovePlayer | server/game.js:32-42 | the roster loses every entry of the id; the host passes to the first remaining player if the host left; the result is true exactly when the roster is now empty |
| Games.Game.TransferHost | server/game.js:44-50 | the first player becomes host and is returned; on an empty roster nothing changes and nothing is returned |
| Games.Game.StartGame | server/game.js:52-59 | refuses with fewer than two players, changing nothing; otherwise playing, with start and activity time `now` |
| Games.Game.CountAdjacent | server/game.js:101-111 | the loop's count equals the number of mines around the cell |
| Games.Game.SafeZone | server/game.js:74-83 | the loop builds exactly the safe zone |
| Games.Game.FillCounts | server/game.js:97-114 | every safe cell gets its adjacent-mine count; mines and every other field stay |
| Games.Game.PlantMine | server/game.js:87-94 | an accepted draw adds one mine on an eligible cell and keeps every earlier mine |
| Games.Game.PlaceMines | server/game.js:85-95 | exactly `settings.mines` mines, all outside the safe zone |
| Games.Game.GenerateBoard | server/game.js:61-115 | a fresh, valid board with the configured mines, none in the click's safe zone, correct counts and no revealer |
| Games.Game.ListMines | server/game.js:143-149 | the loss delta is every mine in row-major order, each shown as a mine |
| Games.Game.EnqueueNeighbours | server/game.js:170-182 | queues, once each, exactly the unseen, unflagged in-bounds neighbours, and marks them seen |
| Games.Game.CountsGiveZeroMeansClear | server/game.js:97-114 | with correct counts, a safe cell showing 0 has no mine around it |
| Games.Game.SearchStarts | server/game.js:155-156 | the search state holding only the clicked cell meets the search invariant |
| Games.Game.SearchStep | server/game.js:158-184 | one pop of the queue keeps the search invariant and makes progress |
| Games.Game.Visit | server/game.js:162-166 | revealing a popped hidden cell keeps the search invariant |
| Games.Game.ExpandZero | server/game.js:169-182 | queueing the neighbours of a revealed 0 keeps the search invariant and closes that cell |
| Games.Game.Spread | server/game.js:155-185 | the flood fill reveals distinct hidden safe cells starting at the click, each with its count; every later cell neighbours an earlier 0; every unflagged neighbour of a revealed 0 ends up revealed |
| Games.Game.Search | server/game.js:155-185 | the same flood fill, stated in terms of the mines |
| Games.Game.BoardToMines | server/game.js:164-166 | cells read off safe board cells hold their true mine counts and are not mines |
| Games.Game.Stamp | server/game.js:165 | the board stays the same array; every listed cell now records the player, and every other cell is as before |
| Games.Game.StampedCells | server/game.js:165 | after stamping, each listed cell's revealer is the player |
| Games.Game.Uncover | server/game.js:155-185 | the flood fill, committed to the revealed set, keeps the room valid |
| Games.Game.Commit | server/game.js:163 | the revealed set becomes the search's set and the room stays valid |
| Games.Game.FloodFill | server/game.js:155-185 | the flood fill; the board stays the same array, the revealed cells now record the player, and no other cell changes |
| Games.Game.Reveal | server/game.js:117-198 | off-board cells fail with "Invalid coordinates"; a revealed or flagged cell gives an empty, not-over result and changes neither the room nor its board; the first reveal lays out a board safe around the click, on which exactly the newly revealed cells record the player; a mine loses, lists every mine and leaves an existing board alone; otherwise a flood fill that changes only the revealed cells' revealer; the game is won exactly when every safe cell is revealed |
| Games.Game.Act | server/game.js:131-197 | on a hidden, unflagged cell: the board exists afterwards (laid out safe around the click on the first reveal); a mine is a loss that leaves an existing board untouched, otherwise a flood fill with the win test in which only the revealed cells' revealer changes; on a fresh board no other cell has a revealer |
| Games.Game.Play | server/game.js:136-197 | a mine loses and leaves the board untouched; otherwise flood fill and win test, changing only the revealed cells' revealer |
| Games.Game.HitMine | server/game.js:139-152 | lost, game over, not won, triggered by the player, every mine listed |
| Games.Game.RevealSafe | server/game.js:154-197 | flood fill, then over and won exactly when every safe cell is revealed; the board stays the same array and only the revealed cells' revealer changes |
| Games.Game.WinCheck | server/game.js:187-197 | won, and the phase `won`, exactly when the revealed cells are all the safe cells |
| Games.Game.ToggleFlag | server/game.js:200-223 | off-board fails with "Invalid coordinates" and changes nothing; a revealed cell reports false and changes nothing; otherwise the flag flips, its new state is reported and the room is touched |
| Games.Game.GetMaskedState | server/game.js:225-255 | nothing exactly when there is no board; otherwise a height-by-width grid of each cell's projection (value only on revealed cells, else flagged or hidden) |
| Games.Game.MaskShowsOnlySafeRevealed | server/game.js:238-249 | in a valid room the projection shows exactly the revealed cells, never a mine, each with its true count, and marks exactly the flagged ones |
| Games.Game.Reset | server/game.js:257-264 | no board, no marks, playing, start time `now`; roster and host kept |
| Games.Game.ReturnToLobby | server/index.js:218-222 | lobby, no board, no marks, no start time; roster, host and activity time kept |
| Games.Game.FlagsRemaining | server/game.js:274 | mines minus flags, negative exactly when more cells are flagged than there are mines |
| Games.Game.ToView | server/game.js:266-277 | the public view: the room's fields, the masked board as `GetMaskedState` gives it, the flags remaining and the elapsed seconds |
| Games.ElapsedSeconds | server/game.js:275 | 0 before the start, else the whole seconds elapsed (floor of the milliseconds over 1000) |
| Registry.CodeAvoidsLookalikes | server/gameManager.js:10 | a code never contains I, O, 0 or 1 |
| Registry.Round | server/gameManager.js:13-16 | six draws spell a well-formed code |
| Registry.GameManager.SpellCode | server/gameManager.js:13-16 | the character loop spells the round's code |
| Registry.GameManager.GenerateCode | server/gameManager.js:9-19 | returns the first round of draws whose code no room uses; every earlier round collided |
| Registry.NewRoom | server/gameManager.js:23 | a new room with the host as only player, valid beside the stored rooms |
| Registry.GameManager.constructor | server/gameManager.js:4-7 | an empty, valid registry |
| Registry.GameManager.CreateGame | server/gameManager.js:21-26 | stores a fresh lobby room under a new code and changes no other entry |
| Registry.GameManager.GetGame | server/gameManager.js:28-30 | a room exactly when the code is stored, and it carries that code |
| Registry.GameManager.DeleteGame | server/gameManager.js:32-34 | removes that code's entry and nothing else |
| Registry.GameManager.Leave | server/index.js:240-246 | `removePlayer`, then `deleteGame` exactly when the roster became empty; the room's activity time becomes `now`, its phase, board, marks and start time stay; the registry stays valid |
| Registry.Kept | server/gameManager.js:39-47 | the sweep keeps exactly the rooms idle for at most an hour, unchanged |
| Registry.GameManager.Sweep | server/gameManager.js:38-48 | one sweep leaves exactly the kept rooms, and the registry stays valid |
| Registry.SweepBoundary | server/gameManager.js:43 | idle for exactly an hour survives; one millisecond more is swept |
| Registry.SweepIdempotent | server/gameManager.js:39-47 | a second sweep at the same time removes nothing more |
| Registry.GameManager.GetStats | server/gameManager.js:51-57 | the numbers of rooms, of playing rooms and of lobby rooms; the last two never exceed the first |
| Server.AudienceIsRoom | server/index.js:21-29 | a broadcast reaches exactly the open sockets of the room's table entries, never the excluded player |
| Server.Farewell | server/index.js:244-260 | nothing once the room is empty, else `playerLeft` then `hostChanged`, to the room |
| Server.CarriedRevealEvents | server/index.js:133-153 | the events of a reveal carry its whole result: decoding them gives the result back |
| Server.RevealStep | server/game.js:117-198 | `reveal` on a playing room under the server's settings invariant: off-board cells fail and a revealed or flagged cell is a no-op, both changing nothing; otherwise the activity time is `now`; the first click of a round is never a mine and lays out a board whose mines avoid the click's safe zone; over exactly when play ended; a loss lists every mine and leaves the board alone; otherwise the reported cells are a flood fill from the click (distinct, disjoint from the earlier reveals, each with its true adjacent-mine count, closed under unflagged neighbours of 0s), they are exactly the newly revealed cells and the only ones whose revealer changes; a win reveals every safe cell; roster, host, flags and start time stay |
| Server.RevealShown | server/index.js:134-148 | the same, plus, once the game is over, the masked board of the room after the reveal |
| Server.Server.constructor | server/index.js:18 | no table entries, sessions or open sockets |
| Server.Server.Current | server/index.js:107 | the room the remembered code names, if it is stored |
| Server.Server.BroadcastToGame | server/index.js:21-29 | the loop collects exactly the audience |
| Server.Server.Connect | server/index.js:39-41 | a new connection, whose id no session or table entry uses, is open and remembers no player or room |
| Server.Server.Register | server/index.js:55-57 | the connection remembers the player and room; the table maps the player to it |
| Server.Server.OnCreate | server/index.js:48-68 | a fresh room under a new code, with the requested settings, hosted by the sender under the new id, in the lobby with no board, no marks, no start time and activity time `now`; the sender is registered; the reply is `created` with the code, the id and the room's view |
| Server.Server.StartIn | server/game.js:52-59 | `startGame` on the stored room, keeping every invariant: fewer than two players is refused and changes nothing; otherwise playing from `now`; roster, host, board, marks and mines stay; the view shows the room |
| Server.Server.OnStart | server/index.js:106-126 | without a room, nothing; a non-host gets "Only host can start" and fewer than two players gets the start error, both changing neither the room nor its board; otherwise playing from `now` with roster, host, board and marks kept, and `gameStarted` with the room's view goes to the room |
| Server.Server.JoinIn | server/game.js:17-30 | `addPlayer` on the stored room, keeping every invariant: the two refusals change nothing; otherwise the player is appended and the activity time is `now`; host, phase, board, marks and start time stay |
| Server.Server.OnJoin | server/index.js:70-104 | unknown code: "Game not found"; full or taken colour: that error, and nothing changes; otherwise the player joins with activity time `now`, host, phase, board and marks kept, is registered, gets `joined` with the room's view, and the others hear `playerJoined` |
| Server.Server.RevealIn | server/index.js:133-153 | `reveal` on the stored room, keeping every invariant, with everything `Server.RevealStep` states about the room; the events give back the reveal's result: the error for the sender, or `revealed` with the new cells to the room, then `gameOver` with the masked board of the room exactly when play ended |
| Server.Server.OnReveal | server/index.js:128-155 | ignored unless playing, changing neither the room nor its board; otherwise what `Server.Server.RevealIn` states of the connection's room and player |
| Server.Server.FlagIn | server/index.js:162-170 | `toggleFlag` on the stored room and the flags remaining, keeping every invariant; the activity time becomes `now` exactly when an on-board, unrevealed cell was toggled |
| Server.Server.OnFlag | server/index.js:157-176 | ignored unless playing, changing neither the room nor its board; off-board cells get the error; otherwise `flagged` to the room with the toggle's reply and the flags remaining; phase, revealed cells, roster, host, board and start time stay, and the activity time moves only on a toggle |
| Server.Server.OnCursor | server/index.js:178-189 | nothing before joining; otherwise the position goes to the rest of the room, excluding the sender |
| Server.Server.RestartIn | server/game.js:257-264 | `reset` on the stored room, keeping every invariant |
| Server.Server.OnRestart | server/index.js:191-207 | a room that is not won or lost gets "Game is still in progress", changing neither the room nor its board; otherwise a new round from `now` (no board, no marks, activity time `now`), and `gameStarted` goes to the room |
| Server.Server.LobbyIn | server/index.js:218-227 | the `toLobby` field updates on the stored room, keeping every invariant and the activity time |
| Server.Server.OnToLobby | server/index.js:209-230 | a non-host gets "Only host can return to lobby", changing neither the room nor its board; otherwise back to the lobby with the roster and activity time kept, and `toLobby` goes to the room |
| Server.Server.Forget | server/index.js:264 | the connection and its player's table entry go |
| Server.Server.Depart | server/index.js:240-261 | the player leaves the room, whose activity time becomes `now` while phase, board, marks and start time stay; an emptied room is deleted; otherwise the others hear `playerLeft` and `hostChanged`, never the one who left |
| Server.Server.Hangup | server/index.js:24 | the socket is no longer open |
| Server.Server.OnClose | server/index.js:238-267 | a connection that joined a room leaves it as in `Depart` (the same frame on the room), and its table entry and memory go; one that never joined changes no room |
| Server.Server.Tick | server/gameManager.js:38-48 | one sweep of the registry, keeping every invariant |

## Left out

- Randomness. Mine placement picks any eligible cell, and the rejected draws
  of the loop are not modelled.
- Randomness in code generation. The code draws are a parameter, and a round
  that yields a fresh code is assumed to exist among them.
- `uuidv4()` ids are the `newId` parameter.
- `Date.now()` is the `now` parameter.
- `setInterval` and the constructor's `startCleanup` timer: one pass of the
  sweep is `Sweep`/`Tick`.
- JSON, the `ws` sockets and `send`: events are values, and `readyState` is
  the `open` set.
- `console` logging, express, static files and the `/stats` HTTP route: only
  `getStats` is modelled.
- Delivery order within one broadcast: the recipients are a set.
- Unknown message types and the catch-all "Server error" reply, because
  messages are already decoded.
- The `ws` `error` handler only logs, so it is not modelled.
- `sendToPlayer` is never called, so it is not modelled.
- The client (client/js) and its tests are not part of this model. The
  home screen's settings check appears only in Findings.
- Concurrency: each handler runs to completion, as Node's event loop runs it.
- JavaScript's truthiness checks (`!game`, `!currentGameCode`) are modelled
  as `Option` tests. An empty-string code or id counts as present here. The
  server never produces an empty one.
- Registry.GameManager.Sweep: removes rooms one code at a time from a
  snapshot of the keys. Deleting during `Map.entries()` iteration in
  JavaScript visits the same keys.
- Games.Game.Reveal: requires that there is room for all mines when the
  first reveal lays out the board. The source has no such check, and its
  loop never ends otherwise (see Findings).
- Server.Server.OnCreate: requires playable settings, which the source does
  not check. The refusal of unplayable settings is not modelled.
- Registry.GameManager.CreateGame: requires playable settings, which the
  source does not check, so that every stored room keeps them (see Findings).
- Registry.NewRoom: requires playable settings, for the same reason.
- Registry.GameManager.GenerateCode: requires that some round of draws is
  fresh. Termination of the source's retry loop is probabilistic.

## Findings

| source | as written | input that shows it | evidently intended | confidence | as-written member | corrected member |
|---|---|---|---|---|---|---|
| server/game.js:85-95 | The server accepts any settings. The only check is the home screen's `mines < width * height` (client/js/screens/home.js:170). The placement loop then draws until it has placed every mine outside the 3x3 safe zone, so it never ends when fewer cells lie outside the zone. | 3x3 board, 1 mine, first reveal at (1, 1): the safe zone is the whole board | refuse settings unless `mines <= width*height - min(width,3)*min(height,3)`, so every first click leaves room for all mines | not executed | Board.ClientCheckAdmitsHang | Board.PlayableAlwaysPlaceable |

The corrected rule is `Board.Playable`. Where it is used:

- `Registry.GameManager.CreateGame` and `Server.Server.OnCreate` require it;
- every stored room keeps it (`Registry.RoomValid`);
- `Server.RevealStep` relies on it, through `Board.PlayableAlwaysPlaceable`,
  to meet `Games.Game.Reveal`'s precondition.

`Board.ClientAccepts` is the client's check as written.
