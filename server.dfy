/**
 * The WebSocket front end (server/index.js): the `clients` table, what each
 * connection remembers, the recipients of a room broadcast, the guards and
 * room updates of every command of the message `switch`, and the clean-up
 * when a connection closes. Sockets and JSON are replaced by connection
 * numbers and an abstract list of outbound events.
 */
module Server {
  import opened Wrappers
  import opened Board
  import opened Games
  import opened Registry

  /** Identifies one socket. */
  type ConnId = nat

  /** What a connection remembers between messages (`currentPlayerId`, `currentGameCode`). */
  datatype Session = Session(player: Option<PlayerId>, room: Option<string>)

  /** An entry of the `clients` table: the player's socket and the room it joined. */
  datatype Client = Client(conn: ConnId, room: string)

  /** The messages the server sends (the `type` field and its payload). */
  datatype Message =
    | Created(code: string, playerId: PlayerId, game: GameView)
    | Joined(playerId: PlayerId, game: GameView)
    | PlayerJoined(player: Player)
    | GameStarted(game: GameView)
    | Revealed(cells: seq<CellReveal>, byPlayer: PlayerId)
    | GameOver(won: bool, board: Option<seq<seq<MaskedCell>>>, triggeredBy: Option<PlayerId>)
    | Flagged(x: int, y: int, flagged: bool, byPlayer: PlayerId, flagsRemaining: int)
    | CursorMoved(playerId: PlayerId, x: int, y: int)
    | BackToLobby(game: GameView)
    | PlayerLeft(playerId: PlayerId)
    | HostChanged(newHostId: PlayerId)
    | Error(message: string)

  /** An outbound event: an answer on the sender's own socket, or a room broadcast. */
  datatype Event = Reply(conn: ConnId, msg: Message) | Broadcast(to: set<PlayerId>, msg: Message)

  const GameNotFound := "Game not found"
  const OnlyHostCanStart := "Only host can start"
  const StillInProgress := "Game is still in progress"
  const OnlyHostCanReturn := "Only host can return to lobby"

  /** Whether the table entry of `p` receives a broadcast to `room` that leaves out `exclude`. */
  predicate Hears(clients: map<PlayerId, Client>, open: set<ConnId>, p: PlayerId, room: string,
                  exclude: Option<PlayerId>)
  {
    p in clients && clients[p].room == room && exclude != Some(p) && clients[p].conn in open
  }

  /** The players a broadcast to `room` reaches. */
  function Audience(clients: map<PlayerId, Client>, open: set<ConnId>, room: string,
                    exclude: Option<PlayerId>): set<PlayerId>
  {
    set p | p in clients && Hears(clients, open, p, room, exclude)
  }

  /** The excluded player never hears its own broadcast, and nobody outside the room does. */
  lemma AudienceIsRoom(clients: map<PlayerId, Client>, open: set<ConnId>, room: string,
                       exclude: Option<PlayerId>, p: PlayerId)
    ensures exclude == Some(p) ==> p !in Audience(clients, open, room, exclude)
    ensures p in Audience(clients, open, room, exclude) ==>
              p in clients && clients[p].room == room && clients[p].conn in open
    ensures p in clients && clients[p].room == room && clients[p].conn in open && exclude != Some(p) ==>
              p in Audience(clients, open, room, exclude)
  {
  }

  /** The public view `v` describes room `g` at time `now`. */
  predicate Shows(v: GameView, g: Game, now: int)
    reads g`players, g`hostId, g`state, g`flagged, g`revealed, g`board, g`startTime, g.board
  {
    && v.code == g.code && v.settings == g.settings && v.players == g.players
    && v.hostId == g.hostId && v.state == g.state && g.Projects(v.board)
    && v.flagsRemaining == g.settings.mines - |g.flagged|
    && v.elapsedTime == ElapsedSeconds(g.startTime, now)
  }

  /**
   * What the rest of a room hears when `p` has left it with roster
   * `remaining` and host `host`: nothing once the room is empty, else
   * `playerLeft` and then `hostChanged`, both to `to`.
   */
  function Farewell(to: set<PlayerId>, p: PlayerId, remaining: seq<Player>, host: PlayerId): (out: seq<Event>)
    ensures remaining == [] <==> out == []
    ensures forall e :: e in out ==> e.Broadcast? && e.to == to
  {
    if remaining == [] then [] else [Broadcast(to, PlayerLeft(p)), Broadcast(to, HostChanged(host))]
  }

  /**
   * `reveal` on a playing room kept valid by the registry. Playable
   * settings make the first reveal's board placement possible.
   */
  method RevealStep(g: Game, x: int, y: int, pid: PlayerId, now: int) returns (r: Result<RevealResult, string>)
    requires RoomValid(g) && g.state == Playing
    modifies g, g.board
    ensures RoomValid(g) && g.RevealOutcome(x, y, pid, now, r)
  {
    if InBounds(g.settings.width, g.settings.height, (x, y)) {
      PlayableAlwaysPlaceable(g.settings.width, g.settings.height, g.settings.mines, (x, y));
    }
    r := g.Reveal(x, y, pid, now);
  }

  /** `RevealStep`, then the masked board (`getMaskedState`) once the game is over. */
  method RevealShown(g: Game, x: int, y: int, pid: PlayerId, now: int)
    returns (r: Result<RevealResult, string>, masked: Option<seq<seq<MaskedCell>>>)
    requires RoomValid(g) && g.state == Playing
    modifies g, g.board
    ensures RoomValid(g) && g.RevealOutcome(x, y, pid, now, r)
    ensures r.Success? && r.value.gameOver ==> masked.Some? && g.Projects(masked)
  {
    r := RevealStep(g, x, y, pid, now);
    masked := MaskedOnceOver(g, r.Success? && r.value.gameOver);
  }

  /** The masked board when `over` holds, nothing otherwise. */
  method MaskedOnceOver(g: Game, over: bool) returns (masked: Option<seq<seq<MaskedCell>>>)
    requires RoomValid(g)
    ensures over ==> masked.Some? == (g.board != null) && g.Projects(masked)
    ensures !over ==> masked == None
  {
    masked := None;
    if over {
      masked := g.GetMaskedState();
    }
  }

  /**
   * The reveal result the events of a `reveal` carry: the error of a
   * reply, or the cells of the `revealed` broadcast together with the
   * outcome of the `gameOver` broadcast that may follow it.
   */
  function Carried(out: seq<Event>): Result<RevealResult, string>
  {
    if |out| == 0 then Failure("")
    else if out[0].msg.Error? then Failure(out[0].msg.message)
    else if !out[0].msg.Revealed? then Failure("")
    else if |out| >= 2 && out[1].msg.GameOver? then
      Success(RevealResult(out[0].msg.cells, true, out[1].msg.won, out[1].msg.triggeredBy))
    else Success(RevealResult(out[0].msg.cells, false, false, None))
  }

  /**
   * The events that report reveal result `r` by `pid`: an error for the
   * sender, or the revealed cells for `to`, followed by the outcome and the
   * masked board once the game is over.
   */
  function RevealEvents(conn: ConnId, to: set<PlayerId>, pid: PlayerId, r: Result<RevealResult, string>,
                        masked: Option<seq<seq<MaskedCell>>>): seq<Event>
  {
    match r
    case Failure(e) => [Reply(conn, Error(e))]
    case Success(res) =>
      if res.gameOver then [Broadcast(to, Revealed(res.cells, pid)), Broadcast(to, GameOver(res.won, masked, res.triggeredBy))]
      else [Broadcast(to, Revealed(res.cells, pid))]
  }

  /** The events of a reveal give back its result, as long as an unfinished game is neither won nor lost on a mine. */
  lemma CarriedRevealEvents(conn: ConnId, to: set<PlayerId>, pid: PlayerId, r: Result<RevealResult, string>,
                            masked: Option<seq<seq<MaskedCell>>>)
    requires r.Success? && !r.value.gameOver ==> !r.value.won && r.value.triggeredBy == None
    ensures Carried(RevealEvents(conn, to, pid, r, masked)) == r
  {
  }

  class Server {
    const manager: GameManager
    var clients: map<PlayerId, Client>
    var sessions: map<ConnId, Session>
    /** The sockets whose `readyState` is OPEN. */
    var open: set<ConnId>

    /** A connection's player is known exactly when its room is, and owns its table entry. */
    ghost predicate SessionsValid()
      reads this`sessions, this`clients
    {
      forall k :: k in sessions ==>
        && (sessions[k].player.Some? <==> sessions[k].room.Some?)
        && (sessions[k].player.Some? ==>
              sessions[k].player.value in clients && clients[sessions[k].player.value].conn == k)
    }

    ghost predicate Valid()
      reads this`sessions, this`clients, manager, manager.games.Values, BoardsOf(manager.games)
    {
      manager.Valid() && SessionsValid()
    }

    constructor (manager: GameManager)
      requires manager.Valid() && manager.games == map[]
      ensures this.manager == manager && clients == map[] && sessions == map[] && open == {}
      ensures Valid()
    {
      this.manager := manager;
      clients := map[];
      sessions := map[];
      open := {};
    }

    /** The room the connection's remembered code names, if it still exists. */
    function Current(conn: ConnId): (r: Option<Game>)
      requires manager.Keyed()
      reads this, manager
      ensures r.Some? ==> conn in sessions && sessions[conn].room.Some? &&
                          sessions[conn].room.value in manager.games &&
                          r.value == manager.games[sessions[conn].room.value]
    {
      if conn in sessions && sessions[conn].room.Some? then manager.GetGame(sessions[conn].room.value)
      else None
    }

    /** The objects a command on the connection's current room may change. */
    ghost function Target(conn: ConnId): set<object>
      requires manager.Keyed()
      reads this, manager, manager.games.Values
    {
      match Current(conn)
      case None => {}
      case Some(g) => if g.board == null then {g} else {g, g.board}
    }

    /** `broadcastToGame`: collects the open sockets of the room, leaving out `exclude`. */
    method BroadcastToGame(room: string, exclude: Option<PlayerId>) returns (to: set<PlayerId>)
      ensures to == Audience(clients, open, room, exclude)
    {
      to := {};
      var todo := clients.Keys;
      while todo != {}
        invariant todo <= clients.Keys
        invariant forall p :: p in to <==> p in clients && p !in todo && Hears(clients, open, p, room, exclude)
        decreases todo
      {
        var p :| p in todo;
        if clients[p].room == room && exclude != Some(p) && clients[p].conn in open {
          to := to + {p};
        }
        todo := todo - {p};
      }
    }

    /** A new socket, never used before: it is open and remembers nothing yet. */
    method Connect(conn: ConnId)
      requires Valid() && conn !in sessions
      requires forall p :: p in clients ==> clients[p].conn != conn
      modifies this
      ensures Valid()
      ensures sessions == old(sessions)[conn := Session(None, None)] && open == old(open) + {conn}
      ensures clients == old(clients)
    {
      sessions := sessions[conn := Session(None, None)];
      open := open + {conn};
    }

    /** Records that the connection now plays as `id` in `room` (`currentPlayerId`, `currentGameCode`, `clients.set`). */
    method Register(conn: ConnId, id: PlayerId, room: string)
      requires manager.Valid() && SessionsValid() && conn in sessions && id !in clients
      modifies this`sessions, this`clients
      ensures Valid()
      ensures sessions == old(sessions)[conn := Session(Some(id), Some(room))]
      ensures clients == old(clients)[id := Client(conn, room)]
    {
      sessions := sessions[conn := Session(Some(id), Some(room))];
      clients := clients[id := Client(conn, room)];
    }

    /**
     * `create`: opens a room hosted by the sender under the fresh id
     * `newId`, registers the sender and answers with the room. The settings
     * must be playable (see Findings in the README).
     */
    method OnCreate(conn: ConnId, settings: Settings, player: Player, newId: PlayerId,
                    draws: seq<nat>, now: int) returns (out: seq<Event>)
      requires Valid() && conn in sessions && newId !in clients
      requires Playable(settings.width, settings.height, settings.mines)
      requires Draws(draws) && exists k: nat :: FreshRound(manager.games, draws, k)
      modifies this, manager
      ensures Valid()
      ensures conn in sessions && sessions[conn].room.Some? && sessions[conn].player == Some(newId)
      ensures var code := sessions[conn].room.value;
              && code !in old(manager.games) && code in manager.games
              && manager.games == old(manager.games)[code := manager.games[code]]
              && fresh(manager.games[code])
              && manager.games[code].players == [player.(id := newId)]
              && manager.games[code].hostId == newId && manager.games[code].state == Lobby
              && manager.games[code].settings == settings && manager.games[code].lastActivity == now
              && manager.games[code].board == null && manager.games[code].startTime == None
              && manager.games[code].revealed == {} && manager.games[code].flagged == {}
              && sessions == old(sessions)[conn := Session(Some(newId), Some(code))]
              && clients == old(clients)[newId := Client(conn, code)]
              && |out| == 1 && out[0].Reply? && out[0].conn == conn && out[0].msg.Created?
              && out[0].msg.code == code && out[0].msg.playerId == newId
              && Shows(out[0].msg.game, manager.games[code], now)
      ensures open == old(open)
    {
      var host := player.(id := newId);
      var game := manager.CreateGame(settings, host, draws, now);
      Register(conn, newId, game.code);
      var view := game.ToView(now);
      out := [Reply(conn, Created(game.code, newId, view))];
    }

    /**
     * Re-establishes the server invariant after a command changed room `g`
     * (and possibly gave it a fresh board) and nothing else.
     */
    twostate lemma Touch(g: Game)
      requires old(Valid()) && unchanged(this) && unchanged(manager)
      requires g in manager.games.Values && RoomValid(g)
      requires g.board == old(g.board) || g.board == null || fresh(g.board)
      requires forall h :: h in manager.games.Values && h != g ==> unchanged(h)
      requires forall h :: h in manager.games.Values && h != g && h.board != null ==> unchanged(h.board)
      ensures Valid()
    {
      manager.Touched(g);
    }

    /** Whether the connection's player hosts room `g`. */
    predicate IsHost(conn: ConnId, g: Game)
      reads this, g`hostId
    {
      conn in sessions && sessions[conn].player == Some(g.hostId)
    }

    /** `startGame` on the stored room `g`, keeping the server invariant, and the room's view after it. */
    method StartIn(code: string, g: Game, now: int) returns (r: Outcome<string>, view: GameView)
      requires Valid() && code in manager.games && manager.games[code] == g
      modifies g
      ensures Valid()
      ensures r == (if |g.players| < 2 then Fail(NeedTwoPlayers) else Pass)
      ensures r.Fail? ==> unchanged(g)
      ensures r.Pass? ==> g.state == Playing && g.startTime == Some(now) && g.lastActivity == now
      ensures unchanged(g`players, g`hostId, g`board, g`revealed, g`flagged, g`mines) && Shows(view, g, now)
    {
      Stored(manager.games, code);
      r := g.StartGame(now);
      view := g.ToView(now);
      Touch(g);
    }

    /** `start`: only the host may start; the room needs at least two players. */
    method OnStart(conn: ConnId, now: int) returns (out: seq<Event>)
      requires Valid() && conn in sessions
      modifies Target(conn)
      ensures Valid()
      ensures Current(conn).None? ==> out == []
      ensures Current(conn).Some? && !IsHost(conn, Current(conn).value) ==>
                out == [Reply(conn, Error(OnlyHostCanStart))] && unchanged(Current(conn).value)
                && (Current(conn).value.board != null ==> unchanged(Current(conn).value.board))
      ensures Current(conn).Some? && IsHost(conn, Current(conn).value) && |Current(conn).value.players| < 2 ==>
                out == [Reply(conn, Error(NeedTwoPlayers))] && unchanged(Current(conn).value)
                && (Current(conn).value.board != null ==> unchanged(Current(conn).value.board))
      ensures Current(conn).Some? && IsHost(conn, Current(conn).value) && |Current(conn).value.players| >= 2 ==>
                var g := Current(conn).value;
                && g.state == Playing && g.startTime == Some(now) && g.lastActivity == now
                && unchanged(g`players, g`hostId, g`board, g`revealed, g`flagged) && (g.board != null ==> unchanged(g.board))
                && |out| == 1 && out[0].Broadcast? && out[0].msg.GameStarted? && Shows(out[0].msg.game, g, now)
                && out[0].to == Audience(clients, open, g.code, None)
    {
      var s := sessions[conn];
      out := [];
      if s.room.Some? {
        var code := s.room.value;
        var found := manager.GetGame(code);
        if found.Some? {
          if found.value.hostId != s.player.value {
            out := [Reply(conn, Error(OnlyHostCanStart))];
          } else {
            var to := BroadcastToGame(code, None);
            var r, view := StartIn(code, found.value, now);
            out := if r.Fail? then [Reply(conn, Error(r.error))] else [Broadcast(to, GameStarted(view))];
          }
        }
      }
    }

    /** `addPlayer` on the stored room `g`, keeping the server invariant, and the room's view after it. */
    method JoinIn(code: string, g: Game, p: Player, now: int) returns (r: Outcome<string>, view: GameView)
      requires Valid() && code in manager.games && manager.games[code] == g
      modifies g
      ensures Valid()
      ensures |old(g.players)| >= g.settings.maxPlayers ==> r == Fail(GameFull)
      ensures |old(g.players)| < g.settings.maxPlayers && ColorTaken(old(g.players), p.color) ==>
                r == Fail(ColorAlreadyTaken)
      ensures r.Fail? ==> unchanged(g)
      ensures r.Pass? <==> |old(g.players)| < g.settings.maxPlayers && !ColorTaken(old(g.players), p.color)
      ensures r.Pass? ==> g.players == old(g.players) + [p] && g.lastActivity == now && Shows(view, g, now)
      ensures unchanged(g`hostId, g`state, g`board, g`revealed, g`flagged, g`startTime, g`mines)
    {
      Stored(manager.games, code);
      r := g.AddPlayer(p, now);
      view := g.ToView(now);
      Touch(g);
    }

    /**
     * `join`: adds the sender under the fresh id `newId` to the room with
     * that code, registers it and tells the others in the room; an unknown
     * code or a refused player is answered with an error and nothing is
     * registered. The recipients leave out `newId`, so they are those of the
     * table before registration and are collected first.
     */
    method OnJoin(conn: ConnId, code: string, player: Player, newId: PlayerId, now: int)
      returns (out: seq<Event>)
      requires Valid() && conn in sessions && newId !in clients
      modifies this, if code in manager.games then {manager.games[code]} else {}
      ensures Valid() && manager.games == old(manager.games) && open == old(open)
      ensures code !in manager.games ==> out == [Reply(conn, Error(GameNotFound))] && unchanged(this)
      ensures code in manager.games && |old(manager.games[code].players)| >= manager.games[code].settings.maxPlayers ==>
                out == [Reply(conn, Error(GameFull))] && unchanged(this) && unchanged(manager.games[code])
      ensures code in manager.games && |old(manager.games[code].players)| < manager.games[code].settings.maxPlayers &&
              ColorTaken(old(manager.games[code].players), player.color) ==>
                out == [Reply(conn, Error(ColorAlreadyTaken))] && unchanged(this) && unchanged(manager.games[code])
      ensures code in manager.games && |old(manager.games[code].players)| < manager.games[code].settings.maxPlayers &&
              !ColorTaken(old(manager.games[code].players), player.color) ==>
                var g: Game := manager.games[code];
                && g.players == old(g.players) + [player.(id := newId)] && g.lastActivity == now
                && unchanged(g`hostId, g`state, g`board, g`revealed, g`flagged, g`startTime)
                && (g.board != null ==> unchanged(g.board))
                && sessions == old(sessions)[conn := Session(Some(newId), Some(code))]
                && clients == old(clients)[newId := Client(conn, code)]
                && |out| == 2 && out[0].Reply? && out[0].conn == conn && out[0].msg.Joined?
                && out[0].msg.playerId == newId && Shows(out[0].msg.game, g, now)
                && out[1] == Broadcast(Audience(old(clients), open, code, Some(newId)), PlayerJoined(player.(id := newId)))
    {
      var found := manager.GetGame(code);
      if found.None? {
        out := [Reply(conn, Error(GameNotFound))];
      } else {
        var joining := player.(id := newId);
        var to := BroadcastToGame(code, Some(newId));
        var r, view := JoinIn(code, found.value, joining, now);
        if r.Fail? {
          out := [Reply(conn, Error(r.error))];
        } else {
          Register(conn, newId, code);
          out := [Reply(conn, Joined(newId, view)), Broadcast(to, PlayerJoined(joining))];
        }
      }
    }

    /**
     * `RevealShown` on the stored room `g`, keeping the server invariant,
     * and the events that report it: an error for the sender, or the
     * revealed cells for the whole room, followed by the final board when
     * the game ended.
     */
    method RevealIn(conn: ConnId, code: string, g: Game, x: int, y: int, pid: PlayerId, now: int)
      returns (out: seq<Event>)
      requires Valid() && code in manager.games && manager.games[code] == g && g.state == Playing
      modifies g, g.board
      ensures Valid() && g.RevealOutcome(x, y, pid, now, Carried(out))
      ensures !InBounds(g.settings.width, g.settings.height, (x, y)) ==> out == [Reply(conn, Error(InvalidCoordinates))]
      ensures InBounds(g.settings.width, g.settings.height, (x, y)) ==>
                var to := Audience(clients, open, code, None);
                && 1 <= |out| <= 2 && (|out| == 2 <==> g.state != Playing)
                && out[0].Broadcast? && out[0].to == to && out[0].msg.Revealed? && out[0].msg.byPlayer == pid
                && (|out| == 2 ==>
                      out[1].Broadcast? && out[1].to == to && out[1].msg.GameOver? && g.Projects(out[1].msg.board))
    {
      assert RoomValid(g) by { Stored(manager.games, code); }
      var r, masked := RevealShown(g, x, y, pid, now);
      Touch(g);
      var to := BroadcastToGame(code, None);
      out := RevealEvents(conn, to, pid, r, masked);
      assert Carried(out) == r by { CarriedRevealEvents(conn, to, pid, r, masked); }
    }

    /**
     * `reveal`: ignored unless the room is playing, otherwise `RevealIn`.
     */
    method OnReveal(conn: ConnId, x: int, y: int, now: int) returns (out: seq<Event>)
      requires Valid() && conn in sessions
      modifies Target(conn)
      ensures Valid()
      ensures Current(conn).None? ==> out == []
      ensures Current(conn).Some? && old(Current(conn).value.state) != Playing ==>
                out == [] && unchanged(Current(conn).value)
                && (Current(conn).value.board != null ==> unchanged(Current(conn).value.board))
      ensures Current(conn).Some? && old(Current(conn).value.state) == Playing ==>
                var g, pid := Current(conn).value, sessions[conn].player.value;
                var w, h, to := g.settings.width, g.settings.height, Audience(clients, open, g.code, None);
                && g.RevealOutcome(x, y, pid, now, Carried(out))
                && (!InBounds(w, h, (x, y)) ==> out == [Reply(conn, Error(InvalidCoordinates))])
                && (InBounds(w, h, (x, y)) ==>
                      && 1 <= |out| <= 2 && (|out| == 2 <==> g.state != Playing)
                      && out[0].Broadcast? && out[0].to == to && out[0].msg.Revealed? && out[0].msg.byPlayer == pid
                      && (|out| == 2 ==>
                            out[1].Broadcast? && out[1].to == to && out[1].msg.GameOver? && g.Projects(out[1].msg.board)))
    {
      var s := sessions[conn];
      out := [];
      if s.room.Some? {
        var code := s.room.value;
        var found := manager.GetGame(code);
        if found.Some? && found.value.state == Playing {
          out := RevealIn(conn, code, found.value, x, y, s.player.value, now);
        }
      }
    }

    /** `toggleFlag` on the stored room `g`, keeping the server invariant. */
    method FlagIn(code: string, g: Game, x: int, y: int, pid: PlayerId, now: int)
      returns (r: Result<bool, string>, remaining: int)
      requires Valid() && code in manager.games && manager.games[code] == g
      modifies g`flagged, g`lastActivity
      ensures Valid()
      ensures !InBounds(g.settings.width, g.settings.height, (x, y)) ==>
                r == Failure(InvalidCoordinates) && g.flagged == old(g.flagged)
      ensures InBounds(g.settings.width, g.settings.height, (x, y)) ==>
                && g.flagged == ToggledFlags(old(g.flagged), g.revealed, (x, y)).0
                && r == Success(ToggledFlags(old(g.flagged), g.revealed, (x, y)).1)
      ensures g.lastActivity ==
                if InBounds(g.settings.width, g.settings.height, (x, y)) && (x, y) !in g.revealed then now
                else old(g.lastActivity)
      ensures remaining == g.settings.mines - |g.flagged|
    {
      Stored(manager.games, code);
      r := g.ToggleFlag(x, y, pid, now);
      remaining := g.FlagsRemaining();
      Touch(g);
    }

    /**
     * `flag`: ignored unless the room is playing; an off-board cell is
     * answered with an error; otherwise the room learns the cell's new flag
     * and how many flags remain.
     */
    method OnFlag(conn: ConnId, x: int, y: int, now: int) returns (out: seq<Event>)
      requires Valid() && conn in sessions
      modifies Target(conn)
      ensures Valid()
      ensures Current(conn).None? ==> out == []
      ensures Current(conn).Some? && old(Current(conn).value.state) != Playing ==>
                out == [] && unchanged(Current(conn).value)
                && (Current(conn).value.board != null ==> unchanged(Current(conn).value.board))
      ensures Current(conn).Some? && old(Current(conn).value.state) == Playing ==>
                var g := Current(conn).value;
                var t := ToggledFlags(old(g.flagged), g.revealed, (x, y));
                && (!InBounds(g.settings.width, g.settings.height, (x, y)) ==>
                      out == [Reply(conn, Error(InvalidCoordinates))] && g.flagged == old(g.flagged))
                && unchanged(g`state, g`revealed, g`players, g`hostId, g`board, g`startTime)
                && (g.board != null ==> unchanged(g.board))
                && g.lastActivity ==
                     (if InBounds(g.settings.width, g.settings.height, (x, y)) && (x, y) !in g.revealed then now
                      else old(g.lastActivity))
                && (InBounds(g.settings.width, g.settings.height, (x, y)) ==>
                      && g.flagged == t.0
                      && out == [Broadcast(Audience(clients, open, g.code, None),
                                           Message.Flagged(x, y, t.1, sessions[conn].player.value,
                                                           g.settings.mines - |g.flagged|))])
    {
      var s := sessions[conn];
      out := [];
      if s.room.Some? {
        var code := s.room.value;
        var found := manager.GetGame(code);
        if found.Some? && found.value.state == Playing {
          var g := found.value;
          var to := BroadcastToGame(code, None);
          var r, remaining := FlagIn(code, g, x, y, s.player.value, now);
          out := if r.Failure? then [Reply(conn, Error(r.error))]
                 else [Broadcast(to, Message.Flagged(x, y, r.value, s.player.value, remaining))];
        }
      }
    }

    /** `cursor`: relayed to the rest of the room once the connection has joined one. */
    method OnCursor(conn: ConnId, x: int, y: int) returns (out: seq<Event>)
      requires conn in sessions
      ensures sessions[conn].player.None? || sessions[conn].room.None? ==> out == []
      ensures sessions[conn].player.Some? && sessions[conn].room.Some? ==>
                var p := sessions[conn].player.value;
                out == [Broadcast(Audience(clients, open, sessions[conn].room.value, Some(p)),
                                  CursorMoved(p, x, y))]
    {
      var s := sessions[conn];
      if s.room.None? || s.player.None? {
        return [];
      }
      var to := BroadcastToGame(s.room.value, Some(s.player.value));
      out := [Broadcast(to, CursorMoved(s.player.value, x, y))];
    }

    /** `reset` on the stored room `g`, keeping the server invariant, and the room's view after it. */
    method RestartIn(code: string, g: Game, now: int) returns (view: GameView)
      requires Valid() && code in manager.games && manager.games[code] == g
      modifies g
      ensures Valid()
      ensures g.board == null && g.revealed == {} && g.flagged == {} && g.state == Playing
      ensures g.startTime == Some(now) && g.lastActivity == now
      ensures g.players == old(g.players) && g.hostId == old(g.hostId) && Shows(view, g, now)
    {
      Stored(manager.games, code);
      g.Reset(now);
      view := g.ToView(now);
      Touch(g);
    }

    /** `restart`: only a won or lost game can be restarted, by anyone in the room. */
    method OnRestart(conn: ConnId, now: int) returns (out: seq<Event>)
      requires Valid() && conn in sessions
      modifies Target(conn)
      ensures Valid()
      ensures Current(conn).None? ==> out == []
      ensures Current(conn).Some? && old(Current(conn).value.state) !in {Won, Lost} ==>
                out == [Reply(conn, Error(StillInProgress))] && unchanged(Current(conn).value)
                && (Current(conn).value.board != null ==> unchanged(Current(conn).value.board))
      ensures Current(conn).Some? && old(Current(conn).value.state) in {Won, Lost} ==>
                var g := Current(conn).value;
                && g.board == null && g.revealed == {} && g.flagged == {} && g.state == Playing
                && g.startTime == Some(now) && g.lastActivity == now
                && g.players == old(g.players) && g.hostId == old(g.hostId)
                && |out| == 1 && out[0].Broadcast? && out[0].to == Audience(clients, open, g.code, None)
                && out[0].msg.GameStarted? && Shows(out[0].msg.game, g, now)
    {
      var s := sessions[conn];
      out := [];
      if s.room.Some? {
        var code := s.room.value;
        var found := manager.GetGame(code);
        if found.Some? {
          if found.value.state != Won && found.value.state != Lost {
            out := [Reply(conn, Error(StillInProgress))];
          } else {
            var to := BroadcastToGame(code, None);
            var view := RestartIn(code, found.value, now);
            out := [Broadcast(to, GameStarted(view))];
          }
        }
      }
    }

    /** The `toLobby` field updates on the stored room `g`, keeping the server invariant, and the room's view after them. */
    method LobbyIn(code: string, g: Game, now: int) returns (view: GameView)
      requires Valid() && code in manager.games && manager.games[code] == g
      modifies g
      ensures Valid()
      ensures g.state == Lobby && g.board == null && g.startTime == None
      ensures g.revealed == {} && g.flagged == {} && g.lastActivity == old(g.lastActivity)
      ensures g.players == old(g.players) && g.hostId == old(g.hostId) && Shows(view, g, now)
    {
      Stored(manager.games, code);
      g.ReturnToLobby();
      view := g.ToView(now);
      Touch(g);
    }

    /** `toLobby`: the host sends the room back to the lobby, keeping the roster. */
    method OnToLobby(conn: ConnId, now: int) returns (out: seq<Event>)
      requires Valid() && conn in sessions
      modifies Target(conn)
      ensures Valid()
      ensures Current(conn).None? ==> out == []
      ensures Current(conn).Some? && !IsHost(conn, Current(conn).value) ==>
                out == [Reply(conn, Error(OnlyHostCanReturn))] && unchanged(Current(conn).value)
                && (Current(conn).value.board != null ==> unchanged(Current(conn).value.board))
      ensures Current(conn).Some? && IsHost(conn, Current(conn).value) ==>
                var g := Current(conn).value;
                && g.state == Lobby && g.board == null && g.startTime == None
                && g.revealed == {} && g.flagged == {} && g.lastActivity == old(g.lastActivity)
                && g.players == old(g.players) && g.hostId == old(g.hostId)
                && |out| == 1 && out[0].Broadcast? && out[0].to == Audience(clients, open, g.code, None)
                && out[0].msg.BackToLobby? && Shows(out[0].msg.game, g, now)
    {
      var s := sessions[conn];
      out := [];
      if s.room.Some? {
        var code := s.room.value;
        var found := manager.GetGame(code);
        if found.Some? {
          if found.value.hostId != s.player.value {
            out := [Reply(conn, Error(OnlyHostCanReturn))];
          } else {
            var to := BroadcastToGame(code, None);
            var view := LobbyIn(code, found.value, now);
            out := [Broadcast(to, BackToLobby(view))];
          }
        }
      }
    }

    /** Forgets the connection, and the table entry of its player if it had one. */
    method Forget(conn: ConnId)
      requires Valid() && conn in sessions
      modifies this`sessions, this`clients
      ensures Valid()
      ensures sessions == old(sessions) - {conn}
      ensures old(sessions[conn]).player.None? ==> clients == old(clients)
      ensures old(sessions[conn]).player.Some? ==> clients == old(clients) - {old(sessions[conn]).player.value}
    {
      var s := sessions[conn];
      if s.player.Some? {
        clients := clients - {s.player.value};
      }
      sessions := sessions - {conn};
    }

    /**
     * The room side of `close`: player `p`, whose socket is closed, leaves
     * room `code`; an emptied room is deleted, otherwise the others hear
     * that `p` left and who hosts now.
     */
    method Depart(code: string, p: PlayerId, now: int) returns (out: seq<Event>)
      requires Valid() && p in clients && clients[p].conn !in open
      modifies manager, if code in manager.games then {manager.games[code]} else {}
      ensures Valid()
      ensures code !in old(manager.games) ==> out == [] && manager.games == old(manager.games)
      ensures code in old(manager.games) ==>
                var g: Game := old(manager.games)[code];
                && g.players == Without(old(g.players), p)
                && g.hostId == NextHost(g.players, old(g.hostId), p)
                && manager.games == (if g.players == [] then old(manager.games) - {code} else old(manager.games))
                && g.lastActivity == now
                && unchanged(g`state, g`board, g`revealed, g`flagged, g`startTime)
                && (g.board != null ==> unchanged(g.board))
                && out == Farewell(Audience(clients, open, code, None), p, g.players, g.hostId)
                && p !in Audience(clients, open, code, None)
    {
      var found := manager.GetGame(code);
      if found.None? {
        return [];
      }
      var empty := manager.Leave(code, p, now);
      if empty {
        return [];
      }
      var to := BroadcastToGame(code, None);
      out := [Broadcast(to, PlayerLeft(p))];
      if found.value.hostId != p {
        to := BroadcastToGame(code, None);
        out := out + [Broadcast(to, HostChanged(found.value.hostId))];
      }
    }

    /** The socket's `readyState` leaves OPEN. */
    method Hangup(conn: ConnId)
      requires Valid()
      modifies this`open
      ensures Valid() && open == old(open) - {conn}
    {
      open := open - {conn};
    }

    /**
     * The `close` handler: the socket stops being open; a connection that
     * had joined a room leaves it (`Depart`), and the player's table entry
     * and the connection's memory go.
     */
    method OnClose(conn: ConnId, now: int) returns (out: seq<Event>)
      requires Valid() && conn in sessions
      modifies this, manager, Target(conn)
      ensures Valid()
      ensures open == old(open) - {conn} && sessions == old(sessions) - {conn}
      ensures old(sessions[conn]).player.None? ==>
                out == [] && clients == old(clients) && manager.games == old(manager.games)
      ensures old(sessions[conn]).player.Some? ==>
                var p, code := old(sessions[conn]).player.value, old(sessions[conn]).room.value;
                && clients == old(clients) - {p}
                && (code !in old(manager.games) ==> out == [] && manager.games == old(manager.games))
                && (code in old(manager.games) ==>
                      var g: Game := old(manager.games)[code];
                      && g.players == Without(old(g.players), p)
                      && g.hostId == NextHost(g.players, old(g.hostId), p)
                      && manager.games == (if g.players == [] then old(manager.games) - {code} else old(manager.games))
                      && g.lastActivity == now
                      && unchanged(g`state, g`board, g`revealed, g`flagged, g`startTime)
                      && (g.board != null ==> unchanged(g.board))
                      && out == Farewell(Audience(old(clients), open, code, None), p, g.players, g.hostId)
                      && p !in Audience(old(clients), open, code, None))
    {
      Hangup(conn);
      var s := sessions[conn];
      out := [];
      if s.player.Some? {
        out := Depart(s.room.value, s.player.value, now);
      }
      Forget(conn);
    }

    /** One pass of the stale-room sweep. */
    method Tick(now: int)
      requires Valid()
      modifies manager
      ensures Valid()
      ensures manager.games == Kept(old(manager.games), now)
    {
      manager.Sweep(now);
    }
  }
}
