/**
 * The room registry (server/gameManager.js): six-character room codes drawn
 * from a 32-letter alphabet and retried on collision, a code -> room map with
 * create, look-up and delete, one pass of the stale-room sweep, and the
 * statistics report.
 */
module Registry {
  import opened Wrappers
  import opened Board
  import opened Games

  /** The code alphabet: capitals and digits without the look-alikes I, O, 0 and 1. */
  const Alphabet: string := "ABCDEFGHJKLMNPQRSTUVWXYZ23456789"
  const CodeLength: nat := 6
  /** A room idle for longer than this many milliseconds (one hour) is swept. */
  const StaleTime: int := 60 * 60 * 1000

  predicate IsCode(c: string)
  {
    |c| == CodeLength && forall i :: 0 <= i < |c| ==> c[i] in Alphabet
  }

  /** A room code never contains a character that is easily misread. */
  lemma CodeAvoidsLookalikes(c: string)
    requires IsCode(c)
    ensures 'I' !in c && 'O' !in c && '0' !in c && '1' !in c
  {
    forall i | 0 <= i < |c|
      ensures c[i] != 'I' && c[i] != 'O' && c[i] != '0' && c[i] != '1'
    {
      assert c[i] in Alphabet;
    }
  }

  /**
   * The random source: each draw is `Math.floor(Math.random() * chars.length)`,
   * an index into the alphabet.
   */
  predicate Draws(draws: seq<nat>)
  {
    forall i :: 0 <= i < |draws| ==> draws[i] < |Alphabet|
  }

  /** Whether the draws hold a `k`-th full round of six. */
  predicate HasRound(draws: seq<nat>, k: nat)
  {
    CodeLength * (k + 1) <= |draws|
  }

  /** The code spelled by the `k`-th round of six draws. */
  function Round(draws: seq<nat>, k: nat): (code: string)
    requires Draws(draws) && HasRound(draws, k)
    ensures IsCode(code)
  {
    seq(CodeLength, i requires 0 <= i < CodeLength => Alphabet[draws[CodeLength * k + i]])
  }

  /** The `k`-th round of draws spells a code no room uses. */
  predicate FreshRound(games: map<string, Game>, draws: seq<nat>, k: nat)
  {
    Draws(draws) && HasRound(draws, k) && Round(draws, k) !in games
  }

  /** A room is stale once it has been idle for more than an hour (strictly). */
  predicate Stale(g: Game, now: int)
    reads g`lastActivity
  {
    now - g.lastActivity > StaleTime
  }

  /** The rooms a sweep at `now` keeps: those idle for at most an hour. */
  function Kept(games: map<string, Game>, now: int): (r: map<string, Game>)
    reads set c | c in games :: games[c]
    ensures forall c :: c in r <==> c in games && now - games[c].lastActivity <= StaleTime
    ensures forall c :: c in r ==> r[c] == games[c]
  {
    map c | c in games && !Stale(games[c], now) :: games[c]
  }

  /** A map holding exactly the entries a sweep keeps is the swept map. */
  lemma KeptExact(games: map<string, Game>, kept: map<string, Game>, now: int)
    requires forall c :: c in kept <==> c in games && !Stale(games[c], now)
    requires forall c :: c in kept ==> kept[c] == games[c]
    ensures kept == Kept(games, now)
  {
  }

  datatype Stats = Stats(totalGames: nat, activeGames: nat, lobbyGames: nat)

  /** The codes of the rooms in phase `p`. */
  function InPhase(games: map<string, Game>, p: Phase): set<string>
    reads set c | c in games :: games[c]
  {
    set c | c in games && games[c].state == p
  }

  /** Disjoint subsets of a set are together no larger than it. */
  lemma DisjointSubsetsCard<T>(a: set<T>, b: set<T>, all: set<T>)
    requires a <= all && b <= all && a !! b
    ensures |a| + |b| <= |all|
  {
    assert |a + b| == |a| + |b| by {
      SubsetDiffCard(a + b, b);
      assert (a + b) - b == a;
    }
    SubsetDiffCard(all, a + b);
  }

  /**
   * What every stored room keeps: the room invariant, a host on the roster,
   * and settings under which the board can always be laid out (see Findings
   * in the README).
   */
  ghost predicate RoomValid(g: Game)
    reads g, g.board
  {
    && g.Valid() && g.HostPresent()
    && Playable(g.settings.width, g.settings.height, g.settings.mines)
  }

  ghost function BoardsOf(games: map<string, Game>): set<array2<Cell>>
    reads games.Values
  {
    set g | g in games.Values && g.board != null :: g.board
  }

  /** Distinct codes hold distinct rooms, and distinct rooms never share a board. */
  ghost predicate Separate(games: map<string, Game>)
    reads games.Values
  {
    forall c, d :: c in games && d in games && c != d ==>
      games[c] != games[d] && (games[c].board != null ==> games[c].board != games[d].board)
  }

  ghost predicate RoomsValid(games: map<string, Game>)
    reads games.Values, BoardsOf(games)
  {
    Separate(games) && forall c :: c in games ==> RoomValid(games[c])
  }

  /** Every stored room is valid on its own. */
  lemma Stored(games: map<string, Game>, code: string)
    requires RoomsValid(games) && code in games
    ensures RoomValid(games[code])
  {
  }

  /** Dropping rooms keeps the rest valid. */
  lemma SubmapRoomsValid(games: map<string, Game>, kept: map<string, Game>)
    requires RoomsValid(games)
    requires forall c :: c in kept ==> c in games && kept[c] == games[c]
    ensures RoomsValid(kept)
  {
  }

  /** A new valid room without a board can join valid rooms under a new code. */
  lemma AddRoomValid(games: map<string, Game>, code: string, g: Game)
    requires RoomsValid(games) && code !in games && g !in games.Values
    requires RoomValid(g) && g.board == null
    ensures RoomsValid(games[code := g])
  {
  }

  /** `new Game(code, settings, hostPlayer)`, valid beside the rooms already stored. */
  method NewRoom(games: map<string, Game>, code: string, settings: Settings, host: Player, now: int)
    returns (game: Game)
    requires RoomsValid(games) && code !in games
    requires Playable(settings.width, settings.height, settings.mines)
    ensures fresh(game) && game.code == code && game.settings == settings
    ensures game.players == [host] && game.hostId == host.id && game.state == Lobby
    ensures game.board == null && game.startTime == None
    ensures game.revealed == {} && game.flagged == {} && game.lastActivity == now
    ensures RoomsValid(games[code := game])
  {
    game := new Game(code, settings, host, now);
    assert game.players[0].id == game.hostId;
    AddRoomValid(games, code, game);
  }

  class GameManager {
    var games: map<string, Game>

    /** Every room is stored under its own code, which is a well-formed code. */
    ghost predicate Keyed()
      reads this
    {
      forall c :: c in games ==> IsCode(c) && games[c].code == c
    }

    ghost predicate Valid()
      reads this, games.Values, BoardsOf(games)
    {
      Keyed() && RoomsValid(games)
    }

    constructor ()
      ensures games == map[] && Valid()
    {
      games := map[];
    }

    /** Spells the code of the `k`-th round of draws, one character at a time. */
    method SpellCode(draws: seq<nat>, k: nat) returns (code: string)
      requires Draws(draws) && HasRound(draws, k)
      ensures code == Round(draws, k)
    {
      code := "";
      for i := 0 to CodeLength
        invariant |code| == i
        invariant forall j :: 0 <= j < i ==> code[j] == Alphabet[draws[CodeLength * k + j]]
      {
        code := code + [Alphabet[draws[CodeLength * k + i]]];
      }
    }

    /**
     * Draws rounds of six characters until one spells a code no room uses.
     * `rounds` is how many rounds were drawn; every earlier round collided.
     */
    method GenerateCode(draws: seq<nat>) returns (code: string, rounds: nat)
      requires Draws(draws) && exists k: nat :: FreshRound(games, draws, k)
      ensures IsCode(code) && code !in games
      ensures 1 <= rounds && HasRound(draws, rounds - 1) && code == Round(draws, rounds - 1)
      ensures forall j: nat :: j < rounds - 1 ==> Round(draws, j) in games
    {
      ghost var k: nat :| FreshRound(games, draws, k);
      code := SpellCode(draws, 0);
      rounds := 1;
      while code in games
        invariant 1 <= rounds <= k + 1 && HasRound(draws, rounds - 1)
        invariant code == Round(draws, rounds - 1)
        invariant forall j: nat :: j < rounds - 1 ==> Round(draws, j) in games
        decreases k + 1 - rounds
      {
        code := SpellCode(draws, rounds);
        rounds := rounds + 1;
      }
    }

    /** Opens a room under a fresh code with `host` as its only player and host. */
    method CreateGame(settings: Settings, host: Player, draws: seq<nat>, now: int) returns (game: Game)
      requires Valid() && Playable(settings.width, settings.height, settings.mines)
      requires Draws(draws) && exists k: nat :: FreshRound(games, draws, k)
      modifies this
      ensures Valid()
      ensures fresh(game) && game.code !in old(games) && games == old(games)[game.code := game]
      ensures game.settings == settings && game.players == [host] && game.hostId == host.id
      ensures game.state == Lobby && game.board == null && game.startTime == None
      ensures game.revealed == {} && game.flagged == {} && game.lastActivity == now
    {
      var code, _ := GenerateCode(draws);
      game := NewRoom(games, code, settings, host, now);
      games := games[code := game];
    }

    /** The room stored under `code`, if any. */
    function GetGame(code: string): (r: Option<Game>)
      requires Keyed()
      reads this
      ensures r.Some? <==> code in games
      ensures r.Some? ==> r.value == games[code] && r.value.code == code
    {
      if code in games then Some(games[code]) else None
    }

    /** Removes the room stored under `code`, if any, and nothing else. */
    method DeleteGame(code: string)
      requires Keyed() && RoomsValid(games - {code})
      modifies this
      ensures Valid()
      ensures games == old(games) - {code}
      ensures code !in games
      ensures forall c :: c in games <==> c in old(games) && c != code
      ensures forall c :: c in games ==> games[c] == old(games)[c]
    {
      games := games - {code};
    }

    /**
     * What the server's `close` handler does to a room: `removePlayer`,
     * then `deleteGame` once that left the room empty.
     */
    method Leave(code: string, p: PlayerId, now: int) returns (empty: bool)
      requires Valid() && code in games
      modifies this, games[code]
      ensures Valid()
      ensures old(games)[code].players == Without(old(games[code].players), p)
      ensures old(games)[code].hostId == NextHost(old(games)[code].players, old(games[code].hostId), p)
      ensures empty <==> old(games)[code].players == []
      ensures !empty ==> old(games)[code].hostId != p
      ensures empty ==> games == old(games) - {code}
      ensures !empty ==> games == old(games)
      ensures var g: Game := old(games)[code];
              && g.lastActivity == now
              && unchanged(g`state, g`board, g`revealed, g`flagged, g`startTime, g`mines)
              && (g.board != null ==> unchanged(g.board))
    {
      var g := games[code];
      Stored(games, code);
      empty := g.RemovePlayer(p, now);
      if empty {
        Dropped(code);
        DeleteGame(code);
      } else {
        Touched(g);
      }
    }

    /** After a command changed the room under `code` and nothing else, the others stay valid. */
    twostate lemma Dropped(code: string)
      requires old(Valid()) && unchanged(this) && code in games
      requires forall h :: h in games.Values && h != games[code] ==> unchanged(h)
      requires forall h :: h in games.Values && h != games[code] && h.board != null ==> unchanged(h.board)
      ensures RoomsValid(games - {code})
    {
      var kept := games - {code};
      forall c | c in kept
        ensures RoomValid(kept[c])
      {
        var h := games[c];
        assert h in games.Values;
        assert old(Separate(games) && RoomValid(h));
      }
      forall c, d | c in kept && d in kept && c != d
        ensures kept[c] != kept[d] && (kept[c].board != null ==> kept[c].board != kept[d].board)
      {
        var hc, hd := games[c], games[d];
        assert hc in games.Values && hd in games.Values;
        assert old(Separate(games) && hc != hd && (hc.board != null ==> hc.board != hd.board));
      }
    }

    /**
     * After a command changed room `g` (possibly giving it a fresh board) and
     * nothing else, keeping it valid, the whole registry is valid again.
     */
    twostate lemma Touched(g: Game)
      requires old(Valid()) && unchanged(this) && g in games.Values && RoomValid(g)
      requires g.board == old(g.board) || g.board == null || fresh(g.board)
      requires forall h :: h in games.Values && h != g ==> unchanged(h)
      requires forall h :: h in games.Values && h != g && h.board != null ==> unchanged(h.board)
      ensures Valid()
    {
      forall c | c in games
        ensures RoomValid(games[c])
      {
        var h := games[c];
        assert h in games.Values;
        if h != g {
          assert old(RoomValid(h));
        }
      }
      forall c, d | c in games && d in games && c != d
        ensures games[c] != games[d] && (games[c].board != null ==> games[c].board != games[d].board)
      {
        var hc, hd := games[c], games[d];
        assert hc in games.Values && hd in games.Values;
        assert old(Separate(games) && hc != hd && (hc.board != null ==> hc.board != hd.board));
      }
    }

    /** One pass of the periodic clean-up: every room idle for over an hour is removed. */
    method Sweep(now: int)
      requires Valid()
      modifies this
      ensures Valid()
      ensures games == Kept(old(games), now)
    {
      ghost var start := games;
      ghost var stale := set c | c in start && Stale(start[c], now);
      var todo := games.Keys;
      while todo != {}
        invariant Valid() && todo <= start.Keys
        invariant forall c :: c in games <==> c in start && (c in todo || c !in stale)
        invariant forall c :: c in games ==> games[c] == start[c]
        decreases todo
      {
        var c :| c in todo;
        if Stale(games[c], now) {
          assert c in stale;
          SubmapRoomsValid(games, games - {c});
          DeleteGame(c);
        }
        todo := todo - {c};
      }
      KeptExact(start, games, now);
    }

    /** `getStats`: the number of rooms, and how many are playing or in the lobby. */
    function GetStats(): (s: Stats)
      reads this, set c | c in games :: games[c]
      ensures s.totalGames == |games|
      ensures s.activeGames == |InPhase(games, Playing)| && s.lobbyGames == |InPhase(games, Lobby)|
      ensures s.activeGames + s.lobbyGames <= s.totalGames
    {
      DisjointSubsetsCard(InPhase(games, Playing), InPhase(games, Lobby), games.Keys);
      Stats(|games|, |InPhase(games, Playing)|, |InPhase(games, Lobby)|)
    }
  }

  /** A room idle for exactly an hour survives the sweep; a millisecond more and it goes. */
  lemma SweepBoundary(games: map<string, Game>, c: string, now: int)
    requires c in games
    ensures games[c].lastActivity == now - StaleTime ==> c in Kept(games, now)
    ensures games[c].lastActivity == now - StaleTime - 1 ==> c !in Kept(games, now)
  {
  }

  /** Sweeping twice at the same time removes nothing more. */
  lemma SweepIdempotent(games: map<string, Game>, now: int)
    ensures Kept(Kept(games, now), now) == Kept(games, now)
  {
  }
}
