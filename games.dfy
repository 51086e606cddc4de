/**
 * One room of the cooperative minesweeper server: its roster and host, the
 * lobby/playing/won/lost state machine, the lazily generated board, the
 * flood-fill reveal, flags, the masked projection sent to clients and resets
 * (server/game.js).
 */
module Games {
  import opened Wrappers
  import opened Board

  type PlayerId = string

  /** A roster entry; the server assigns `id`, the client supplies the rest. */
  datatype Player = Player(id: PlayerId, name: string, avatar: string, color: string)

  /** The room's `state`. */
  datatype Phase = Lobby | Playing | Won | Lost

  datatype Settings = Settings(width: nat, height: nat, mines: nat, maxPlayers: int)

  /** One board cell; `count` is meaningful for non-mine cells only. */
  datatype Cell = Cell(isMine: bool, count: nat, revealedBy: Option<PlayerId>)

  /** One cell of the projection sent to clients. */
  datatype MaskedCell = Hidden | Flagged | Shown(value: Value, revealedBy: Option<PlayerId>)

  /** What `reveal` returns; `won` and `triggeredBy` matter only when `gameOver`. */
  datatype RevealResult = RevealResult(cells: seq<CellReveal>, gameOver: bool, won: bool,
                                       triggeredBy: Option<PlayerId>)

  /** The public description of a room (`toJSON`). */
  datatype GameView = GameView(code: string, settings: Settings, players: seq<Player>,
                               hostId: PlayerId, state: Phase,
                               board: Option<seq<seq<MaskedCell>>>,
                               flagsRemaining: int, elapsedTime: int)

  const GameFull := "Game is full"
  const ColorAlreadyTaken := "Color already taken"
  const NeedTwoPlayers := "Need at least 2 players to start"
  const InvalidCoordinates := "Invalid coordinates"

  // ---------------------------------------------------------------- roster

  predicate ColorTaken(ps: seq<Player>, color: string)
  {
    exists i :: 0 <= i < |ps| && ps[i].color == color
  }

  predicate DistinctColors(ps: seq<Player>)
  {
    forall i, j :: 0 <= i < j < |ps| ==> ps[i].color != ps[j].color
  }

  predicate HasId(ps: seq<Player>, id: PlayerId)
  {
    exists i :: 0 <= i < |ps| && ps[i].id == id
  }

  /** The roster with every entry of `id` dropped, order kept (`players.filter`). */
  function Without(ps: seq<Player>, id: PlayerId): (r: seq<Player>)
    ensures forall p :: p in r <==> p in ps && p.id != id
    ensures |r| <= |ps|
  {
    if ps == [] then []
    else if ps[0].id == id then Without(ps[1..], id)
    else [ps[0]] + Without(ps[1..], id)
  }

  /** Removing a player who is not there changes nothing. */
  lemma {:induction false} WithoutAbsent(ps: seq<Player>, id: PlayerId)
    requires forall p :: p in ps ==> p.id != id
    ensures Without(ps, id) == ps
  {
    if ps != [] {
      assert ps[0] in ps;
      assert forall p :: p in ps[1..] ==> p in ps;
      WithoutAbsent(ps[1..], id);
      assert ps == [ps[0]] + ps[1..];
    }
  }

  /** Removing players keeps the remaining colours pairwise distinct. */
  lemma {:induction false} WithoutKeepsColorsDistinct(ps: seq<Player>, id: PlayerId)
    requires DistinctColors(ps)
    ensures DistinctColors(Without(ps, id))
  {
    if ps != [] {
      var rest := Without(ps[1..], id);
      assert DistinctColors(ps[1..]) by {
        forall i, j | 0 <= i < j < |ps[1..]| ensures ps[1..][i].color != ps[1..][j].color {
          assert ps[1..][i] == ps[i + 1] && ps[1..][j] == ps[j + 1];
        }
      }
      WithoutKeepsColorsDistinct(ps[1..], id);
      if ps[0].id != id {
        forall q | q in rest ensures q.color != ps[0].color {
          assert q in ps[1..];
          var k :| 0 <= k < |ps[1..]| && ps[1..][k] == q;
          assert ps[k + 1] == q;
        }
        var r := [ps[0]] + rest;
        forall i, j | 0 <= i < j < |r| ensures r[i].color != r[j].color {
          if i == 0 {
            assert r[j] == rest[j - 1] && r[j] in rest;
          } else {
            assert r[i] == rest[i - 1] && r[j] == rest[j - 1];
          }
        }
      }
    }
  }

  /** The host after `leaving` has gone and `remaining` is the new roster. */
  function NextHost(remaining: seq<Player>, host: PlayerId, leaving: PlayerId): PlayerId
  {
    if leaving == host && |remaining| > 0 then remaining[0].id else host
  }

  /**
   * After a departure that leaves someone behind, the host is one of the
   * remaining players and is never the player who left.
   */
  lemma NextHostRemains(ps: seq<Player>, host: PlayerId, leaving: PlayerId)
    requires HasId(ps, host)
    requires Without(ps, leaving) != []
    ensures NextHost(Without(ps, leaving), host, leaving) != leaving
    ensures HasId(Without(ps, leaving), NextHost(Without(ps, leaving), host, leaving))
  {
    var rest := Without(ps, leaving);
    assert rest[0] in rest;
    if leaving != host {
      var i :| 0 <= i < |ps| && ps[i].id == host;
      assert ps[i] in rest;
      var j :| 0 <= j < |rest| && rest[j] == ps[i];
    }
  }

  // ---------------------------------------------------------------- flags

  /** The flag set and reply after a flag toggle on cell c (`toggleFlag`). */
  function ToggledFlags(flagged: set<Coord>, revealed: set<Coord>, c: Coord): (set<Coord>, bool)
  {
    if c in revealed then (flagged, false)
    else if c in flagged then (flagged - {c}, false)
    else (flagged + {c}, true)
  }

  /** A toggle on an unrevealed cell flips exactly that cell and reports its new membership. */
  lemma ToggleFlips(flagged: set<Coord>, revealed: set<Coord>, c: Coord)
    requires c !in revealed
    ensures ToggledFlags(flagged, revealed, c).1 <==> c in ToggledFlags(flagged, revealed, c).0
    ensures (c in ToggledFlags(flagged, revealed, c).0) <==> c !in flagged
    ensures forall d :: d != c ==> (d in ToggledFlags(flagged, revealed, c).0 <==> d in flagged)
    ensures |ToggledFlags(flagged, revealed, c).0| ==
              if c in flagged then |flagged| - 1 else |flagged| + 1
  {
  }

  /** Toggling the same cell twice restores the flag set. */
  lemma {:induction false} ToggleTwice(flagged: set<Coord>, revealed: set<Coord>, c: Coord)
    ensures ToggledFlags(ToggledFlags(flagged, revealed, c).0, revealed, c).0 == flagged
  {
    if c !in revealed {
      if c in flagged {
        assert (flagged - {c}) + {c} == flagged;
      } else {
        assert (flagged + {c}) - {c} == flagged;
      }
    }
  }

  /** Flags never land on revealed cells. */
  lemma ToggleKeepsDisjoint(flagged: set<Coord>, revealed: set<Coord>, c: Coord)
    requires flagged !! revealed
    ensures ToggledFlags(flagged, revealed, c).0 !! revealed
  {
  }

  // ---------------------------------------------------------------- cells

  function At(r: CellReveal): Coord { (r.x, r.y) }

  /** The coordinates of the listed cells. */
  function CoordsOf(cells: seq<CellReveal>): (r: set<Coord>)
    ensures |r| <= |cells|
  {
    if cells == [] then {} else CoordsOf(cells[..|cells| - 1]) + {At(cells[|cells| - 1])}
  }

  lemma CoordsOfAppend(cells: seq<CellReveal>, r: CellReveal)
    ensures CoordsOf(cells + [r]) == CoordsOf(cells) + {At(r)}
  {
    assert (cells + [r])[..|cells|] == cells;
  }

  /** A coordinate is in CoordsOf(cells) exactly when some listed cell sits there. */
  lemma {:induction false} CoordsOfExact(cells: seq<CellReveal>)
    ensures forall i :: 0 <= i < |cells| ==> At(cells[i]) in CoordsOf(cells)
    ensures forall c :: c in CoordsOf(cells) ==> exists i :: 0 <= i < |cells| && At(cells[i]) == c
  {
    if cells != [] {
      var init := cells[..|cells| - 1];
      CoordsOfExact(init);
      assert forall i :: 0 <= i < |init| ==> cells[i] == init[i];
    }
  }

  /** Some cell among the first k of `cells` shows 0 and lies next to n. */
  ghost predicate Sourced(n: Coord, cells: seq<CellReveal>, k: int)
  {
    exists j :: 0 <= j < k && j < |cells| && cells[j].value == Count(0) && Near(n, At(cells[j]))
  }

  lemma SourcedExtend(n: Coord, cells: seq<CellReveal>, k: int, more: seq<CellReveal>, k': int)
    requires Sourced(n, cells, k) && k <= k'
    ensures Sourced(n, cells + more, k')
  {
    var j :| 0 <= j < k && j < |cells| && cells[j].value == Count(0) && Near(n, At(cells[j]));
    assert (cells + more)[j] == cells[j];
  }

  /** No two listed cells share a coordinate. */
  predicate DistinctCells(cells: seq<CellReveal>)
  {
    cells != [] ==>
      DistinctCells(cells[..|cells| - 1]) && At(cells[|cells| - 1]) !in CoordsOf(cells[..|cells| - 1])
  }

  lemma DistinctCellsAppend(cells: seq<CellReveal>, r: CellReveal)
    ensures DistinctCells(cells + [r]) <==> DistinctCells(cells) && At(r) !in CoordsOf(cells)
  {
    assert (cells + [r])[..|cells|] == cells;
  }

  /** Distinct cells sit at pairwise different coordinates, one coordinate per cell. */
  lemma {:induction false} DistinctCellsPairwise(cells: seq<CellReveal>)
    requires DistinctCells(cells)
    ensures forall i, j :: 0 <= i < j < |cells| ==> At(cells[i]) != At(cells[j])
    ensures |CoordsOf(cells)| == |cells|
  {
    if cells != [] {
      var init := cells[..|cells| - 1];
      var last := cells[|cells| - 1];
      DistinctCellsPairwise(init);
      CoordsOfExact(init);
      assert At(last) !in CoordsOf(init);
      assert CoordsOf(cells) == CoordsOf(init) + {At(last)};
      forall i, j | 0 <= i < j < |cells| ensures At(cells[i]) != At(cells[j]) {
        assert cells[i] == init[i];
        if j < |init| {
          assert cells[j] == init[j];
        } else {
          assert At(init[i]) in CoordsOf(init);
        }
      }
    }
  }


  /** `cells` is the list of coordinates `cs`, each shown as a mine. */
  predicate ListsMines(cells: seq<CellReveal>, cs: seq<Coord>)
  {
    |cells| == |cs| && forall i :: 0 <= i < |cs| ==> cells[i] == CellReveal(cs[i].0, cs[i].1, Mine)
  }

  function ValueOf(c: Cell): Value { if c.isMine then Mine else Count(c.count) }

  /** The projection of one cell: its value only once revealed. */
  function Mask(c: Cell, isRevealed: bool, isFlagged: bool): MaskedCell
  {
    if isRevealed then Shown(ValueOf(c), c.revealedBy)
    else if isFlagged then Flagged
    else Hidden
  }

  /** The projection of an unrevealed cell does not depend on the cell at all. */
  lemma MaskHidesUnrevealed(c: Cell, d: Cell, isFlagged: bool)
    ensures Mask(c, false, isFlagged) == Mask(d, false, isFlagged)
    ensures Mask(c, false, isFlagged) == (if isFlagged then Flagged else Hidden)
  {
  }

  /**
   * What one flood fill from (x, y) reveals, `before` being the revealed
   * set it starts from and `after` the one it leaves: distinct cells hidden
   * before, starting with the clicked one, each with its mine count; every
   * later cell is a neighbour of an earlier revealed 0; and every unflagged
   * cell of the board next to a revealed 0 ends up revealed.
   */
  ghost predicate IsFlood(w: int, h: int, m: set<Coord>, flagged: set<Coord>, x: int, y: int,
                          before: set<Coord>, cells: seq<CellReveal>, after: set<Coord>)
  {
    && after == before + CoordsOf(cells)
    && |cells| > 0 && At(cells[0]) == (x, y)
    && DistinctCells(cells) && CoordsOf(cells) !! before
    && (forall i :: 0 <= i < |cells| ==> cells[i].value == Count(NeighbourCount(m, cells[i].x, cells[i].y)))
    && (forall i {:trigger Sourced(At(cells[i]), cells, i)} :: 0 < i < |cells| ==> Sourced(At(cells[i]), cells, i))
    && (forall i, n {:trigger Near(n, At(cells[i]))} ::
          (0 <= i < |cells| && cells[i].value == Count(0) &&
           n in Cells(w, h) && Near(n, At(cells[i])) && n !in flagged) ==> n in after)
  }

  /** A fresh `height` by `width` board of safe, unrevealed cells with count 0. */
  method Blank(width: nat, height: nat) returns (b: array2<Cell>)
    ensures fresh(b) && b.Length0 == height && b.Length1 == width
    ensures forall y, x :: 0 <= y < height && 0 <= x < width ==> b[y, x] == Cell(false, 0, None)
  {
    b := new Cell[height, width]((_, _) => Cell(false, 0, None));
  }

  // ---------------------------------------------------------------- room

  class Game {
    const code: string
    const settings: Settings
    var players: seq<Player>
    var hostId: PlayerId
    var state: Phase
    var board: array2?<Cell>
    var startTime: Option<int>
    var revealed: set<Coord>
    var flagged: set<Coord>
    var lastActivity: int
    /** Where the current board's mines are (empty while there is no board). */
    ghost var mines: set<Coord>

    ghost predicate RosterValid()
      reads this`players
    {
      DistinctColors(players) && |players| <= Max(1, settings.maxPlayers)
    }

    /** The host is on the roster (kept for every room the registry holds). */
    ghost predicate HostPresent()
      reads this`players, this`hostId
    {
      HasId(players, hostId)
    }

    /** The board has the configured shape and its mine flags are exactly `mines`. */
    ghost predicate MinesAgree()
      reads this`board, this`mines, board
    {
      && board != null
      && board.Length0 == settings.height && board.Length1 == settings.width
      && mines <= Cells(settings.width, settings.height)
      && forall y, x {:trigger board[y, x]} :: 0 <= y < settings.height && 0 <= x < settings.width ==>
           board[y, x].isMine == ((x, y) in mines)
    }

    /** Every safe cell carries its adjacent-mine count. */
    ghost predicate CountsCorrect()
      reads this`board, this`mines, board
    {
      && MinesAgree()
      && forall y, x {:trigger board[y, x]} ::
           0 <= y < settings.height && 0 <= x < settings.width && !board[y, x].isMine ==>
           board[y, x].count == NeighbourCount(mines, x, y)
    }

    /** Revealed and flagged cells are disjoint cells of the board. */
    ghost predicate MarksValid()
      reads this`revealed, this`flagged
    {
      && revealed <= Cells(settings.width, settings.height)
      && flagged <= Cells(settings.width, settings.height)
      && revealed !! flagged
    }

    /**
     * Before the first click nothing is revealed and there are no mines; a
     * board, once laid out, has the configured mines, correct counts and no
     * revealed mine.
     */
    ghost predicate BoardValid()
      reads this`board, this`mines, this`revealed, board
    {
      && (board == null ==> revealed == {} && mines == {})
      && (board != null ==> CountsCorrect() && |mines| == settings.mines && revealed !! mines)
    }

    ghost predicate Valid()
      reads this`players, this`revealed, this`flagged, this`board, this`mines, board
    {
      RosterValid() && MarksValid() && BoardValid()
    }

    constructor (code: string, settings: Settings, host: Player, now: int)
      ensures this.code == code && this.settings == settings
      ensures players == [host] && hostId == host.id && state == Lobby
      ensures board == null && startTime == None && revealed == {} && flagged == {}
      ensures lastActivity == now
      ensures Valid()
    {
      this.code := code;
      this.settings := settings;
      players := [host];
      hostId := host.id;
      state := Lobby;
      board := null;
      startTime := None;
      revealed := {};
      flagged := {};
      lastActivity := now;
      mines := {};
      new;
      assert players[0].id == hostId;
    }

    /** Appends `p` unless the room is full or its colour is already in use. */
    method AddPlayer(p: Player, now: int) returns (r: Outcome<string>)
      requires Valid()
      modifies this
      ensures Valid()
      ensures |old(players)| >= settings.maxPlayers ==> r == Fail(GameFull)
      ensures |old(players)| < settings.maxPlayers && ColorTaken(old(players), p.color) ==>
                r == Fail(ColorAlreadyTaken)
      ensures r.Fail? ==> unchanged(this)
      ensures r.Pass? <==> |old(players)| < settings.maxPlayers && !ColorTaken(old(players), p.color)
      ensures r.Pass? ==> players == old(players) + [p] && lastActivity == now
      ensures old(HostPresent()) ==> HostPresent()
      ensures hostId == old(hostId) && state == old(state) && board == old(board)
      ensures revealed == old(revealed) && flagged == old(flagged) && startTime == old(startTime)
      ensures mines == old(mines)
    {
      if |players| >= settings.maxPlayers {
        return Fail(GameFull);
      }
      if ColorTaken(players, p.color) {
        return Fail(ColorAlreadyTaken);
      }
      ghost var before := players;
      players := players + [p];
      lastActivity := now;
      if HasId(before, hostId) {
        var i :| 0 <= i < |before| && before[i].id == hostId;
        assert players[i] == before[i];
      }
      r := Pass;
    }

    /** Drops `id` from the roster, hands the host role on if needed, and reports emptiness. */
    method RemovePlayer(id: PlayerId, now: int) returns (empty: bool)
      requires Valid()
      modifies this
      ensures Valid()
      ensures players == Without(old(players), id)
      ensures hostId == NextHost(players, old(hostId), id)
      ensures empty <==> players == []
      ensures !empty ==> hostId != id
      ensures !empty && old(HostPresent()) ==> HostPresent()
      ensures lastActivity == now
      ensures state == old(state) && board == old(board) && revealed == old(revealed)
      ensures flagged == old(flagged) && startTime == old(startTime) && mines == old(mines)
    {
      ghost var before := players;
      WithoutKeepsColorsDistinct(players, id);
      players := Without(players, id);
      lastActivity := now;
      if id == hostId && |players| > 0 {
        var _ := TransferHost();
        assert players[0] in players;
      }
      if players != [] && HasId(before, old(hostId)) {
        NextHostRemains(before, old(hostId), id);
      }
      empty := |players| == 0;
    }

    /** Makes the first player the host, returning it, or returns nothing on an empty roster. */
    method TransferHost() returns (r: Option<Player>)
      modifies this`hostId
      ensures players != [] ==> hostId == players[0].id && r == Some(players[0])
      ensures players == [] ==> hostId == old(hostId) && r == None
    {
      if |players| > 0 {
        hostId := players[0].id;
        return Some(players[0]);
      }
      return None;
    }

    /** Starts play if at least two players are present. */
    method StartGame(now: int) returns (r: Outcome<string>)
      requires Valid()
      modifies this
      ensures Valid()
      ensures r == (if |players| < 2 then Fail(NeedTwoPlayers) else Pass)
      ensures r.Fail? ==> unchanged(this)
      ensures r.Pass? ==> state == Playing && startTime == Some(now) && lastActivity == now
      ensures players == old(players) && hostId == old(hostId) && board == old(board)
      ensures revealed == old(revealed) && flagged == old(flagged) && mines == old(mines)
    {
      if |players| < 2 {
        return Fail(NeedTwoPlayers);
      }
      state := Playing;
      startTime := Some(now);
      lastActivity := now;
      r := Pass;
    }

    /** The number of mines in the 3x3 block around (x, y), read off the board. */
    method CountAdjacent(x: int, y: int) returns (n: nat)
      requires MinesAgree()
      ensures n == NeighbourCount(mines, x, y)
    {
      n := 0;
      for dy := -1 to 2
        invariant n == CountIn(Around(x, y)[..3 * (dy + 1)], mines)
      {
        for dx := -1 to 2
          invariant n == CountIn(Around(x, y)[..3 * (dy + 1) + (dx + 1)], mines)
        {
          var nx, ny := x + dx, y + dy;
          AroundCountStep(x, y, dx, dy, mines);
          assert (nx, ny) in mines ==> InBounds(settings.width, settings.height, (nx, ny));
          if 0 <= nx < settings.width && 0 <= ny < settings.height && board[ny, nx].isMine {
            n := n + 1;
          }
        }
      }
      assert Around(x, y)[..9] == Around(x, y);
    }

    /** The in-bounds cells of the 3x3 block around the first click. */
    method SafeZone(fx: int, fy: int) returns (forbidden: set<Coord>)
      ensures forbidden == Forbidden(settings.width, settings.height, (fx, fy))
    {
      var w, h := settings.width, settings.height;
      forbidden := {};
      for dy := -1 to 2
        invariant forbidden == set c | c in Forbidden(w, h, (fx, fy)) && c.1 - fy < dy
      {
        for dx := -1 to 2
          invariant forbidden == set c | c in Forbidden(w, h, (fx, fy)) &&
                                   (c.1 - fy < dy || (c.1 - fy == dy && c.0 - fx < dx))
        {
          var nx, ny := fx + dx, fy + dy;
          if 0 <= nx < w && 0 <= ny < h {
            forbidden := forbidden + {(nx, ny)};
          }
        }
      }
    }

    /** Writes its adjacent-mine count into every safe cell, leaving everything else alone. */
    method FillCounts()
      requires MinesAgree()
      modifies board
      ensures MinesAgree() && CountsCorrect()
      ensures forall y, x :: 0 <= y < settings.height && 0 <= x < settings.width ==>
                board[y, x] == (if old(board[y, x]).isMine then old(board[y, x])
                                else old(board[y, x]).(count := NeighbourCount(mines, x, y)))
    {
      var w, h := settings.width, settings.height;
      for y := 0 to h
        invariant MinesAgree()
        invariant forall yy, xx :: 0 <= yy < h && 0 <= xx < w ==>
                    board[yy, xx] == (if yy >= y || old(board[yy, xx]).isMine then old(board[yy, xx])
                                      else old(board[yy, xx]).(count := NeighbourCount(mines, xx, yy)))
      {
        for x := 0 to w
          invariant MinesAgree()
          invariant forall yy, xx :: 0 <= yy < h && 0 <= xx < w ==>
                      board[yy, xx] == (if yy > y || (yy == y && xx >= x) || old(board[yy, xx]).isMine
                                        then old(board[yy, xx])
                                        else old(board[yy, xx]).(count := NeighbourCount(mines, xx, yy)))
        {
          if !board[y, x].isMine {
            var count := CountAdjacent(x, y);
            board[y, x] := board[y, x].(count := count);
          }
        }
      }
    }

    /** The board holds exactly the mines of `mines`, and nothing else yet. */
    ghost predicate Planted()
      reads this`board, this`mines, board
    {
      && board != null && board.Length0 == settings.height && board.Length1 == settings.width
      && forall y, x {:trigger board[y, x]} :: 0 <= y < settings.height && 0 <= x < settings.width ==>
           board[y, x] == Cell((x, y) in mines, 0, None)
    }

    /**
     * One accepted draw of the placement loop: some cell outside the
     * forbidden zone that is not yet a mine becomes one. The random draws
     * it rejects are not modelled; the cell is any eligible one.
     */
    method PlantMine(forbidden: set<Coord>, ghost f: Coord)
      requires Planted() && forbidden == Forbidden(settings.width, settings.height, f)
      requires mines <= Eligible(settings.width, settings.height, f)
      requires |mines| < |Eligible(settings.width, settings.height, f)|
      modifies board, this`mines
      ensures Planted() && mines <= Eligible(settings.width, settings.height, f)
      ensures old(mines) <= mines && |mines| == |old(mines)| + 1
    {
      var w, h := settings.width, settings.height;
      SubsetDiffCard(Eligible(w, h, f), mines);
      ghost var e :| e in Eligible(w, h, f) - mines;
      assert e in Cells(w, h) && e !in forbidden && !board[e.1, e.0].isMine;
      var c: Coord :| c in Cells(w, h) && c !in forbidden && !board[c.1, c.0].isMine;
      board[c.1, c.0] := Cell(true, 0, None);
      mines := mines + {c};
    }

    /** The placement loop: draws until `settings.mines` mines are placed. */
    method PlaceMines(forbidden: set<Coord>, ghost f: Coord)
      requires board != null && board.Length0 == settings.height && board.Length1 == settings.width
      requires forall y, x :: 0 <= y < settings.height && 0 <= x < settings.width ==>
                 board[y, x] == Cell(false, 0, None)
      requires forbidden == Forbidden(settings.width, settings.height, f)
      requires settings.mines <= |Eligible(settings.width, settings.height, f)|
      modifies board, this`mines
      ensures Planted() && |mines| == settings.mines
      ensures mines <= Eligible(settings.width, settings.height, f)
    {
      mines := {};
      var placed := 0;
      while placed < settings.mines
        invariant placed <= settings.mines
        invariant Planted() && mines <= Eligible(settings.width, settings.height, f) && |mines| == placed
        decreases settings.mines - placed
      {
        PlantMine(forbidden, f);
        placed := placed + 1;
      }
    }

    /** A board holding just its mines agrees with the mine set. */
    lemma PlantedAgree(f: Coord)
      requires Planted() && mines <= Eligible(settings.width, settings.height, f)
      ensures MinesAgree()
      ensures mines !! Forbidden(settings.width, settings.height, f)
      ensures forall y, x :: 0 <= y < settings.height && 0 <= x < settings.width ==> board[y, x].revealedBy == None
    {
    }

    /**
     * Lays out a fresh board for a first click at (fx, fy): `settings.mines`
     * mines, none in the click's safe zone, every safe cell with its count.
     */
    method GenerateBoard(fx: int, fy: int)
      requires Valid() && board == null
      requires InBounds(settings.width, settings.height, (fx, fy))
      requires settings.mines <= |Eligible(settings.width, settings.height, (fx, fy))|
      modifies this`board, this`mines
      ensures Valid() && board != null && fresh(board)
      ensures mines !! Forbidden(settings.width, settings.height, (fx, fy))
      ensures forall y, x :: 0 <= y < settings.height && 0 <= x < settings.width ==>
                board[y, x].revealedBy == None
    {
      assert revealed == {};
      board := Blank(settings.width, settings.height);
      var forbidden := SafeZone(fx, fy);
      PlaceMines(forbidden, (fx, fy));
      PlantedAgree((fx, fy));
      FillCounts();
    }

    /** Every mine of the board, in row-major order, each shown as a mine. */
    method ListMines() returns (cells: seq<CellReveal>)
      requires MinesAgree()
      ensures ListsMines(cells, MinesRowMajor(mines, settings.width, settings.height))
    {
      cells := [];
      for cy := 0 to settings.height
        invariant ListsMines(cells, MinesRowMajor(mines, settings.width, cy))
      {
        for cx := 0 to settings.width
          invariant ListsMines(cells, MinesRowMajor(mines, settings.width, cy) + RowMines(mines, cy, cx))
        {
          if board[cy, cx].isMine {
            cells := cells + [CellReveal(cx, cy, Mine)];
          }
        }
      }
    }

    /** The in-bounds, unflagged cells around c that the flood fill has not seen yet. */
    function FreshNeighbours(c: Coord, visited: set<Coord>): set<Coord>
      reads this`flagged
    {
      set n | n in Cells(settings.width, settings.height) && Near(n, c) && n !in visited && n !in flagged
    }

    /** Queues the unseen, unflagged neighbours of c, marking them seen. */
    method EnqueueNeighbours(c: Coord, visited: set<Coord>, queue: seq<Coord>)
      returns (visited': set<Coord>, queue': seq<Coord>)
      ensures visited' == visited + FreshNeighbours(c, visited)
      ensures |queue'| >= |queue| && queue'[..|queue|] == queue
      ensures forall n :: n in queue'[|queue|..] <==> n in FreshNeighbours(c, visited)
      ensures forall i, j :: |queue| <= i < j < |queue'| ==> queue'[i] != queue'[j]
      ensures visited' == visited ==> queue' == queue
    {
      ghost var todo := FreshNeighbours(c, visited);
      ghost var added: seq<Coord> := [];
      visited', queue' := visited, queue;
      for dy := -1 to 2
        invariant forall n :: n in visited' <==> n in visited || (n in todo && n.1 - c.1 < dy)
        invariant queue' == queue + added
        invariant forall n :: n in added <==> n in visited' - visited
        invariant forall i, j :: 0 <= i < j < |added| ==> added[i] != added[j]
        invariant visited' == visited ==> added == []
      {
        for dx := -1 to 2
          invariant forall n :: n in visited' <==>
                      n in visited || (n in todo && (n.1 - c.1 < dy || (n.1 - c.1 == dy && n.0 - c.0 < dx)))
          invariant queue' == queue + added
          invariant forall n :: n in added <==> n in visited' - visited
          invariant forall i, j :: 0 <= i < j < |added| ==> added[i] != added[j]
          invariant visited' == visited ==> added == []
        {
          var nx, ny := c.0 + dx, c.1 + dy;
          if 0 <= nx < settings.width && 0 <= ny < settings.height &&
             (nx, ny) !in visited' && (nx, ny) !in flagged {
            assert forall i :: 0 <= i < |added| ==> added[i] in added;
            visited' := visited' + {(nx, ny)};
            queue' := queue' + [(nx, ny)];
            added := added + [(nx, ny)];
          }
        }
      }
      assert queue'[|queue|..] == added;
    }

    /** No mine lies in the 3x3 block around (x, y). */
    ghost predicate ClearAround(x: int, y: int)
      reads this`board, this`mines, board
    {
      && board != null && board.Length0 == settings.height && board.Length1 == settings.width
      && forall n: Coord :: InBounds(settings.width, settings.height, n) && Near(n, (x, y)) ==>
           !board[n.1, n.0].isMine
    }

    /** Every safe cell whose count is 0 has no mine around it. */
    ghost predicate ZeroMeansClear()
      reads this`board, this`mines, board
    {
      && board != null && board.Length0 == settings.height && board.Length1 == settings.width
      && forall y, x {:trigger board[y, x]} ::
           (0 <= y < settings.height && 0 <= x < settings.width &&
            !board[y, x].isMine && board[y, x].count == 0) ==> ClearAround(x, y)
    }

    lemma CountsGiveZeroMeansClear()
      requires CountsCorrect()
      ensures ZeroMeansClear()
    {
      forall y, x | 0 <= y < settings.height && 0 <= x < settings.width &&
                    !board[y, x].isMine && board[y, x].count == 0
        ensures ClearAround(x, y)
      {
        ZeroCountIffNoMineNear(mines, x, y);
      }
    }

    /* The search state of the flood fill: the cells revealed so far in
       order (`cells`), the work queue, the set of cells ever queued
       (`visited`) and the revealed set as it grows (`seen`).  Its loop
       invariant is split into the six predicates below. */

    /** Visited cells are safe, unflagged cells of the board. */
    ghost predicate SafeVisits(visited: set<Coord>)
      reads this, board
    {
      && board != null && board.Length0 == settings.height && board.Length1 == settings.width
      && visited <= Cells(settings.width, settings.height) && visited !! flagged
      && forall n :: n in visited ==> InBounds(settings.width, settings.height, n) && !board[n.1, n.0].isMine
    }

    /** Only visited cells are queued, and every visited cell is revealed or still queued. */
    ghost predicate QueueCovers(queue: seq<Coord>, visited: set<Coord>, seen: set<Coord>)
    {
      && (forall k :: 0 <= k < |queue| ==> queue[k] in visited)
      && (forall n :: n in visited ==> n in seen || n in queue)
    }

    /**
     * `cells` lists, starting at (x, y), distinct visited cells that were
     * hidden before the search, each with its count; `seen` adds them to
     * the cells revealed before.
     */
    ghost predicate Logged(x: int, y: int, cells: seq<CellReveal>, visited: set<Coord>, seen: set<Coord>)
      reads this, board
    {
      && board != null && board.Length0 == settings.height && board.Length1 == settings.width
      && (x, y) in visited && CoordsOf(cells) <= visited
      && seen == revealed + CoordsOf(cells)
      && DistinctCells(cells) && CoordsOf(cells) !! revealed
      && (cells != [] ==> At(cells[0]) == (x, y))
      && forall i :: 0 <= i < |cells| ==>
           InBounds(settings.width, settings.height, At(cells[i])) &&
           !board[cells[i].y, cells[i].x].isMine &&
           cells[i].value == Count(board[cells[i].y, cells[i].x].count)
    }

    /** Until the first cell is revealed, only the clicked cell is queued. */
    ghost predicate Started(x: int, y: int, cells: seq<CellReveal>, queue: seq<Coord>, seen: set<Coord>)
      reads this`revealed
    {
      cells == [] ==> |queue| == 1 && queue[0] == (x, y) && seen == revealed
    }

    /** Every visited or revealed cell but the clicked one was reached from a revealed 0. */
    ghost predicate Sources(x: int, y: int, cells: seq<CellReveal>, visited: set<Coord>)
    {
      && (forall n {:trigger Sourced(n, cells, |cells|)} ::
            n in visited && n != (x, y) ==> Sourced(n, cells, |cells|))
      && (forall i {:trigger Sourced(At(cells[i]), cells, i)} ::
            0 < i < |cells| ==> Sourced(At(cells[i]), cells, i))
    }

    /** Every unflagged neighbour of a revealed 0 has been visited. */
    ghost predicate Closed(cells: seq<CellReveal>, visited: set<Coord>)
      reads this`flagged
    {
      forall i, n {:trigger Near(n, At(cells[i]))} ::
        (0 <= i < |cells| && cells[i].value == Count(0) &&
         n in Cells(settings.width, settings.height) && Near(n, At(cells[i])) && n !in flagged) ==>
        n in visited
    }

    /** Popping a cell that is already revealed keeps the search state. */
    lemma SkipSeen(x: int, y: int, cells: seq<CellReveal>, queue: seq<Coord>, visited: set<Coord>, seen: set<Coord>)
      requires QueueCovers(queue, visited, seen) && Started(x, y, cells, queue, seen)
      requires queue != [] && queue[0] in seen && (x, y) !in revealed
      ensures QueueCovers(queue[1..], visited, seen) && cells != []
    {
      forall n | n in visited ensures n in seen || n in queue[1..] {
        if n !in seen {
          assert n in queue;
          var k :| 0 <= k < |queue| && queue[k] == n;
          assert queue[1..][k - 1] == n;
        }
      }
    }

    /** Popping a hidden cell and revealing it keeps the queue covering the visited cells. */
    lemma RecordQueue(queue: seq<Coord>, visited: set<Coord>, seen: set<Coord>)
      requires QueueCovers(queue, visited, seen) && queue != []
      ensures QueueCovers(queue[1..], visited, seen + {queue[0]})
    {
      forall n | n in visited ensures n in seen + {queue[0]} || n in queue[1..] {
        if n !in seen && n != queue[0] {
          var k :| 0 <= k < |queue| && queue[k] == n;
          assert queue[1..][k - 1] == n;
        }
      }
    }

    /** Revealing a visited cell hidden so far, as `r`, extends the log. */
    lemma RecordLog(x: int, y: int, cells: seq<CellReveal>, visited: set<Coord>, seen: set<Coord>, r: CellReveal)
      requires SafeVisits(visited) && Logged(x, y, cells, visited, seen)
      requires At(r) in visited && At(r) !in seen && (cells == [] ==> At(r) == (x, y))
      requires r.value == Count(board[r.y, r.x].count)
      ensures Logged(x, y, cells + [r], visited, seen + {At(r)})
    {
      CoordsOfAppend(cells, r);
      DistinctCellsAppend(cells, r);
      var cells' := cells + [r];
      forall i | 0 <= i < |cells'|
        ensures InBounds(settings.width, settings.height, At(cells'[i])) &&
                !board[cells'[i].y, cells'[i].x].isMine &&
                cells'[i].value == Count(board[cells'[i].y, cells'[i].x].count)
      {
        if i < |cells| {
          assert cells'[i] == cells[i];
        }
      }
    }

    /** Revealing the popped cell `c` as `r` keeps every visited cell sourced. */
    lemma RecordSources(x: int, y: int, cells: seq<CellReveal>, queue: seq<Coord>, visited: set<Coord>,
                        seen: set<Coord>, r: CellReveal)
      requires Sources(x, y, cells, visited) && Started(x, y, cells, queue, seen)
      requires Logged(x, y, cells, visited, seen)
      requires queue != [] && queue[0] !in seen && At(r) == queue[0] && queue[0] in visited
      ensures Sources(x, y, cells + [r], visited)
    {
      var c := At(r);
      var cells' := cells + [r];
      forall i | 0 < i < |cells'| ensures Sourced(At(cells'[i]), cells', i) {
        if i < |cells| {
          SourcedExtend(At(cells[i]), cells, i, [r], i);
        } else {
          CoordsOfExact(cells);
          assert c != (x, y);
          SourcedExtend(c, cells, |cells|, [r], i);
        }
      }
      forall n | n in visited && n != (x, y) ensures Sourced(n, cells', |cells'|) {
        SourcedExtend(n, cells, |cells|, [r], |cells'|);
      }
    }

    /** A revealed cell with a nonzero count leaves closure intact. */
    lemma RecordNonZero(cells: seq<CellReveal>, visited: set<Coord>, r: CellReveal)
      requires Closed(cells, visited) && r.value != Count(0)
      ensures Closed(cells + [r], visited)
    {
      var cells' := cells + [r];
      forall i, n | 0 <= i < |cells'| && cells'[i].value == Count(0) &&
                    n in Cells(settings.width, settings.height) && Near(n, At(cells'[i])) && n !in flagged
        ensures n in visited
      {
        assert i < |cells| && cells'[i] == cells[i];
      }
    }

    /** Queueing the cells `added` to `visited` keeps the queue covering the visited cells. */
    lemma ExpandQueue(queue: seq<Coord>, visited: set<Coord>, seen: set<Coord>,
                      queue': seq<Coord>, added: set<Coord>)
      requires QueueCovers(queue, visited, seen)
      requires |queue'| >= |queue| && queue'[..|queue|] == queue
      requires forall n :: n in queue'[|queue|..] <==> n in added
      ensures QueueCovers(queue', visited + added, seen)
    {
      var tail := queue'[|queue|..];
      forall k | 0 <= k < |queue'| ensures queue'[k] in visited + added {
        if k < |queue| {
          assert queue'[k] == queue'[..|queue|][k];
        } else {
          assert queue'[k] == tail[k - |queue|];
        }
      }
      forall n | n in visited + added ensures n in seen || n in queue' {
        if n in added {
          assert n in tail;
          var k :| 0 <= k < |tail| && tail[k] == n;
          assert queue'[|queue| + k] == n;
        } else if n !in seen {
          var k :| 0 <= k < |queue| && queue[k] == n;
          assert queue'[..|queue|][k] == n;
        }
      }
    }

    /** The fresh neighbours of a visited 0 are safe, unflagged cells. */
    lemma ExpandSafe(c: Coord, visited: set<Coord>)
      requires ZeroMeansClear() && SafeVisits(visited)
      requires c in visited && board[c.1, c.0].count == 0
      ensures SafeVisits(visited + FreshNeighbours(c, visited))
    {
      assert ClearAround(c.0, c.1);
    }

    /** The fresh neighbours of the last revealed cell, a 0, are sourced by it. */
    lemma ExpandSources(x: int, y: int, cells: seq<CellReveal>, visited: set<Coord>)
      requires Sources(x, y, cells, visited)
      requires cells != [] && cells[|cells| - 1].value == Count(0)
      ensures Sources(x, y, cells, visited + FreshNeighbours(At(cells[|cells| - 1]), visited))
    {
      var last := |cells| - 1;
      forall n | n in FreshNeighbours(At(cells[last]), visited) && n != (x, y)
        ensures Sourced(n, cells, |cells|)
      {
        assert cells[last].value == Count(0) && Near(n, At(cells[last]));
      }
    }

    /** Visiting the fresh neighbours of the last revealed cell closes it. */
    lemma ExpandClosed(cells: seq<CellReveal>, visited: set<Coord>)
      requires cells != [] && Closed(cells[..|cells| - 1], visited)
      ensures Closed(cells, visited + FreshNeighbours(At(cells[|cells| - 1]), visited))
    {
      var last := |cells| - 1;
      forall i, n | 0 <= i < |cells| && cells[i].value == Count(0) &&
                    n in Cells(settings.width, settings.height) && Near(n, At(cells[i])) && n !in flagged
        ensures n in visited + FreshNeighbours(At(cells[last]), visited)
      {
        if i < last {
          assert cells[..last][i] == cells[i];
        }
      }
    }

    ghost predicate SearchInv(x: int, y: int, cells: seq<CellReveal>, queue: seq<Coord>, visited: set<Coord>, seen: set<Coord>)
      reads this, board
    {
      && SafeVisits(visited) && QueueCovers(queue, visited, seen)
      && Logged(x, y, cells, visited, seen) && Started(x, y, cells, queue, seen)
      && Sources(x, y, cells, visited) && Closed(cells, visited)
    }

    /** Queues the fresh neighbours of the last revealed cell, a 0, closing it. */
    method ExpandZero(x: int, y: int, cells: seq<CellReveal>, queue0: seq<Coord>, visited0: set<Coord>, seen: set<Coord>)
      returns (visited: set<Coord>, queue: seq<Coord>)
      requires ZeroMeansClear()
      requires SafeVisits(visited0) && QueueCovers(queue0, visited0, seen)
      requires Logged(x, y, cells, visited0, seen) && Sources(x, y, cells, visited0)
      requires cells != [] && cells[|cells| - 1].value == Count(0)
      requires Closed(cells[..|cells| - 1], visited0)
      ensures SafeVisits(visited) && QueueCovers(queue, visited, seen)
      ensures Logged(x, y, cells, visited, seen) && Sources(x, y, cells, visited) && Closed(cells, visited)
      ensures Cells(settings.width, settings.height) - visited < Cells(settings.width, settings.height) - visited0 ||
              (visited == visited0 && queue == queue0)
    {
      var c := At(cells[|cells| - 1]);
      ExpandSafe(c, visited0);
      ExpandSources(x, y, cells, visited0);
      ExpandClosed(cells, visited0);
      visited, queue := EnqueueNeighbours(c, visited0, queue0);
      ExpandQueue(queue0, visited0, seen, queue, FreshNeighbours(c, visited0));
      if visited != visited0 {
        assert Cells(settings.width, settings.height) - visited < Cells(settings.width, settings.height) - visited0;
      }
    }

    method Visit(x: int, y: int, cells0: seq<CellReveal>, queue0: seq<Coord>, visited0: set<Coord>, seen0: set<Coord>)
      returns (cells: seq<CellReveal>, queue: seq<Coord>, visited: set<Coord>, seen: set<Coord>)
      requires ZeroMeansClear() && (x, y) !in revealed
      requires SearchInv(x, y, cells0, queue0, visited0, seen0) && queue0 != [] && queue0[0] !in seen0
      ensures SearchInv(x, y, cells, queue, visited, seen)
      ensures Cells(settings.width, settings.height) - visited < Cells(settings.width, settings.height) - visited0 ||
              (visited == visited0 && |queue| < |queue0|)
    {
      cells, queue, visited, seen := cells0, queue0, visited0, seen0;
      var c := queue[0];
      assert c in visited;
      var r := CellReveal(c.0, c.1, Count(board[c.1, c.0].count));
      RecordQueue(queue, visited, seen);
      RecordLog(x, y, cells, visited, seen, r);
      RecordSources(x, y, cells, queue, visited, seen, r);
      ghost var prev := cells;
      cells, seen, queue := cells + [r], seen + {c}, queue[1..];
      assert cells[..|cells| - 1] == prev && cells[|cells| - 1] == r;
      if r.value.n == 0 {
        visited, queue := ExpandZero(x, y, cells, queue, visited, seen);
      } else {
        RecordNonZero(prev, visited, r);
      }
    }

    method SearchStep(x: int, y: int, cells0: seq<CellReveal>, queue0: seq<Coord>, visited0: set<Coord>, seen0: set<Coord>)
      returns (cells: seq<CellReveal>, queue: seq<Coord>, visited: set<Coord>, seen: set<Coord>)
      requires ZeroMeansClear() && (x, y) !in revealed
      requires SearchInv(x, y, cells0, queue0, visited0, seen0) && queue0 != []
      ensures SearchInv(x, y, cells, queue, visited, seen)
      ensures Cells(settings.width, settings.height) - visited < Cells(settings.width, settings.height) - visited0 ||
              (visited == visited0 && |queue| < |queue0|)
    {
      cells, queue, visited, seen := cells0, queue0, visited0, seen0;
      if queue[0] in seen {
        SkipSeen(x, y, cells, queue, visited, seen);
        queue := queue[1..];
      } else {
        cells, queue, visited, seen := Visit(x, y, cells, queue, visited, seen);
      }
    }

    /** The search starts with the clicked cell queued and visited, and nothing logged. */
    lemma SearchStarts(x: int, y: int)
      requires ZeroMeansClear()
      requires InBounds(settings.width, settings.height, (x, y)) && !board[y, x].isMine
      requires (x, y) !in revealed && (x, y) !in flagged
      ensures SearchInv(x, y, [], [(x, y)], {(x, y)}, revealed)
    {
    }

    /**
     * The breadth-first search of the flood fill from (x, y): pops queued
     * cells, reveals those not yet revealed (`seen` is the revealed set as
     * it grows), and queues the unflagged neighbours of every revealed cell
     * whose count is 0. The board is only read.
     */
    method Spread(x: int, y: int) returns (cells: seq<CellReveal>, seen: set<Coord>)
      requires ZeroMeansClear()
      requires InBounds(settings.width, settings.height, (x, y)) && !board[y, x].isMine
      requires (x, y) !in revealed && (x, y) !in flagged
      ensures seen == revealed + CoordsOf(cells)
      ensures |cells| > 0 && At(cells[0]) == (x, y)
      ensures DistinctCells(cells) && CoordsOf(cells) !! revealed
      ensures CoordsOf(cells) <= Cells(settings.width, settings.height) && CoordsOf(cells) !! flagged
      ensures forall i :: 0 <= i < |cells| ==>
                InBounds(settings.width, settings.height, At(cells[i])) &&
                !board[cells[i].y, cells[i].x].isMine &&
                cells[i].value == Count(board[cells[i].y, cells[i].x].count)
      ensures forall i {:trigger Sourced(At(cells[i]), cells, i)} :: 0 < i < |cells| ==> Sourced(At(cells[i]), cells, i)
      ensures forall i, n {:trigger Near(n, At(cells[i]))} ::
                (0 <= i < |cells| && cells[i].value == Count(0) &&
                 n in Cells(settings.width, settings.height) && Near(n, At(cells[i])) && n !in flagged) ==>
                n in seen
    {
      cells := [];
      var queue := [(x, y)];
      var visited := {(x, y)};
      seen := revealed;
      SearchStarts(x, y);
      while queue != []
        invariant SearchInv(x, y, cells, queue, visited, seen)
        decreases Cells(settings.width, settings.height) - visited, |queue|
      {
        cells, queue, visited, seen := SearchStep(x, y, cells, queue, visited, seen);
      }
      assert Closed(cells, visited);
    }

    /**
     * Compared with the state before, the board is the same array and
     * differs only on the cells `cs`, whose revealer is now `pid`.
     */
    twostate predicate Restamped(new cs: set<Coord>, pid: PlayerId)
      reads this, board
    {
      && board != null && old(board) == board
      && board.Length0 == settings.height && board.Length1 == settings.width
      && forall yy, xx {:trigger board[yy, xx]} :: 0 <= yy < settings.height && 0 <= xx < settings.width ==>
           board[yy, xx] == (if (xx, yy) in cs then old(board[yy, xx]).(revealedBy := Some(pid)) else old(board[yy, xx]))
    }

    /** The cells `cs` of the board were revealed by `pid`, and no other cell by anyone. */
    ghost predicate AttributedTo(cs: set<Coord>, pid: PlayerId)
      reads this`board, board
    {
      && board != null && board.Length0 == settings.height && board.Length1 == settings.width
      && forall yy, xx {:trigger board[yy, xx]} :: 0 <= yy < settings.height && 0 <= xx < settings.width ==>
           board[yy, xx].revealedBy == (if (xx, yy) in cs then Some(pid) else None)
    }

    /** Records `pid` as the revealer of every listed cell, leaving all else alone. */
    method Stamp(cells: seq<CellReveal>, pid: PlayerId)
      requires CountsCorrect()
      requires forall i :: 0 <= i < |cells| ==> InBounds(settings.width, settings.height, At(cells[i]))
      modifies board
      ensures CountsCorrect() && Restamped(CoordsOf(cells), pid)
    {
      for i := 0 to |cells|
        invariant forall yy, xx :: 0 <= yy < settings.height && 0 <= xx < settings.width ==>
                    board[yy, xx] == (if (xx, yy) in CoordsOf(cells[..i]) then old(board[yy, xx]).(revealedBy := Some(pid))
                                      else old(board[yy, xx]))
      {
        CoordsOfAppend(cells[..i], cells[i]);
        assert cells[..i + 1] == cells[..i] + [cells[i]];
        board[cells[i].y, cells[i].x] := board[cells[i].y, cells[i].x].(revealedBy := Some(pid));
      }
      assert cells[..|cells|] == cells;
    }

    /** The search of the flood fill, stated against the mines. */
    method Search(x: int, y: int) returns (cells: seq<CellReveal>, seen: set<Coord>)
      requires CountsCorrect()
      requires InBounds(settings.width, settings.height, (x, y))
      requires (x, y) !in revealed && (x, y) !in flagged && (x, y) !in mines
      ensures IsFlood(settings.width, settings.height, mines, flagged, x, y, revealed, cells, seen)
      ensures CoordsOf(cells) <= Cells(settings.width, settings.height)
      ensures CoordsOf(cells) !! flagged && CoordsOf(cells) !! mines
      ensures forall i :: 0 <= i < |cells| ==> InBounds(settings.width, settings.height, At(cells[i]))
    {
      CountsGiveZeroMeansClear();
      cells, seen := Spread(x, y);
      BoardToMines(cells);
    }

    /** Cells read off safe board cells read their mine counts. */
    lemma BoardToMines(cells: seq<CellReveal>)
      requires CountsCorrect()
      requires forall i :: 0 <= i < |cells| ==>
                 InBounds(settings.width, settings.height, At(cells[i])) &&
                 !board[cells[i].y, cells[i].x].isMine &&
                 cells[i].value == Count(board[cells[i].y, cells[i].x].count)
      ensures CoordsOf(cells) !! mines
      ensures forall i :: 0 <= i < |cells| ==>
                cells[i].value == Count(NeighbourCount(mines, cells[i].x, cells[i].y))
      ensures forall i :: 0 <= i < |cells| ==> InBounds(settings.width, settings.height, At(cells[i]))
    {
      CoordsOfExact(cells);
      forall c | c in CoordsOf(cells) ensures c !in mines {
        var i :| 0 <= i < |cells| && At(cells[i]) == c;
        assert !board[c.1, c.0].isMine;
      }
    }

    /** The search of the flood fill, committed to the revealed set. */
    method Uncover(x: int, y: int) returns (cells: seq<CellReveal>)
      requires Valid() && board != null
      requires InBounds(settings.width, settings.height, (x, y))
      requires (x, y) !in revealed && (x, y) !in flagged && (x, y) !in mines
      modifies this`revealed
      ensures Valid()
      ensures IsFlood(settings.width, settings.height, mines, flagged, x, y, old(revealed), cells, revealed)
      ensures forall i :: 0 <= i < |cells| ==> InBounds(settings.width, settings.height, At(cells[i]))
    {
      var seen;
      cells, seen := Search(x, y);
      Commit(seen);
    }

    /** Replaces the revealed set by a larger one of safe, unflagged cells. */
    method Commit(seen: set<Coord>)
      requires Valid() && board != null
      requires revealed <= seen && seen <= Cells(settings.width, settings.height)
      requires seen !! flagged && seen !! mines
      modifies this`revealed
      ensures Valid() && revealed == seen
    {
      revealed := seen;
    }

    /**
     * The flood fill of `reveal`: the search, then each revealed cell
     * records who revealed it.
     */
    method FloodFill(x: int, y: int, pid: PlayerId) returns (cells: seq<CellReveal>)
      requires Valid() && board != null
      requires InBounds(settings.width, settings.height, (x, y))
      requires (x, y) !in revealed && (x, y) !in flagged && (x, y) !in mines
      modifies this`revealed, board
      ensures Valid()
      ensures IsFlood(settings.width, settings.height, mines, flagged, x, y, old(revealed), cells, revealed)
      ensures forall i :: 0 <= i < |cells| ==> InBounds(settings.width, settings.height, At(cells[i]))
      ensures forall i :: 0 <= i < |cells| ==>
                InBounds(settings.width, settings.height, At(cells[i])) &&
                board[cells[i].y, cells[i].x].revealedBy == Some(pid)
      ensures Restamped(CoordsOf(cells), pid)
    {
      cells := Uncover(x, y);
      Stamp(cells, pid);
      StampedCells(cells, pid);
    }

    /** After stamping, every listed cell records `pid`. */
    lemma StampedCells(cells: seq<CellReveal>, pid: PlayerId)
      requires board != null && board.Length0 == settings.height && board.Length1 == settings.width
      requires forall i :: 0 <= i < |cells| ==> InBounds(settings.width, settings.height, At(cells[i]))
      requires forall yy, xx :: 0 <= yy < settings.height && 0 <= xx < settings.width && (xx, yy) in CoordsOf(cells) ==>
                 board[yy, xx].revealedBy == Some(pid)
      ensures forall i :: 0 <= i < |cells| ==>
                InBounds(settings.width, settings.height, At(cells[i])) &&
                board[cells[i].y, cells[i].x].revealedBy == Some(pid)
    {
      CoordsOfExact(cells);
    }

    /** (x, y) is a board cell that is neither revealed nor flagged: a reveal there acts. */
    predicate Hits(x: int, y: int)
      reads this`revealed, this`flagged
    {
      InBounds(settings.width, settings.height, (x, y)) && (x, y) !in revealed && (x, y) !in flagged
    }

    /**
     * What `reveal` did to this playing room, as the server relies on it:
     * off-board cells fail and a revealed or flagged cell is a no-op, both
     * changing nothing; otherwise the room is touched, the game is over
     * exactly when it left play, a loss lists every mine and leaves the board
     * alone, and otherwise the reported cells are a flood fill from the
     * click (distinct, newly revealed, truly counted), the only cells whose
     * revealer changes (to `pid`), and a win reveals every safe cell. The
     * first click of a round is never a mine. Roster, host, flags and start
     * time stay.
     */
    twostate predicate RevealOutcome(x: int, y: int, pid: PlayerId, now: int, new r: Result<RevealResult, string>)
      reads this, board
    {
      && (board == old(board) || fresh(board))
      && players == old(players) && hostId == old(hostId)
      && flagged == old(flagged) && startTime == old(startTime)
      && (!InBounds(settings.width, settings.height, (x, y)) ==> r == Failure(InvalidCoordinates))
      && (InBounds(settings.width, settings.height, (x, y)) ==> r.Success?)
      && (!old(Hits(x, y)) ==>
            && state == old(state) && revealed == old(revealed) && mines == old(mines)
            && lastActivity == old(lastActivity) && board == old(board)
            && (board != null ==> Restamped({}, pid)))
      && (InBounds(settings.width, settings.height, (x, y)) && !old(Hits(x, y)) ==>
            r == Success(RevealResult([], false, false, None)))
      && (old(Hits(x, y)) ==> lastActivity == now)
      && (old(Hits(x, y)) && old(board) == null ==>
            state != Lost && mines !! Forbidden(settings.width, settings.height, (x, y)))
      && (old(Hits(x, y)) && state != Lost ==>
            IsFlood(settings.width, settings.height, mines, flagged, x, y, old(revealed), r.value.cells, revealed))
      && (old(Hits(x, y)) && old(board) != null ==>
            board == old(board) &&
            Restamped(if state == Lost then {} else CoordsOf(r.value.cells), pid))
      && (old(Hits(x, y)) && old(board) == null ==>
            AttributedTo(if state == Lost then {} else CoordsOf(r.value.cells), pid))
      && (r.Success? ==>
            && (r.value.gameOver <==> state != Playing)
            && (r.value.gameOver ==> board != null)
            && (r.value.won <==> state == Won)
            && (state != Lost ==> revealed == old(revealed) + CoordsOf(r.value.cells))
            && (state != Lost ==> r.value.triggeredBy == None)
            && (state == Lost ==>
                  r.value.triggeredBy == Some(pid) &&
                  ListsMines(r.value.cells, MinesRowMajor(mines, settings.width, settings.height)))
            && (state == Won ==> revealed == Cells(settings.width, settings.height) - mines))
    }

    /**
     * `reveal`: rejects coordinates off the board, ignores revealed and
     * flagged cells, lays out the board on the first reveal, loses on a
     * mine (listing every mine) and otherwise flood-fills, then tests for
     * the win. The precondition is the one under which the source's mine
     * placement terminates.
     */
    method Reveal(x: int, y: int, pid: PlayerId, now: int) returns (r: Result<RevealResult, string>)
      requires Valid()
      requires board == null && Hits(x, y) ==> settings.mines <= |Eligible(settings.width, settings.height, (x, y))|
      modifies this, board
      ensures Valid()
      ensures players == old(players) && hostId == old(hostId) && flagged == old(flagged)
      ensures startTime == old(startTime)
      ensures !InBounds(settings.width, settings.height, (x, y)) ==> r == Failure(InvalidCoordinates)
      ensures InBounds(settings.width, settings.height, (x, y)) && !old(Hits(x, y)) ==>
                r == Success(RevealResult([], false, false, None))
      ensures !old(Hits(x, y)) ==> unchanged(this) && (old(board) != null ==> unchanged(old(board)))
      ensures old(Hits(x, y)) ==> r.Success? && board != null && lastActivity == now
      ensures old(Hits(x, y)) && old(board) != null && (x, y) in mines ==> unchanged(old(board))
      ensures old(Hits(x, y)) && old(board) != null && (x, y) !in mines ==> Restamped(CoordsOf(r.value.cells), pid)
      ensures old(Hits(x, y)) && old(board) == null ==>
                AttributedTo(if (x, y) in mines then {} else CoordsOf(r.value.cells), pid)
      ensures old(Hits(x, y)) && old(board) == null ==>
                fresh(board) && mines !! Forbidden(settings.width, settings.height, (x, y))
      ensures old(Hits(x, y)) && old(board) != null ==> board == old(board) && mines == old(mines)
      ensures old(Hits(x, y)) && (x, y) in mines ==>
                && state == Lost && revealed == old(revealed)
                && r.value.gameOver && !r.value.won && r.value.triggeredBy == Some(pid)
                && ListsMines(r.value.cells, MinesRowMajor(mines, settings.width, settings.height))
      ensures old(Hits(x, y)) && (x, y) !in mines ==>
                && IsFlood(settings.width, settings.height, mines, flagged, x, y, old(revealed), r.value.cells, revealed)
                && (forall i :: 0 <= i < |r.value.cells| ==>
                      InBounds(settings.width, settings.height, At(r.value.cells[i])) &&
                      board[r.value.cells[i].y, r.value.cells[i].x].revealedBy == Some(pid))
                && r.value.triggeredBy == None && r.value.won == r.value.gameOver
                && (r.value.won <==> revealed == Cells(settings.width, settings.height) - mines)
                && state == (if r.value.won then Won else old(state))
    {
      if !InBounds(settings.width, settings.height, (x, y)) {
        return Failure(InvalidCoordinates);
      }
      if (x, y) in revealed || (x, y) in flagged {
        return Success(RevealResult([], false, false, None));
      }
      var res := Act(x, y, pid, now);
      return Success(res);
    }

    /** A reveal that hits a hidden, unflagged cell: lay out the board if needed, then play. */
    method Act(x: int, y: int, pid: PlayerId, now: int) returns (res: RevealResult)
      requires Valid() && Hits(x, y)
      requires board == null ==> settings.mines <= |Eligible(settings.width, settings.height, (x, y))|
      modifies this, board
      ensures Valid() && board != null && lastActivity == now
      ensures players == old(players) && hostId == old(hostId) && flagged == old(flagged)
      ensures startTime == old(startTime)
      ensures old(board) == null ==> fresh(board) && mines !! Forbidden(settings.width, settings.height, (x, y))
      ensures old(board) != null ==> board == old(board) && mines == old(mines)
      ensures old(board) != null && (x, y) in mines ==> unchanged(board)
      ensures old(board) != null && (x, y) !in mines ==> Restamped(CoordsOf(res.cells), pid)
      ensures old(board) == null ==> AttributedTo(if (x, y) in mines then {} else CoordsOf(res.cells), pid)
      ensures (x, y) in mines ==>
                && state == Lost && revealed == old(revealed)
                && res.gameOver && !res.won && res.triggeredBy == Some(pid)
                && ListsMines(res.cells, MinesRowMajor(mines, settings.width, settings.height))
      ensures (x, y) !in mines ==>
                && IsFlood(settings.width, settings.height, mines, flagged, x, y, old(revealed), res.cells, revealed)
                && (forall i :: 0 <= i < |res.cells| ==>
                      InBounds(settings.width, settings.height, At(res.cells[i])) &&
                      board[res.cells[i].y, res.cells[i].x].revealedBy == Some(pid))
                && res.triggeredBy == None && res.won == res.gameOver
                && (res.won <==> revealed == Cells(settings.width, settings.height) - mines)
                && state == (if res.won then Won else old(state))
    {
      if board == null {
        GenerateBoard(x, y);
      }
      res := Play(x, y, pid, now);
    }

    /** A reveal on a hidden, unflagged cell once the board exists. */
    method Play(x: int, y: int, pid: PlayerId, now: int) returns (res: RevealResult)
      requires Valid() && board != null && Hits(x, y)
      modifies this`revealed, this`state, this`lastActivity, board
      ensures Valid() && lastActivity == now
      ensures (x, y) in mines ==> unchanged(board)
      ensures (x, y) !in mines ==> Restamped(CoordsOf(res.cells), pid)
      ensures (x, y) in mines ==>
                && state == Lost && revealed == old(revealed)
                && res.gameOver && !res.won && res.triggeredBy == Some(pid)
                && ListsMines(res.cells, MinesRowMajor(mines, settings.width, settings.height))
      ensures (x, y) !in mines ==>
                && IsFlood(settings.width, settings.height, mines, flagged, x, y, old(revealed), res.cells, revealed)
                && (forall i :: 0 <= i < |res.cells| ==>
                      InBounds(settings.width, settings.height, At(res.cells[i])) &&
                      board[res.cells[i].y, res.cells[i].x].revealedBy == Some(pid))
                && res.triggeredBy == None && res.won == res.gameOver
                && (res.won <==> revealed == Cells(settings.width, settings.height) - mines)
                && state == (if res.won then Won else old(state))
    {
      if board[y, x].isMine {
        res := HitMine(pid, now);
      } else {
        res := RevealSafe(x, y, pid, now);
      }
    }

    /** A mine was revealed: the game is lost and every mine is listed. */
    method HitMine(pid: PlayerId, now: int) returns (res: RevealResult)
      requires MinesAgree()
      modifies this`state, this`lastActivity
      ensures state == Lost && lastActivity == now
      ensures res.gameOver && !res.won && res.triggeredBy == Some(pid)
      ensures ListsMines(res.cells, MinesRowMajor(mines, settings.width, settings.height))
    {
      state := Lost;
      var cells := ListMines();
      lastActivity := now;
      return RevealResult(cells, true, false, Some(pid));
    }

    /** A safe cell was revealed: the flood fill, then the win test. */
    method RevealSafe(x: int, y: int, pid: PlayerId, now: int) returns (res: RevealResult)
      requires Valid() && board != null && Hits(x, y) && (x, y) !in mines
      modifies this`revealed, this`state, this`lastActivity, board
      ensures Valid() && lastActivity == now
      ensures IsFlood(settings.width, settings.height, mines, flagged, x, y, old(revealed), res.cells, revealed)
      ensures forall i :: 0 <= i < |res.cells| ==>
                InBounds(settings.width, settings.height, At(res.cells[i])) &&
                board[res.cells[i].y, res.cells[i].x].revealedBy == Some(pid)
      ensures Restamped(CoordsOf(res.cells), pid)
      ensures res.triggeredBy == None && res.won == res.gameOver
      ensures res.won <==> revealed == Cells(settings.width, settings.height) - mines
      ensures state == (if res.won then Won else old(state))
    {
      var cells := FloodFill(x, y, pid);
      res := WinCheck(cells, now);
    }

    /** The win test after a flood fill: won once as many cells are revealed as there are safe cells. */
    method WinCheck(cells: seq<CellReveal>, now: int) returns (res: RevealResult)
      requires Valid() && board != null
      modifies this`state, this`lastActivity
      ensures res.cells == cells && res.triggeredBy == None && res.won == res.gameOver
      ensures res.won <==> revealed == Cells(settings.width, settings.height) - mines
      ensures state == (if res.won then Won else old(state)) && lastActivity == now
    {
      WinCountMeansAllSafe(settings.width, settings.height, mines, revealed);
      if |revealed| == settings.width * settings.height - settings.mines {
        state := Won;
        res := RevealResult(cells, true, true, None);
      } else {
        res := RevealResult(cells, false, false, None);
      }
      lastActivity := now;
    }

    /**
     * `toggleFlag`: rejects coordinates off the board; otherwise the flag
     * set and the reply are those of `ToggledFlags`, and the activity time
     * moves only when a flag actually changed.
     */
    method ToggleFlag(x: int, y: int, pid: PlayerId, now: int) returns (r: Result<bool, string>)
      requires Valid()
      modifies this`flagged, this`lastActivity
      ensures Valid()
      ensures !InBounds(settings.width, settings.height, (x, y)) ==>
                r == Failure(InvalidCoordinates) && flagged == old(flagged) && lastActivity == old(lastActivity)
      ensures InBounds(settings.width, settings.height, (x, y)) ==>
                && flagged == ToggledFlags(old(flagged), revealed, (x, y)).0
                && r == Success(ToggledFlags(old(flagged), revealed, (x, y)).1)
                && lastActivity == (if (x, y) in revealed then old(lastActivity) else now)
    {
      if !InBounds(settings.width, settings.height, (x, y)) {
        return Failure(InvalidCoordinates);
      }
      if (x, y) in revealed {
        return Success(false);
      }
      if (x, y) in flagged {
        flagged := flagged - {(x, y)};
        lastActivity := now;
        return Success(false);
      }
      flagged := flagged + {(x, y)};
      lastActivity := now;
      return Success(true);
    }

    /**
     * `m` is the projection of the room sent to clients: nothing without a
     * board, else a height-by-width grid holding each cell's projection.
     */
    predicate Projects(m: Option<seq<seq<MaskedCell>>>)
      reads this`board, this`revealed, this`flagged, board
    {
      && (m.None? <==> board == null)
      && (m.Some? ==>
            && board.Length0 == settings.height && board.Length1 == settings.width
            && |m.value| == settings.height
            && (forall y :: 0 <= y < settings.height ==> |m.value[y]| == settings.width)
            && forall y, x :: 0 <= y < settings.height && 0 <= x < settings.width ==>
                 m.value[y][x] == Mask(board[y, x], (x, y) in revealed, (x, y) in flagged))
    }

    /**
     * `getMaskedState`: nothing before the board exists; afterwards, row by
     * row, each cell's projection, which shows a value only once revealed.
     */
    method GetMaskedState() returns (r: Option<seq<seq<MaskedCell>>>)
      requires board != null ==> board.Length0 == settings.height && board.Length1 == settings.width
      ensures Projects(r)
    {
      if board == null {
        return None;
      }
      var masked: seq<seq<MaskedCell>> := [];
      for y := 0 to settings.height
        invariant |masked| == y
        invariant forall yy :: 0 <= yy < y ==> |masked[yy]| == settings.width
        invariant forall yy, x :: 0 <= yy < y && 0 <= x < settings.width ==>
                    masked[yy][x] == Mask(board[yy, x], (x, yy) in revealed, (x, yy) in flagged)
      {
        var row: seq<MaskedCell> := [];
        for x := 0 to settings.width
          invariant |row| == x
          invariant forall xx :: 0 <= xx < x ==> row[xx] == Mask(board[y, xx], (xx, y) in revealed, (xx, y) in flagged)
        {
          if (x, y) in revealed {
            row := row + [Shown(ValueOf(board[y, x]), board[y, x].revealedBy)];
          } else if (x, y) in flagged {
            row := row + [Flagged];
          } else {
            row := row + [Hidden];
          }
        }
        masked := masked + [row];
      }
      return Some(masked);
    }

    /** In a valid room the projection never shows a mine, and shows exactly the revealed cells. */
    lemma MaskShowsOnlySafeRevealed(x: int, y: int)
      requires Valid() && board != null && InBounds(settings.width, settings.height, (x, y))
      ensures Mask(board[y, x], (x, y) in revealed, (x, y) in flagged).Shown? <==> (x, y) in revealed
      ensures Mask(board[y, x], (x, y) in revealed, (x, y) in flagged).Shown? ==>
                Mask(board[y, x], (x, y) in revealed, (x, y) in flagged).value ==
                  Count(NeighbourCount(mines, x, y))
      ensures Mask(board[y, x], (x, y) in revealed, (x, y) in flagged).Flagged? <==> (x, y) in flagged
    {
    }

    /** `reset`: a new round in the same room (the board is laid out again on the next reveal). */
    method Reset(now: int)
      requires Valid()
      modifies this
      ensures Valid()
      ensures board == null && revealed == {} && flagged == {} && mines == {}
      ensures state == Playing && startTime == Some(now) && lastActivity == now
      ensures players == old(players) && hostId == old(hostId)
    {
      board := null;
      mines := {};
      revealed := {};
      flagged := {};
      state := Playing;
      startTime := Some(now);
      lastActivity := now;
    }

    /**
     * The field updates of the server's `toLobby` command: back to the
     * lobby with no board, no marks and no start time; the activity time is
     * left alone.
     */
    method ReturnToLobby()
      requires Valid()
      modifies this
      ensures Valid()
      ensures board == null && revealed == {} && flagged == {} && mines == {}
      ensures state == Lobby && startTime == None
      ensures players == old(players) && hostId == old(hostId) && lastActivity == old(lastActivity)
    {
      state := Lobby;
      board := null;
      mines := {};
      revealed := {};
      flagged := {};
      startTime := None;
    }

    /** `settings.mines - flaggedCells.size`; negative once more cells are flagged than there are mines. */
    function FlagsRemaining(): (n: int)
      reads this`flagged
      ensures n + |flagged| == settings.mines
      ensures n >= 0 <==> |flagged| <= settings.mines
    {
      settings.mines - |flagged|
    }

    /** `toJSON`: the public description of the room at time `now`. */
    method ToView(now: int) returns (v: GameView)
      requires board != null ==> board.Length0 == settings.height && board.Length1 == settings.width
      ensures v.code == code && v.settings == settings && v.players == players
      ensures v.hostId == hostId && v.state == state
      ensures Projects(v.board)
      ensures v.flagsRemaining + |flagged| == settings.mines
      ensures v.elapsedTime == ElapsedSeconds(startTime, now)
    {
      var masked := GetMaskedState();
      v := GameView(code, settings, players, hostId, state, masked, FlagsRemaining(),
                    ElapsedSeconds(startTime, now));
    }
  }

  /**
   * Whole seconds since the start (`Math.floor((now - startTime) / 1000)`),
   * 0 before the game has started.
   */
  function ElapsedSeconds(startTime: Option<int>, now: int): (r: int)
    ensures startTime.None? ==> r == 0
    ensures startTime.Some? ==> r * 1000 <= now - startTime.value < r * 1000 + 1000
    ensures startTime.Some? && startTime.value <= now ==> r >= 0
  {
    match startTime
    case None => 0
    case Some(t) => (now - t) / 1000
  }
}
