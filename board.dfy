/**
 * Pure geometry of the minefield: coordinates, rectangles of cells and their
 * sizes, the 3x3 neighbourhood of a cell, the first-click safe zone, the
 * adjacent-mine count, and the row-major list of mines disclosed on a loss.
 * The `Game` class (games.dfy) states its contracts in these terms.
 */
module Board {

  /** A cell position (x, y): column x, row y. */
  type Coord = (int, int)

  /** What a revealed cell shows: a mine, or its adjacent-mine count. */
  datatype Value = Mine | Count(n: nat)

  /** One entry of a reveal delta: the cell and what it shows. */
  datatype CellReveal = CellReveal(x: int, y: int, value: Value)

  function Min(a: int, b: int): int { if a <= b then a else b }
  function Max(a: int, b: int): int { if a <= b then b else a }

  predicate InBounds(w: int, h: int, c: Coord) { 0 <= c.0 < w && 0 <= c.1 < h }

  /** The cells with x0 <= x < x1 and y0 <= y < y1. */
  function Rect(x0: int, x1: int, y0: int, y1: int): (r: set<Coord>)
    ensures forall c: Coord :: c in r <==> x0 <= c.0 < x1 && y0 <= c.1 < y1
  {
    var r := set x, y | x0 <= x < x1 && y0 <= y < y1 :: (x, y);
    assert forall c: Coord :: x0 <= c.0 < x1 && y0 <= c.1 < y1 ==> (c.0, c.1) in r;
    r
  }

  /** Every cell of a w-by-h grid. */
  function Cells(w: int, h: int): (r: set<Coord>)
    ensures forall c :: c in r <==> InBounds(w, h, c)
  {
    Rect(0, w, 0, h)
  }

  lemma {:induction false} RowCard(x0: int, x1: int, y: int)
    requires x0 <= x1
    ensures |Rect(x0, x1, y, y + 1)| == x1 - x0
    decreases x1 - x0
  {
    if x0 == x1 {
      assert Rect(x0, x1, y, y + 1) == {};
    } else {
      RowCard(x0, x1 - 1, y);
      assert Rect(x0, x1, y, y + 1) == Rect(x0, x1 - 1, y, y + 1) + {(x1 - 1, y)};
    }
  }

  /** A rectangle of cells has as many cells as the product of its sides. */
  lemma {:induction false} RectCard(x0: int, x1: int, y0: int, y1: int)
    requires x0 <= x1 && y0 <= y1
    ensures |Rect(x0, x1, y0, y1)| == (x1 - x0) * (y1 - y0)
    decreases y1 - y0
  {
    if y0 == y1 {
      assert Rect(x0, x1, y0, y1) == {};
    } else {
      RectCard(x0, x1, y0, y1 - 1);
      RowCard(x0, x1, y1 - 1);
      assert Rect(x0, x1, y0, y1) == Rect(x0, x1, y0, y1 - 1) + Rect(x0, x1, y1 - 1, y1);
      assert Rect(x0, x1, y0, y1 - 1) !! Rect(x0, x1, y1 - 1, y1);
      assert (x1 - x0) * (y1 - y0) == (x1 - x0) * (y1 - 1 - y0) + (x1 - x0);
    }
  }

  /** A w-by-h grid has w*h cells. */
  lemma CellsCard(w: nat, h: nat)
    ensures |Cells(w, h)| == w * h
  {
    RectCard(0, w, 0, h);
  }

  /** Removing a subset removes exactly its size. */
  lemma SubsetDiffCard<T>(a: set<T>, b: set<T>)
    requires b <= a
    ensures |a - b| == |a| - |b|
  {
    assert a == (a - b) + b;
    assert (a - b) !! b;
  }

  /** A subset as large as its superset is the whole superset. */
  lemma SubsetSameCard<T>(a: set<T>, b: set<T>)
    requires b <= a && |b| == |a|
    ensures b == a
  {
    SubsetDiffCard(a, b);
    assert a - b == {};
  }

  /**
   * The win test compares the number of revealed cells with the number of
   * safe cells; for revealed cells that are safe cells of the board, that is
   * exactly "every safe cell is revealed".
   */
  lemma WinCountMeansAllSafe(w: nat, h: nat, m: set<Coord>, revealed: set<Coord>)
    requires m <= Cells(w, h) && revealed <= Cells(w, h) && revealed !! m
    ensures |revealed| == w * h - |m| <==> revealed == Cells(w, h) - m
  {
    CellsCard(w, h);
    SubsetDiffCard(Cells(w, h), m);
    if |revealed| == w * h - |m| {
      SubsetSameCard(Cells(w, h) - m, revealed);
    }
  }

  /** a lies in the 3x3 block centred on b (a cell is near itself). */
  predicate Near(a: Coord, b: Coord) { -1 <= a.0 - b.0 <= 1 && -1 <= a.1 - b.1 <= 1 }

  /** The first-click safe zone: the in-bounds cells of the 3x3 block around f. */
  function Forbidden(w: int, h: int, f: Coord): (r: set<Coord>)
    ensures forall c :: c in r <==> InBounds(w, h, c) && Near(c, f)
  {
    set c | c in Cells(w, h) && Near(c, f)
  }

  /** The cells a mine may be placed on when the first click is at f. */
  function Eligible(w: int, h: int, f: Coord): set<Coord>
  {
    Cells(w, h) - Forbidden(w, h, f)
  }

  lemma MulMono(a: int, b: int, p: int, q: int)
    requires 0 <= a <= p && 0 <= b <= q
    ensures a * b <= p * q
  {
    assert a * b <= p * b;
    assert p * b <= p * q;
  }

  /** The safe zone of an in-bounds click never has more than min(w,3)*min(h,3) cells. */
  lemma ForbiddenCard(w: int, h: int, f: Coord)
    requires InBounds(w, h, f)
    ensures |Forbidden(w, h, f)| <= Min(w, 3) * Min(h, 3)
  {
    var x0, x1 := Max(0, f.0 - 1), Min(w, f.0 + 2);
    var y0, y1 := Max(0, f.1 - 1), Min(h, f.1 + 2);
    assert Forbidden(w, h, f) == Rect(x0, x1, y0, y1);
    RectCard(x0, x1, y0, y1);
    MulMono(x1 - x0, y1 - y0, Min(w, 3), Min(h, 3));
  }

  /**
   * The mine-count check the home screen applies before `create`
   * (client/js/screens/home.js:170): fewer mines than cells.
   */
  predicate ClientAccepts(w: int, h: int, mines: int) { mines < w * h }

  /**
   * Board settings under which mine placement always finishes: whatever cell the
   * first click hits, there are at least `mines` cells outside its safe zone.
   */
  predicate Playable(w: int, h: int, mines: int)
  {
    mines <= w * h - Min(w, 3) * Min(h, 3)
  }

  /** With playable settings, every in-bounds first click leaves room for all mines. */
  lemma PlayableAlwaysPlaceable(w: nat, h: nat, mines: int, f: Coord)
    requires Playable(w, h, mines) && InBounds(w, h, f)
    ensures mines <= |Eligible(w, h, f)|
  {
    CellsCard(w, h);
    ForbiddenCard(w, h, f);
    SubsetDiffCard(Cells(w, h), Forbidden(w, h, f));
  }

  /**
   * The client check admits settings whose first reveal can never place its
   * mines: a 3x3 board with one mine, first click in the centre, has no cell
   * outside the safe zone.
   */
  lemma ClientCheckAdmitsHang()
    ensures ClientAccepts(3, 3, 1) && !Playable(3, 3, 1)
    ensures Eligible(3, 3, (1, 1)) == {}
  {
    forall c | c in Cells(3, 3) ensures c in Forbidden(3, 3, (1, 1)) { }
  }

  /** The nine cells of the 3x3 block centred on (x, y), row by row (dy outer, dx inner). */
  function Around(x: int, y: int): (r: seq<Coord>)
    ensures |r| == 9
  {
    seq(9, k => (x + k % 3 - 1, y + k / 3 - 1))
  }

  /** The block entry visited by the source's loops at offset (dx, dy). */
  lemma AroundAt(x: int, y: int, dx: int, dy: int)
    requires -1 <= dx <= 1 && -1 <= dy <= 1
    ensures Around(x, y)[3 * (dy + 1) + (dx + 1)] == (x + dx, y + dy)
  {
    var k := 3 * (dy + 1) + (dx + 1);
    assert k % 3 == dx + 1 && k / 3 == dy + 1;
  }

  /** The block lists each of its nine cells once, and exactly the cells near (x, y). */
  lemma AroundExact(x: int, y: int)
    ensures forall i, j :: 0 <= i < j < 9 ==> Around(x, y)[i] != Around(x, y)[j]
    ensures forall c :: c in Around(x, y) <==> Near(c, (x, y))
    ensures Around(x, y)[4] == (x, y)
  {
    var r := Around(x, y);
    forall i, j | 0 <= i < j < 9 ensures r[i] != r[j] {
      assert i == 3 * (i / 3) + i % 3 && j == 3 * (j / 3) + j % 3;
    }
    forall c | Near(c, (x, y)) ensures c in r {
      AroundAt(x, y, c.0 - x, c.1 - y);
    }
  }

  /** How many entries of s lie in m. */
  function CountIn(s: seq<Coord>, m: set<Coord>): (n: nat)
    ensures n <= |s|
  {
    if s == [] then 0 else CountIn(s[..|s| - 1], m) + (if s[|s| - 1] in m then 1 else 0)
  }

  lemma {:induction false} CountInAppend(s: seq<Coord>, c: Coord, m: set<Coord>)
    ensures CountIn(s + [c], m) == CountIn(s, m) + (if c in m then 1 else 0)
  {
    assert (s + [c])[..|s + [c]| - 1] == s;
  }

  /** Counting one more entry of the block, at offset (dx, dy), adds one exactly when it is in `m`. */
  lemma AroundCountStep(x: int, y: int, dx: int, dy: int, m: set<Coord>)
    requires -1 <= dx <= 1 && -1 <= dy <= 1
    ensures var k := 3 * (dy + 1) + (dx + 1);
            CountIn(Around(x, y)[..k + 1], m) == CountIn(Around(x, y)[..k], m) + (if (x + dx, y + dy) in m then 1 else 0)
  {
    var k := 3 * (dy + 1) + (dx + 1);
    AroundAt(x, y, dx, dy);
    assert Around(x, y)[..k + 1] == Around(x, y)[..k] + [(x + dx, y + dy)];
    CountInAppend(Around(x, y)[..k], (x + dx, y + dy), m);
  }

  /** Over a list without repeats, CountIn is the number of listed cells in m. */
  lemma {:induction false} CountInCard(s: seq<Coord>, m: set<Coord>)
    requires forall i, j :: 0 <= i < j < |s| ==> s[i] != s[j]
    ensures CountIn(s, m) == |set c | c in m && c in s|
  {
    if s == [] {
      assert (set c | c in m && c in s) == {};
    } else {
      var s', e := s[..|s| - 1], s[|s| - 1];
      assert s == s' + [e];
      CountInCard(s', m);
      var before := set c | c in m && c in s';
      assert e !in s';
      if e in m {
        assert (set c | c in m && c in s) == before + {e};
      } else {
        assert (set c | c in m && c in s) == before;
      }
    }
  }

  /** A listed cell outside m keeps CountIn below the length of the list. */
  lemma {:induction false} CountInMissing(s: seq<Coord>, m: set<Coord>, i: int)
    requires 0 <= i < |s| && s[i] !in m
    ensures CountIn(s, m) <= |s| - 1
  {
    if i == |s| - 1 {
    } else {
      CountInMissing(s[..|s| - 1], m, i);
    }
  }

  /** The adjacent-mine count of (x, y) for the mine set m, summed over its 3x3 block. */
  function NeighbourCount(m: set<Coord>, x: int, y: int): nat
  {
    CountIn(Around(x, y), m)
  }

  /** The count equals the number of mines in the 3x3 block around (x, y). */
  lemma NeighbourCountIsMinesNear(m: set<Coord>, x: int, y: int)
    ensures NeighbourCount(m, x, y) == |set c | c in m && Near(c, (x, y))|
  {
    AroundExact(x, y);
    CountInCard(Around(x, y), m);
    assert (set c | c in m && c in Around(x, y)) == (set c | c in m && Near(c, (x, y)));
  }

  /** A safe cell has at most eight mines around it. */
  lemma NeighbourCountBound(m: set<Coord>, x: int, y: int)
    requires (x, y) !in m
    ensures NeighbourCount(m, x, y) <= 8
  {
    AroundExact(x, y);
    CountInMissing(Around(x, y), m, 4);
  }

  /** The count is zero exactly when no mine lies in the 3x3 block. */
  lemma ZeroCountIffNoMineNear(m: set<Coord>, x: int, y: int)
    ensures NeighbourCount(m, x, y) == 0 <==> forall c :: c in m ==> !Near(c, (x, y))
  {
    NeighbourCountIsMinesNear(m, x, y);
    var s := set c | c in m && Near(c, (x, y));
    if NeighbourCount(m, x, y) != 0 {
      var c :| c in s;
      assert c in m && Near(c, (x, y));
    } else {
      assert s == {};
      forall c | c in m ensures !Near(c, (x, y)) {
        assert c !in s;
      }
    }
  }

  /** a comes before b in row-major order (by row, then by column). */
  predicate RowMajorBefore(a: Coord, b: Coord) { a.1 < b.1 || (a.1 == b.1 && a.0 < b.0) }

  predicate StrictlyRowMajor(s: seq<Coord>)
  {
    forall i, j :: 0 <= i < j < |s| ==> RowMajorBefore(s[i], s[j])
  }

  /** The mines of row y with x < n, left to right. */
  function RowMines(m: set<Coord>, y: int, n: int): seq<Coord>
    decreases n
  {
    if n <= 0 then [] else RowMines(m, y, n - 1) + (if (n - 1, y) in m then [(n - 1, y)] else [])
  }

  /** The mines of rows 0 .. rows-1 of a grid of width w, in row-major order. */
  function MinesRowMajor(m: set<Coord>, w: int, rows: int): seq<Coord>
    decreases rows
  {
    if rows <= 0 then [] else MinesRowMajor(m, w, rows - 1) + RowMines(m, rows - 1, w)
  }

  lemma {:induction false} RowMinesExact(m: set<Coord>, y: int, n: int)
    ensures forall c :: c in RowMines(m, y, n) <==> c in m && c.1 == y && 0 <= c.0 < n
    ensures StrictlyRowMajor(RowMines(m, y, n))
    decreases n
  {
    if n > 0 {
      RowMinesExact(m, y, n - 1);
    }
  }

  /**
   * The loss disclosure lists every mine of the grid exactly once, in row-major
   * order, and nothing else.
   */
  lemma {:induction false} MinesRowMajorExact(m: set<Coord>, w: int, rows: int)
    requires forall c :: c in m ==> 0 <= c.0 < w && 0 <= c.1
    ensures forall c :: c in MinesRowMajor(m, w, rows) <==> c in m && c.1 < rows
    ensures StrictlyRowMajor(MinesRowMajor(m, w, rows))
    ensures forall i, j :: 0 <= i < j < |MinesRowMajor(m, w, rows)| ==>
              MinesRowMajor(m, w, rows)[i] != MinesRowMajor(m, w, rows)[j]
    decreases rows
  {
    if rows > 0 {
      MinesRowMajorExact(m, w, rows - 1);
      RowMinesExact(m, rows - 1, w);
      var a, b := MinesRowMajor(m, w, rows - 1), RowMines(m, rows - 1, w);
      assert MinesRowMajor(m, w, rows) == a + b;
      forall i, j | 0 <= i < j < |a + b| ensures RowMajorBefore((a + b)[i], (a + b)[j]) {
        if j < |a| {
        } else if i >= |a| {
          assert (a + b)[i] == b[i - |a|] && (a + b)[j] == b[j - |a|];
        } else {
          assert (a + b)[i] == a[i] && a[i] in a;
          assert (a + b)[j] == b[j - |a|] && b[j - |a|] in b;
        }
      }
    }
  }
}
