/** The classroom grid: cells, arrow-key proposals and the search for free desks. */
module Grid {

  datatype Option<T> = None | Some(value: T)

  /** A desk position; `x` is the column, `y` the row (row 0 is the top). */
  datatype Cell = Cell(x: int, y: int)

  const Width := 6
  const Height := 4

  predicate InBounds(c: Cell) {
    0 <= c.x < Width && 0 <= c.y < Height
  }

  // Key names as the browser reports them.
  const ArrowUp := "ArrowUp"
  const ArrowDown := "ArrowDown"
  const ArrowLeft := "ArrowLeft"
  const ArrowRight := "ArrowRight"
  const Space := " "
  const Distract := "r"

  predicate IsArrow(key: string) {
    key == ArrowUp || key == ArrowDown || key == ArrowLeft || key == ArrowRight
  }

  /** The cell an arrow key asks to move to, clamped at the grid edges;
      any other key proposes the current cell. */
  function Proposed(key: string, p: Cell): (q: Cell)
    ensures InBounds(p) ==> InBounds(q)
    ensures !IsArrow(key) ==> q == p
    ensures key == ArrowUp ==> q == Cell(p.x, if p.y > 0 then p.y - 1 else p.y)
    ensures key == ArrowDown ==> q == Cell(p.x, if p.y < Height - 1 then p.y + 1 else p.y)
    ensures key == ArrowLeft ==> q == Cell(if p.x > 0 then p.x - 1 else p.x, p.y)
    ensures key == ArrowRight ==> q == Cell(if p.x < Width - 1 then p.x + 1 else p.x, p.y)
  {
    var y1 := if key == ArrowUp && p.y > 0 then p.y - 1 else p.y;
    var y2 := if key == ArrowDown && p.y < Height - 1 then y1 + 1 else y1;
    var x1 := if key == ArrowLeft && p.x > 0 then p.x - 1 else p.x;
    var x2 := if key == ArrowRight && p.x < Width - 1 then x1 + 1 else x1;
    Cell(x2, y2)
  }

  /** The free cells of row `y` among its first `x` columns, left to right. */
  function FreeInRow(occupied: set<Cell>, y: int, x: nat): seq<Cell>
    requires 0 <= y < Height && x <= Width
  {
    if x == 0 then []
    else FreeInRow(occupied, y, x - 1) + (if Cell(x - 1, y) !in occupied then [Cell(x - 1, y)] else [])
  }

  /** The free cells of the first `y` rows, row by row. */
  function FreeInRows(occupied: set<Cell>, y: nat): seq<Cell>
    requires y <= Height
  {
    if y == 0 then [] else FreeInRows(occupied, y - 1) + FreeInRow(occupied, y - 1, Width)
  }

  /** A row scan collects free in-bounds cells, and every free cell of the scanned columns. */
  lemma {:induction false} FreeInRowExact(occupied: set<Cell>, y: int, x: nat)
    requires 0 <= y < Height && x <= Width
    ensures var r := FreeInRow(occupied, y, x);
      && (forall k :: 0 <= k < |r| ==> InBounds(r[k]) && r[k] !in occupied)
      && (forall j :: 0 <= j < x && Cell(j, y) !in occupied ==> Cell(j, y) in r)
  {
    if x > 0 {
      FreeInRowExact(occupied, y, x - 1);
    }
  }

  /** A scan of the first `y` rows collects free in-bounds cells, and every free cell of
      those rows. */
  lemma {:induction false} FreeInRowsExact(occupied: set<Cell>, y: nat)
    requires y <= Height
    ensures var r := FreeInRows(occupied, y);
      && (forall k :: 0 <= k < |r| ==> InBounds(r[k]) && r[k] !in occupied)
      && (forall c: Cell :: 0 <= c.y < y && 0 <= c.x < Width && c !in occupied ==> c in r)
  {
    if y > 0 {
      FreeInRowsExact(occupied, y - 1);
      FreeInRowExact(occupied, y - 1, Width);
      var r := FreeInRows(occupied, y);
      forall c: Cell | c.y == y - 1 && 0 <= c.x < Width && c !in occupied ensures c in r {
        assert c == Cell(c.x, y - 1);
      }
    }
  }

  /** The list `emptySpots` that a full scan of the grid collects. */
  function FreeCells(occupied: set<Cell>): seq<Cell> {
    FreeInRows(occupied, Height)
  }

  predicate HasFreeCell(occupied: set<Cell>) {
    exists x, y :: 0 <= x < Width && 0 <= y < Height && Cell(x, y) !in occupied
  }

  /** The full scan lists exactly the free desks. */
  lemma FreeCellsExact(occupied: set<Cell>)
    ensures forall k :: 0 <= k < |FreeCells(occupied)| ==>
              InBounds(FreeCells(occupied)[k]) && FreeCells(occupied)[k] !in occupied
    ensures HasFreeCell(occupied) <==> FreeCells(occupied) != []
    ensures forall c :: InBounds(c) && c !in occupied ==> c in FreeCells(occupied)
  {
    FreeInRowsExact(occupied, Height);
    if FreeCells(occupied) != [] {
      var c := FreeCells(occupied)[0];
      assert Cell(c.x, c.y) !in occupied;
    }
  }

  /** A row scan lists each cell at most once, all of them in row `y` and left of column `x`. */
  lemma {:induction false} FreeInRowDistinct(occupied: set<Cell>, y: int, x: nat)
    requires 0 <= y < Height && x <= Width
    ensures forall k :: 0 <= k < |FreeInRow(occupied, y, x)| ==>
              FreeInRow(occupied, y, x)[k].y == y && 0 <= FreeInRow(occupied, y, x)[k].x < x
    ensures forall i, j :: 0 <= i < j < |FreeInRow(occupied, y, x)| ==>
              FreeInRow(occupied, y, x)[i] != FreeInRow(occupied, y, x)[j]
  {
    if x > 0 {
      FreeInRowDistinct(occupied, y, x - 1);
      var a: seq<Cell> := FreeInRow(occupied, y, x - 1);
      var b: seq<Cell> := if Cell(x - 1, y) !in occupied then [Cell(x - 1, y)] else [];
      assert FreeInRow(occupied, y, x) == a + b;
      forall k | 0 <= k < |a + b| ensures (a + b)[k].y == y && 0 <= (a + b)[k].x < x {
        if k < |a| { assert (a + b)[k] == a[k]; } else { assert (a + b)[k] == b[k - |a|]; }
      }
      forall i, j | 0 <= i < j < |a + b| ensures (a + b)[i] != (a + b)[j] {
        if j < |a| {
          assert (a + b)[i] == a[i] && (a + b)[j] == a[j];
        } else {
          assert (a + b)[j] == Cell(x - 1, y);
          assert (a + b)[i] == a[i] && a[i].x < x - 1;
        }
      }
    }
  }

  /** A scan of the first `y` rows lists each cell at most once, all of them above row `y`. */
  lemma {:induction false} FreeInRowsDistinct(occupied: set<Cell>, y: nat)
    requires y <= Height
    ensures forall k :: 0 <= k < |FreeInRows(occupied, y)| ==> 0 <= FreeInRows(occupied, y)[k].y < y
    ensures forall i, j :: 0 <= i < j < |FreeInRows(occupied, y)| ==>
              FreeInRows(occupied, y)[i] != FreeInRows(occupied, y)[j]
  {
    if y > 0 {
      FreeInRowsDistinct(occupied, y - 1);
      FreeInRowDistinct(occupied, y - 1, Width);
      var a: seq<Cell> := FreeInRows(occupied, y - 1);
      var b: seq<Cell> := FreeInRow(occupied, y - 1, Width);
      assert FreeInRows(occupied, y) == a + b;
      forall k | 0 <= k < |a + b| ensures 0 <= (a + b)[k].y < y {
        if k < |a| { assert (a + b)[k] == a[k]; } else { assert (a + b)[k] == b[k - |a|]; }
      }
      forall i, j | 0 <= i < j < |a + b| ensures (a + b)[i] != (a + b)[j] {
        if j < |a| {
          assert (a + b)[i] == a[i] && (a + b)[j] == a[j];
        } else if i >= |a| {
          assert (a + b)[i] == b[i - |a|] && (a + b)[j] == b[j - |a|];
        } else {
          assert (a + b)[i] == a[i] && (a + b)[j] == b[j - |a|];
          assert a[i].y < y - 1;
        }
      }
    }
  }

  /** `Math.floor(Math.random() * n)` for a random number `rand` in [0, 1). */
  function RandomIndex(rand: real, n: nat): (i: nat)
    requires 0.0 <= rand < 1.0 && n > 0
    ensures i < n
    ensures i as real <= rand * n as real < i as real + 1.0
  {
    assert rand * n as real < n as real by {
      assert (1.0 - rand) * n as real > 0.0;
    }
    (rand * n as real).Floor
  }

  /** The retreat spot: a uniformly indexed free cell, or the origin when the grid is full. */
  function RandomEmptySpot(occupied: set<Cell>, rand: real): (c: Cell)
    requires 0.0 <= rand < 1.0
    ensures InBounds(c)
    ensures HasFreeCell(occupied) ==> c !in occupied
    ensures !HasFreeCell(occupied) ==> c == Cell(0, 0)
    ensures c !in occupied <==> HasFreeCell(occupied)
  {
    FreeCellsExact(occupied);
    var spots := FreeCells(occupied);
    if |spots| == 0 then Cell(0, 0) else spots[RandomIndex(rand, |spots|)]
  }

  /** The pick is uniform over the free desks: the desk at position `i` of the scan is chosen
      exactly when `rand` falls in the `i`-th of `n` equal parts of [0, 1), and no other
      position holds the same desk. */
  lemma RandomEmptySpotUniform(occupied: set<Cell>, rand: real, i: nat)
    requires 0.0 <= rand < 1.0 && i < |FreeCells(occupied)|
    ensures var n := |FreeCells(occupied)|;
      (RandomEmptySpot(occupied, rand) == FreeCells(occupied)[i]
       <==> i as real <= rand * n as real < i as real + 1.0)
  {
    var spots := FreeCells(occupied);
    var n := |spots|;
    var k := RandomIndex(rand, n);
    assert RandomEmptySpot(occupied, rand) == spots[k];
    var m := rand * n as real;
    assert k as real <= m < k as real + 1.0;
    if k != i {
      FreeInRowsDistinct(occupied, Height);
      assert spots[k] != spots[i] by {
        if k < i { assert spots[k] != spots[i]; } else { assert spots[i] != spots[k]; }
      }
      assert !(i as real <= m < i as real + 1.0) by {
        if i < k { assert i as real + 1.0 <= k as real; } else { assert k as real + 1.0 <= i as real; }
      }
    }
  }
}
