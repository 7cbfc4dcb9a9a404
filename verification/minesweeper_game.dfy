/** The Minesweeper board: where the mines are, and the neighbour counts it reveals. */
module Game {

  /** A board square `(row, column)`. */
  type Cell = (int, int)

  /**
   * The game: its dimensions, the hidden board (`true` marks a mine), the set of
   * mine squares, and the mines the player has flagged so far.
   */
  datatype Minesweeper = Minesweeper(
    height: int,
    width: int,
    board: seq<seq<bool>>,
    mines: set<Cell>,
    minesFound: set<Cell>)

  predicate InBounds(height: int, width: int, c: Cell) {
    0 <= c.0 < height && 0 <= c.1 < width
  }

  /** The board has `height` rows of `width` squares each. */
  predicate WellShaped(g: Minesweeper) {
    && |g.board| == g.height
    && forall i :: 0 <= i < |g.board| ==> |g.board[i]| == g.width
  }

  /** The squares the board marks as mines. */
  function MineField(g: Minesweeper): (f: set<Cell>)
    requires WellShaped(g)
    ensures forall c :: c in f ==> InBounds(g.height, g.width, c)
  {
    set i, j | 0 <= i < g.height && 0 <= j < g.width && g.board[i][j] :: (i, j)
  }

  /** A game as the constructor leaves it: the mine set is the set of squares the board marks. */
  predicate Valid(g: Minesweeper) {
    WellShaped(g) && g.mines == MineField(g)
  }

  /** `is_mine`: whether the board marks the square as a mine. */
  function IsMine(g: Minesweeper, cell: Cell): (r: bool)
    requires WellShaped(g) && InBounds(g.height, g.width, cell)
    ensures r <==> cell in MineField(g)
  {
    g.board[cell.0][cell.1]
  }

  /** The eight squares around `cell`, in the order `add_knowledge` visits them. */
  function NeighbourList(cell: Cell): seq<Cell> {
    var (i, j) := cell;
    [(i - 1, j - 1), (i - 1, j), (i - 1, j + 1), (i, j - 1), (i, j + 1), (i + 1, j - 1), (i + 1, j), (i + 1, j + 1)]
  }

  /** The squares within one row and one column of `cell`, other than `cell` itself (unclipped). */
  function Neighbours(cell: Cell): (r: set<Cell>)
    ensures forall c :: c in r <==> c != cell && cell.0 - 1 <= c.0 <= cell.0 + 1 && cell.1 - 1 <= c.1 <= cell.1 + 1
  {
    var r := set c | c in NeighbourList(cell);
    assert forall c :: c != cell && cell.0 - 1 <= c.0 <= cell.0 + 1 && cell.1 - 1 <= c.1 <= cell.1 + 1 ==> c in r by {
      forall c | c != cell && cell.0 - 1 <= c.0 <= cell.0 + 1 && cell.1 - 1 <= c.1 <= cell.1 + 1
        ensures c in r
      {
        assert c.0 == cell.0 - 1 || c.0 == cell.0 || c.0 == cell.0 + 1;
        assert c.1 == cell.1 - 1 || c.1 == cell.1 || c.1 == cell.1 + 1;
      }
    }
    r
  }

  /** The eight listed neighbours are distinct. */
  lemma NeighbourListDistinct(cell: Cell)
    ensures forall p, q :: 0 <= p < q < 8 ==> NeighbourList(cell)[p] != NeighbourList(cell)[q]
    ensures |Neighbours(cell)| == 8
  {
    var ns := NeighbourList(cell);
    var (i, j) := cell;
    assert ns == [(i - 1, j - 1), (i - 1, j), (i - 1, j + 1), (i, j - 1), (i, j + 1), (i + 1, j - 1), (i + 1, j), (i + 1, j + 1)];
    var acc: set<Cell> := {};
    for k := 0 to 8
      invariant acc == set c | c in ns[..k]
      invariant |acc| == k
    {
      assert ns[k] !in acc;
      assert ns[..k + 1] == ns[..k] + [ns[k]];
      acc := acc + {ns[k]};
    }
    assert ns[..8] == ns;
  }

  /** The in-bounds neighbours of `cell` that the board marks as mines. */
  function MinesAround(g: Minesweeper, cell: Cell): (r: set<Cell>)
    requires WellShaped(g)
    ensures r == Neighbours(cell) * MineField(g)
  {
    set c | c in Neighbours(cell) && InBounds(g.height, g.width, c) && g.board[c.0][c.1]
  }

  /**
   * The mines among the squares of the 3x3 window around `cell` visited so far:
   * rows above `i` in full, and row `i` up to (not including) column `j`.
   */
  ghost function Visited(g: Minesweeper, cell: Cell, i: int, j: int): set<Cell>
    requires WellShaped(g)
  {
    set c | c in Neighbours(cell) && (c.0 < i || (c.0 == i && c.1 < j))
              && InBounds(g.height, g.width, c) && g.board[c.0][c.1]
  }

  /** Visiting square `(i, j)` adds it to the visited mines exactly when it is an in-bounds mine other than `cell`. */
  lemma VisitedStep(g: Minesweeper, cell: Cell, i: int, j: int)
    requires WellShaped(g)
    requires cell.0 - 1 <= i <= cell.0 + 1 && cell.1 - 1 <= j <= cell.1 + 1
    ensures |Visited(g, cell, i, j + 1)|
         == |Visited(g, cell, i, j)| + if (i, j) != cell && 0 <= i < g.height && 0 <= j < g.width && g.board[i][j] then 1 else 0
  {
    var before, after := Visited(g, cell, i, j), Visited(g, cell, i, j + 1);
    if (i, j) != cell && 0 <= i < g.height && 0 <= j < g.width && g.board[i][j] {
      VisitedAdds(g, cell, i, j);
      assert (i, j) !in before;
    } else {
      VisitedKeeps(g, cell, i, j);
    }
  }

  lemma VisitedAdds(g: Minesweeper, cell: Cell, i: int, j: int)
    requires WellShaped(g)
    requires cell.0 - 1 <= i <= cell.0 + 1 && cell.1 - 1 <= j <= cell.1 + 1
    requires (i, j) != cell && 0 <= i < g.height && 0 <= j < g.width && g.board[i][j]
    ensures Visited(g, cell, i, j + 1) == Visited(g, cell, i, j) + {(i, j)}
  {
    assert (i, j) in Neighbours(cell);
  }

  lemma VisitedKeeps(g: Minesweeper, cell: Cell, i: int, j: int)
    requires WellShaped(g)
    requires !((i, j) != cell && 0 <= i < g.height && 0 <= j < g.width && g.board[i][j])
    ensures Visited(g, cell, i, j + 1) == Visited(g, cell, i, j)
  {
  }

  /** Finishing a row of the window is starting the next one. */
  lemma VisitedRow(g: Minesweeper, cell: Cell, i: int)
    requires WellShaped(g)
    ensures Visited(g, cell, i, cell.1 + 2) == Visited(g, cell, i + 1, cell.1 - 1)
    ensures Visited(g, cell, cell.0 - 1, cell.1 - 1) == {}
    ensures Visited(g, cell, cell.0 + 2, cell.1 - 1) == MinesAround(g, cell)
  {
  }

  /**
   * `nearby_mines`: the number of mines within one row and one column of `cell`,
   * not counting `cell` itself and ignoring squares off the board.
   */
  method NearbyMines(g: Minesweeper, cell: Cell) returns (count: nat)
    requires WellShaped(g)
    ensures count == |MinesAround(g, cell)|
    ensures count <= 8
  {
    count := 0;
    var i := cell.0 - 1;
    VisitedRow(g, cell, i);
    while i < cell.0 + 2
      invariant cell.0 - 1 <= i <= cell.0 + 2
      invariant count == |Visited(g, cell, i, cell.1 - 1)|
    {
      var j := cell.1 - 1;
      while j < cell.1 + 2
        invariant cell.1 - 1 <= j <= cell.1 + 2
        invariant count == |Visited(g, cell, i, j)|
      {
        VisitedStep(g, cell, i, j);
        if (i, j) != cell && 0 <= i < g.height && 0 <= j < g.width && g.board[i][j] {
          count := count + 1;
        }
        j := j + 1;
      }
      VisitedRow(g, cell, i);
      i := i + 1;
    }
    VisitedRow(g, cell, i);
    NeighbourListDistinct(cell);
    SubsetSize(MinesAround(g, cell), Neighbours(cell));
  }

  /** A subset is no larger than its superset, and only as large when the two are equal. */
  lemma SubsetSize<T>(s: set<T>, t: set<T>)
    requires s <= t
    ensures |s| <= |t|
    ensures |s| == |t| ==> s == t
  {
    assert t == s + (t - s);
  }

  /** `won`: every mine has been flagged, and nothing else. */
  function Won(g: Minesweeper): bool {
    g.minesFound == g.mines
  }

  /** For a game whose mine set matches its board, winning means the flags are exactly the board's mines. */
  lemma WonIffFlagsAreMines(g: Minesweeper)
    requires Valid(g)
    ensures Won(g) <==> forall c :: c in g.minesFound <==> InBounds(g.height, g.width, c) && IsMine(g, c)
  {
  }
}
