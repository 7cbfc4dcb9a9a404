/** Rules of tic-tac-toe on a 3x3 grid and plain (unpruned) minimax search. */
module TicTacToe {
  import opened Wrappers

  /** The content of one square: a player's mark, or EMPTY (Python's `None`). */
  datatype Mark = X | O | Empty

  /** A move `(i, j)`: row `i`, column `j`. */
  type Action = (int, int)

  /** A 3x3 grid of marks, indexed `b[row][column]`. */
  type Board = b: seq<seq<Mark>> | |b| == 3 && forall i :: 0 <= i < 3 ==> |b[i]| == 3
    witness [[Empty, Empty, Empty], [Empty, Empty, Empty], [Empty, Empty, Empty]]

  /** The starting position: nine EMPTY squares. */
  const Initial: Board := [[Empty, Empty, Empty], [Empty, Empty, Empty], [Empty, Empty, Empty]]

  /** The other player; the source writes it `O if p == X else X`. */
  function Opponent(m: Mark): Mark {
    if m == X then O else X
  }

  predicate OnGrid(a: Action) {
    0 <= a.0 < 3 && 0 <= a.1 < 3
  }

  /** The number of marks in one row of three. */
  function RowCount(row: seq<Mark>): nat
    requires |row| == 3
  {
    (if row[0] != Empty then 1 else 0) + (if row[1] != Empty then 1 else 0) + (if row[2] != Empty then 1 else 0)
  }

  /** The number of marks on the board (the source's `count`). */
  function FilledCount(b: Board): nat {
    RowCount(b[0]) + RowCount(b[1]) + RowCount(b[2])
  }

  /** The player to move: X after an even number of marks, O after an odd number. */
  function Player(b: Board): (p: Mark)
    ensures p != Empty
  {
    if FilledCount(b) % 2 == 0 then X else O
  }

  /** The available moves: exactly the EMPTY squares. */
  function Actions(b: Board): (r: set<Action>)
    ensures forall a :: a in r <==> OnGrid(a) && b[a.0][a.1] == Empty
  {
    set i, j | 0 <= i < 3 && 0 <= j < 3 && b[i][j] == Empty :: (i, j)
  }

  /** The EMPTY squares of row `i`. */
  function EmptyInRow(b: Board, i: int): set<Action>
    requires 0 <= i < 3
  {
    set j | 0 <= j < 3 && b[i][j] == Empty :: (i, j)
  }

  /** A row's EMPTY squares and its marks together make up its three squares. */
  lemma EmptyInRowSize(b: Board, i: int)
    requires 0 <= i < 3
    ensures |EmptyInRow(b, i)| + RowCount(b[i]) == 3
  {
    var e0: set<Action> := if b[i][0] == Empty then {(i, 0)} else {};
    var e1: set<Action> := if b[i][1] == Empty then {(i, 1)} else {};
    var e2: set<Action> := if b[i][2] == Empty then {(i, 2)} else {};
    assert EmptyInRow(b, i) == e0 + e1 + e2;
    assert e0 !! e1 && (e0 + e1) !! e2;
  }

  /** Every square is either EMPTY (an available move) or marked: the two counts add up to nine. */
  lemma {:induction false} ActionsAndMarks(b: Board)
    ensures |Actions(b)| + FilledCount(b) == 9
  {
    var r0, r1, r2 := EmptyInRow(b, 0), EmptyInRow(b, 1), EmptyInRow(b, 2);
    assert Actions(b) == r0 + r1 + r2;
    assert r0 !! r1 && (r0 + r1) !! r2;
    EmptyInRowSize(b, 0);
    EmptyInRowSize(b, 1);
    EmptyInRowSize(b, 2);
  }

  /** X is to move exactly when an odd number of squares is still EMPTY, and O exactly when an even number is. */
  lemma PlayerParity(b: Board)
    ensures Player(b) == X <==> |Actions(b)| % 2 == 1
    ensures Player(b) == O <==> |Actions(b)| % 2 == 0
  {
    ActionsAndMarks(b);
  }

  /** The board with square `(i, j)` set to `m` and every other square unchanged. */
  function Place(b: Board, i: int, j: int, m: Mark): (r: Board)
    requires 0 <= i < 3 && 0 <= j < 3
    ensures r[i][j] == m
    ensures forall x, y :: 0 <= x < 3 && 0 <= y < 3 && (x, y) != (i, j) ==> r[x][y] == b[x][y]
  {
    b[i := b[i][j := m]]
  }

  /** Marking an EMPTY square removes exactly that square from the available moves and adds one mark. */
  lemma PlaceOnEmpty(b: Board, i: int, j: int, m: Mark)
    requires 0 <= i < 3 && 0 <= j < 3 && b[i][j] == Empty && m != Empty
    ensures Actions(Place(b, i, j, m)) == Actions(b) - {(i, j)}
    ensures |Actions(Place(b, i, j, m))| == |Actions(b)| - 1
    ensures FilledCount(Place(b, i, j, m)) == FilledCount(b) + 1
  {
    var r := Place(b, i, j, m);
    assert Actions(b) == Actions(r) + {(i, j)};
    assert (i, j) !in Actions(r);
    RowCountPlace(b[i], j, m);
    assert r[i] == b[i][j := m];
    if i == 0 {
      assert r[1] == b[1] && r[2] == b[2];
    } else if i == 1 {
      assert r[0] == b[0] && r[2] == b[2];
    } else {
      assert r[0] == b[0] && r[1] == b[1];
    }
  }

  lemma RowCountPlace(row: seq<Mark>, j: int, m: Mark)
    requires |row| == 3 && 0 <= j < 3 && row[j] == Empty && m != Empty
    ensures RowCount(row[j := m]) == RowCount(row) + 1
  {
  }

  /** Python indexing of a length-3 list: 0..2 as is, -3..-1 counted from the end, anything else raises IndexError. */
  function PyIndex(k: int): (r: Option<int>)
    ensures r.Some? <==> -3 <= k < 3
    ensures r.Some? ==> 0 <= r.value < 3 && (r.value == k || r.value == k + 3)
  {
    if 0 <= k < 3 then Some(k) else if -3 <= k < 0 then Some(k + 3) else None
  }

  /** The exceptions `result` raises. */
  datatype MoveError = NegativeIndex | IndexOutOfRange | Occupied

  /**
   * The move `action` made by the player to move, as written in the source: the
   * product test rejects a move only when one coordinate is negative and the other
   * positive; the lookup then follows Python's list indexing, including its
   * wrap-around for -3..-1, so a move that passes the test marks the square
   * `((i + 3) % 3, (j + 3) % 3)`; an occupied square is refused.
   */
  function Result(b: Board, action: Action): (r: Wrappers.Result<Board, MoveError>)
    ensures r == Err(NegativeIndex) <==> (action.0 < 0 < action.1 || action.1 < 0 < action.0)
    ensures r == Err(IndexOutOfRange) <==>
      !(action.0 < 0 < action.1 || action.1 < 0 < action.0) && !(-3 <= action.0 < 3 && -3 <= action.1 < 3)
    ensures OnGrid(action) ==> (r.Ok? <==> action in Actions(b))
    ensures OnGrid(action) && r.Ok? ==> r.value == Place(b, action.0, action.1, Player(b))
    ensures !(action.0 < 0 < action.1 || action.1 < 0 < action.0) && -3 <= action.0 < 3 && -3 <= action.1 < 3 ==>
      var square := ((action.0 + 3) % 3, (action.1 + 3) % 3);
      && (r.Ok? <==> square in Actions(b))
      && (r.Ok? ==> r.value == Place(b, square.0, square.1, Player(b)))
      && (r.Err? ==> r.error == Occupied)
  {
    var (i, j) := action;
    if i * j < 0 then
      assert i < 0 < j || j < 0 < i;
      Err(NegativeIndex)
    else
      assert !(i < 0 < j || j < 0 < i);
      match (PyIndex(i), PyIndex(j))
      case (Some(r), Some(c)) =>
        assert ((i + 3) % 3, (j + 3) % 3) == (r, c);
        if b[r][c] == Empty then Ok(Place(b, r, c, Player(b))) else Err(Occupied)
      case _ => Err(IndexOutOfRange)
  }

  /**
   * The move as the negative-index test evidently intends it: any negative
   * coordinate is refused, so exactly the EMPTY squares are accepted.
   */
  function ResultStrict(b: Board, action: Action): (r: Wrappers.Result<Board, MoveError>)
    ensures r.Ok? <==> action in Actions(b)
    ensures r.Ok? ==> r.value == Place(b, action.0, action.1, Player(b))
    ensures r.Err? && action.0 >= 0 && action.1 >= 0 && OnGrid(action) ==> r.error == Occupied
  {
    var (i, j) := action;
    if i < 0 || j < 0 then Err(NegativeIndex)
    else if !(i < 3 && j < 3) then Err(IndexOutOfRange)
    else if b[i][j] == Empty then Ok(Place(b, i, j, Player(b)))
    else Err(Occupied)
  }

  /** The as-written check lets `(0, -1)` through: it marks square `(0, 2)`, which the strict check refuses. */
  lemma ResultAcceptsNegativeIndex()
    ensures Result(Initial, (0, -1)) == Ok(Place(Initial, 0, 2, X))
    ensures Result(Initial, (-1, -1)) == Ok(Place(Initial, 2, 2, X))
    ensures ResultStrict(Initial, (0, -1)) == Err(NegativeIndex)
    ensures ResultStrict(Initial, (-1, -1)) == Err(NegativeIndex)
  {
    assert FilledCount(Initial) == 0;
  }

  /** On every available move the as-written and the strict version agree. */
  lemma ResultAgreesOnActions(b: Board, a: Action)
    requires a in Actions(b)
    ensures Result(b, a) == ResultStrict(b, a) == Ok(Succ(b, a))
  {
  }

  /**
   * The successor position reached by an available move: the board `result` returns
   * for it (both the as-written and the strict version, see `ResultAgreesOnActions`).
   */
  function Succ(b: Board, a: Action): (r: Board)
    requires a in Actions(b)
    ensures |Actions(r)| == |Actions(b)| - 1
  {
    PlaceOnEmpty(b, a.0, a.1, Player(b));
    Place(b, a.0, a.1, Player(b))
  }

  /** Moves alternate: after any available move the other player is to move. */
  lemma {:induction false} PlayerAlternates(b: Board, a: Action)
    requires a in Actions(b)
    ensures Player(Succ(b, a)) == Opponent(Player(b))
    ensures Actions(Succ(b, a)) == Actions(b) - {a}
  {
    PlaceOnEmpty(b, a.0, a.1, Player(b));
    ParityFlips(FilledCount(b));
  }

  lemma ParityFlips(n: int)
    ensures (n + 1) % 2 == 0 <==> n % 2 != 0
  {
  }

  /** A line of three squares. */
  type Line = (Action, Action, Action)

  /** The eight lines the source checks, in its order: rows, diagonals, columns. */
  const Lines: seq<Line> := [
    ((0, 0), (0, 1), (0, 2)),
    ((1, 0), (1, 1), (1, 2)),
    ((2, 0), (2, 1), (2, 2)),
    ((0, 0), (1, 1), (2, 2)),
    ((2, 0), (1, 1), (0, 2)),
    ((0, 0), (1, 0), (2, 0)),
    ((0, 1), (1, 1), (2, 1)),
    ((0, 2), (1, 2), (2, 2))
  ]

  /** The line's three squares hold the same non-EMPTY mark `m`. */
  predicate LineOf(b: Board, line: Line, m: Mark) {
    var (p, q, r) := line;
    && OnGrid(p) && OnGrid(q) && OnGrid(r)
    && m != Empty && b[p.0][p.1] == m && b[q.0][q.1] == m && b[r.0][r.1] == m
  }

  /** Some listed line is complete (the source's "three non-EMPTY marks, one distinct value"). */
  predicate SomeLineComplete(b: Board) {
    exists k, m :: 0 <= k < |Lines| && LineOf(b, Lines[k], m)
  }

  /**
   * The winner as written: if some line is complete, the player who did NOT
   * move next, whatever mark the line holds.
   */
  function Winner(b: Board): (r: Option<Mark>)
    ensures r.Some? ==> r.value == Opponent(Player(b)) && r.value != Empty
  {
    if SomeLineComplete(b) then Some(Opponent(Player(b))) else None
  }

  /** Three equal marks `m` in a row, a column or a diagonal, stated independently of the list of lines. */
  ghost predicate ThreeInARow(b: Board, m: Mark) {
    && m != Empty
    && (|| (exists i :: 0 <= i < 3 && b[i][0] == m && b[i][1] == m && b[i][2] == m)
        || (exists j :: 0 <= j < 3 && b[0][j] == m && b[1][j] == m && b[2][j] == m)
        || (b[0][0] == m && b[1][1] == m && b[2][2] == m)
        || (b[2][0] == m && b[1][1] == m && b[0][2] == m))
  }

  lemma LinesAreThreeInARow(b: Board, m: Mark)
    ensures (exists k :: 0 <= k < |Lines| && LineOf(b, Lines[k], m)) <==> ThreeInARow(b, m)
  {
    if ThreeInARow(b, m) {
      if i :| 0 <= i < 3 && b[i][0] == m && b[i][1] == m && b[i][2] == m {
        assert LineOf(b, Lines[i], m);
      } else if j :| 0 <= j < 3 && b[0][j] == m && b[1][j] == m && b[2][j] == m {
        assert LineOf(b, Lines[5 + j], m);
      } else if b[0][0] == m && b[1][1] == m && b[2][2] == m {
        assert LineOf(b, Lines[3], m);
      } else {
        assert LineOf(b, Lines[4], m);
      }
    }
  }

  /** `winner` reports a result exactly when some player has three marks in a row, column or diagonal. */
  lemma WinnerIffThreeInARow(b: Board)
    ensures Winner(b).Some? <==> exists m :: ThreeInARow(b, m)
  {
    if Winner(b).Some? {
      var k, m :| 0 <= k < |Lines| && LineOf(b, Lines[k], m);
      LinesAreThreeInARow(b, m);
    }
    if m :| ThreeInARow(b, m) {
      LinesAreThreeInARow(b, m);
    }
  }

  /**
   * In play, the reported winner is the player who just completed a line: after a
   * move on a board with no winner, any winner is the mover and holds three in a row.
   */
  lemma WinnerIsLastMover(b: Board, a: Action)
    requires a in Actions(b) && Winner(b).None?
    ensures Winner(Succ(b, a)).Some? ==>
      Winner(Succ(b, a)) == Some(Player(b)) && ThreeInARow(Succ(b, a), Player(b))
  {
    var b' := Succ(b, a);
    PlayerAlternates(b, a);
    if Winner(b').Some? {
      var k, m :| 0 <= k < |Lines| && LineOf(b', Lines[k], m);
      var (p, q, r) := Lines[k];
      if a != p && a != q && a != r {
        assert LineOf(b, Lines[k], m);
        assert false;
      }
      assert m == Player(b);
      LinesAreThreeInARow(b', m);
    }
  }

  /** The game is over: somebody has won, or no square is EMPTY. */
  predicate Terminal(b: Board)
  {
    Winner(b).Some? || forall i, j :: 0 <= i < 3 && 0 <= j < 3 ==> b[i][j] != Empty
  }

  /** Over means: a line is complete, or no move is left. */
  lemma TerminalIffWonOrFull(b: Board)
    ensures Terminal(b) <==> Winner(b).Some? || Actions(b) == {}
  {
    if Actions(b) != {} {
      var a :| a in Actions(b);
      assert b[a.0][a.1] == Empty;
    }
  }

  /** A position that is not over has at least one move. */
  lemma NonTerminalHasActions(b: Board)
    requires !Terminal(b)
    ensures Actions(b) != {}
  {
    var i, j :| 0 <= i < 3 && 0 <= j < 3 && b[i][j] == Empty;
    assert (i, j) in Actions(b);
  }

  /** 1 when X is reported as winner, -1 when O is, 0 otherwise. */
  function Utility(b: Board): (r: int)
    ensures r == 1 <==> Winner(b) == Some(X)
    ensures r == -1 <==> Winner(b) == Some(O)
    ensures r == 0 <==> Winner(b).None?
  {
    match Winner(b)
    case Some(X) => 1
    case Some(O) => -1
    case _ => 0
  }

  /** The pair `(value, action)` the search functions return. */
  datatype Search = Search(value: int, best: Option<Action>)

  /** The available moves of one row, left to right. */
  function RowActions(b: Board, i: int): (r: seq<Action>)
    requires 0 <= i < 3
    ensures forall a :: a in r <==> a.0 == i && 0 <= a.1 < 3 && b[i][a.1] == Empty
  {
    (if b[i][0] == Empty then [(i, 0)] else [])
    + (if b[i][1] == Empty then [(i, 1)] else [])
    + (if b[i][2] == Empty then [(i, 2)] else [])
  }

  /**
   * The available moves in row-major order: one order the source's Python set may
   * iterate in.
   */
  function ActionList(b: Board): (r: seq<Action>)
    ensures forall a :: a in r <==> a in Actions(b)
  {
    RowActions(b, 0) + RowActions(b, 1) + RowActions(b, 2)
  }

  /**
   * An order in which a search visits the moves of a board: any function listing
   * exactly the board's EMPTY squares. The source loops over the Python set
   * `actions(board)`, built afresh for each board, so its order is some function of
   * the board that the language does not fix; the searches are stated for every such order.
   */
  type MoveOrder = ord: Board -> seq<Action> | forall b: Board, a: Action :: a in ord(b) <==> a in Actions(b)
    witness ActionList

  /** The row-major order as a `MoveOrder`: the order the reference values `MinAfter` and `MaxAfter` search in. */
  const RowMajor: MoveOrder := ActionList

  /**
   * `max_value`: the utility of a finished game; otherwise the loop over the moves,
   * which keeps the first move whose `min_value` beats the running value (-100 at first).
   */
  function MaxValue(ord: MoveOrder, b: Board): (r: Search)
    ensures -1 <= r.value <= 1
    ensures Terminal(b) ==> r == Search(Utility(b), None)
    ensures !Terminal(b) ==> r.best.Some? && r.best.value in Actions(b)
    decreases |Actions(b)|, 1
  {
    if Terminal(b) then Search(Utility(b), None)
    else
      NonTerminalHasActions(b);
      MaxLoop(ord, b, ord(b), -100, None)
  }

  /** The loop of `max_value` over the moves `acts`, with running best value `v` and move `best`. */
  function MaxLoop(ord: MoveOrder, b: Board, acts: seq<Action>, v: int, best: Option<Action>): (r: Search)
    requires forall a :: a in acts ==> a in Actions(b)
    ensures r.value >= v
    ensures r.value == v || -1 <= r.value <= 1
    ensures acts != [] ==> r.value >= -1
    ensures r.value == v ==> r.best == best
    ensures r.value > v ==> r.best.Some? && r.best.value in acts
    decreases |Actions(b)|, 0, |acts|
  {
    if acts == [] then Search(v, best)
    else
      var candidate := MinValue(ord, Succ(b, acts[0])).value;
      if candidate > v then MaxLoop(ord, b, acts[1..], candidate, Some(acts[0]))
      else MaxLoop(ord, b, acts[1..], v, best)
  }

  /**
   * `min_value`: the utility of a finished game; otherwise the loop over the moves,
   * which keeps the first move whose `max_value` is below the running value (100 at first).
   */
  function MinValue(ord: MoveOrder, b: Board): (r: Search)
    ensures -1 <= r.value <= 1
    ensures Terminal(b) ==> r == Search(Utility(b), None)
    ensures !Terminal(b) ==> r.best.Some? && r.best.value in Actions(b)
    decreases |Actions(b)|, 1
  {
    if Terminal(b) then Search(Utility(b), None)
    else
      NonTerminalHasActions(b);
      MinLoop(ord, b, ord(b), 100, None)
  }

  /** The loop of `min_value` over the moves `acts`, with running best value `v` and move `best`. */
  function MinLoop(ord: MoveOrder, b: Board, acts: seq<Action>, v: int, best: Option<Action>): (r: Search)
    requires forall a :: a in acts ==> a in Actions(b)
    ensures r.value <= v
    ensures r.value == v || -1 <= r.value <= 1
    ensures acts != [] ==> r.value <= 1
    ensures r.value == v ==> r.best == best
    ensures r.value < v ==> r.best.Some? && r.best.value in acts
    decreases |Actions(b)|, 0, |acts|
  {
    if acts == [] then Search(v, best)
    else
      var candidate := MaxValue(ord, Succ(b, acts[0])).value;
      if candidate < v then MinLoop(ord, b, acts[1..], candidate, Some(acts[0]))
      else MinLoop(ord, b, acts[1..], v, best)
  }

  /** The unpruned value of the position after move `a` when the opponent then minimises, searched in row-major order. */
  function MinAfter(b: Board, a: Action): int
    requires a in Actions(b)
  {
    MinValue(ActionList, Succ(b, a)).value
  }

  /** The unpruned value of the position after move `a` when the opponent then maximises, searched in row-major order. */
  function MaxAfter(b: Board, a: Action): int
    requires a in Actions(b)
  {
    MaxValue(ActionList, Succ(b, a)).value
  }

  lemma ConsMembers<T>(s: seq<T>)
    requires s != []
    ensures forall x :: x in s <==> x == s[0] || x in s[1..]
  {
    assert s == [s[0]] + s[1..];
  }

  /**
   * The `max_value` loop returns the largest `min_value` among `acts` (or `v` if none
   * beats it), with a move attaining it; the children are searched in the order
   * `ord`, which by `ValueIndependentOfOrder` gives the reference values.
   */
  lemma {:induction false} MaxLoopIsMaximum(ord: MoveOrder, b: Board, acts: seq<Action>, v: int, best: Option<Action>)
    requires forall a :: a in acts ==> a in Actions(b)
    ensures var r := MaxLoop(ord, b, acts, v, best);
      && (forall a :: a in acts ==> MinAfter(b, a) <= r.value)
      && (r.value > v ==> MinAfter(b, r.best.value) == r.value)
    decreases |Actions(b)|, 0, |acts|
  {
    if acts != [] {
      ValueIndependentOfOrder(ord, RowMajor, Succ(b, acts[0]));
      var candidate := MinAfter(b, acts[0]);
      var v' := if candidate > v then candidate else v;
      var best' := if candidate > v then Some(acts[0]) else best;
      assert MaxLoop(ord, b, acts, v, best) == MaxLoop(ord, b, acts[1..], v', best');
      MaxLoopIsMaximum(ord, b, acts[1..], v', best');
      ConsMembers(acts);
    }
  }

  /** The `min_value` loop returns the smallest `max_value` among `acts` (or `v` if none is below it), with a move attaining it. */
  lemma {:induction false} MinLoopIsMinimum(ord: MoveOrder, b: Board, acts: seq<Action>, v: int, best: Option<Action>)
    requires forall a :: a in acts ==> a in Actions(b)
    ensures var r := MinLoop(ord, b, acts, v, best);
      && (forall a :: a in acts ==> MaxAfter(b, a) >= r.value)
      && (r.value < v ==> MaxAfter(b, r.best.value) == r.value)
    decreases |Actions(b)|, 0, |acts|
  {
    if acts != [] {
      ValueIndependentOfOrder(ord, RowMajor, Succ(b, acts[0]));
      var candidate := MaxAfter(b, acts[0]);
      var v' := if candidate < v then candidate else v;
      var best' := if candidate < v then Some(acts[0]) else best;
      assert MinLoop(ord, b, acts, v, best) == MinLoop(ord, b, acts[1..], v', best');
      MinLoopIsMinimum(ord, b, acts[1..], v', best');
      ConsMembers(acts);
    }
  }

  /**
   * On a position that is not over, `max_value` is the largest `min_value` over ALL
   * moves, whatever the order they are tried in, and the move it returns attains it.
   */
  lemma {:induction false} MaxValueIsMaximum(ord: MoveOrder, b: Board)
    requires !Terminal(b)
    ensures forall a :: a in Actions(b) ==> MinAfter(b, a) <= MaxValue(ord, b).value
    ensures MinAfter(b, MaxValue(ord, b).best.value) == MaxValue(ord, b).value
    decreases |Actions(b)|, 1
  {
    NonTerminalHasActions(b);
    MaxLoopIsMaximum(ord, b, ord(b), -100, None);
  }

  /**
   * On a position that is not over, `min_value` is the smallest `max_value` over ALL
   * moves, whatever the order they are tried in, and the move it returns attains it.
   */
  lemma {:induction false} MinValueIsMinimum(ord: MoveOrder, b: Board)
    requires !Terminal(b)
    ensures forall a :: a in Actions(b) ==> MaxAfter(b, a) >= MinValue(ord, b).value
    ensures MaxAfter(b, MinValue(ord, b).best.value) == MinValue(ord, b).value
    decreases |Actions(b)|, 1
  {
    NonTerminalHasActions(b);
    MinLoopIsMinimum(ord, b, ord(b), 100, None);
  }

  /**
   * The values of `max_value` and `min_value` do not depend on the order the moves are
   * tried in: both orders give the extremum of the same children's values.
   */
  lemma {:induction false} ValueIndependentOfOrder(ord: MoveOrder, ord': MoveOrder, b: Board)
    ensures MaxValue(ord, b).value == MaxValue(ord', b).value
    ensures MinValue(ord, b).value == MinValue(ord', b).value
    decreases |Actions(b)|, 2
  {
    if !Terminal(b) {
      var r, r' := MaxValue(ord, b), MaxValue(ord', b);
      MaxValueIsMaximum(ord, b);
      MaxValueIsMaximum(ord', b);
      BothAttained(r.value, r'.value, MinAfter(b, r.best.value), MinAfter(b, r'.best.value));
      var s, s' := MinValue(ord, b), MinValue(ord', b);
      MinValueIsMinimum(ord, b);
      MinValueIsMinimum(ord', b);
      BothAttained(-s.value, -s'.value, -MaxAfter(b, s.best.value), -MaxAfter(b, s'.best.value));
    }
  }

  /** Two maxima of the same values, each attained at a point the other bounds, are equal. */
  lemma BothAttained(v: int, v': int, at: int, at': int)
    requires at == v && at' == v'
    requires at' <= v && at <= v'
    ensures v == v'
  {
  }

  /**
   * `minimax`: no move on a finished game; otherwise a move that is optimal for the
   * player to move (maximising for X, minimising for O).
   */
  function Minimax(ord: MoveOrder, b: Board): (r: Option<Action>)
    ensures r.None? <==> Terminal(b)
    ensures r.Some? ==> r.value in Actions(b)
    ensures r.Some? && Player(b) == X ==>
      MinAfter(b, r.value) == MaxValue(ord, b).value
      && forall a :: a in Actions(b) ==> MinAfter(b, a) <= MinAfter(b, r.value)
    ensures r.Some? && Player(b) == O ==>
      MaxAfter(b, r.value) == MinValue(ord, b).value
      && forall a :: a in Actions(b) ==> MaxAfter(b, a) >= MaxAfter(b, r.value)
  {
    if Terminal(b) then None
    else if Player(b) == X then
      MaxValueIsMaximum(ord, b);
      MaxValue(ord, b).best
    else
      MinValueIsMinimum(ord, b);
      MinValue(ord, b).best
  }
}
