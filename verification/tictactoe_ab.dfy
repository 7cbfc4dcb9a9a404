/**
 * The alpha-beta variant of the tic-tac-toe player. Its `player`, `actions`,
 * `winner`, `terminal` and `utility` are textually the same as the plain
 * player's and are imported from `TicTacToe`; its `result` and its search differ.
 */
module TicTacToeAB {
  import opened Wrappers
  import opened TicTacToe

  /**
   * `result` of this variant: only Python's list indexing can fail; there is no
   * sign test and no occupancy test, so an occupied square is overwritten.
   */
  function Result(b: Board, action: Action): (r: Wrappers.Result<Board, MoveError>)
    ensures r.Ok? <==> -3 <= action.0 < 3 && -3 <= action.1 < 3
    ensures r.Err? ==> r.error == IndexOutOfRange
    ensures OnGrid(action) ==> r.Ok? && r.value == Place(b, action.0, action.1, Player(b))
  {
    match (PyIndex(action.0), PyIndex(action.1))
    case (Some(i), Some(j)) => Ok(Place(b, i, j, Player(b)))
    case _ => Err(IndexOutOfRange)
  }

  /** On the moves the search tries, this `result` agrees with the plain one. */
  lemma ResultAgreesOnActions(b: Board, a: Action)
    requires a in Actions(b)
    ensures Result(b, a) == TicTacToe.Result(b, a) == Ok(Succ(b, a))
  {
  }

  /** On an occupied square the move still succeeds and replaces the mark there. */
  lemma ResultOverwritesOccupied(b: Board, a: Action)
    requires OnGrid(a) && a !in Actions(b)
    ensures Result(b, a).Ok? && Result(b, a).value[a.0][a.1] == Player(b)
    ensures TicTacToe.Result(b, a) == Err(Occupied)
  {
  }

  /** One loop of the pruned search: best value and move so far, and how many moves it looked at. */
  datatype Scan = Scan(value: int, best: Option<Action>, examined: nat)

  /** `max_value(board, a, b)`: the utility of a finished game, otherwise the pruned loop over the moves. */
  function MaxValue(ord: MoveOrder, b: Board, alpha: int, beta: int): (r: Search)
    ensures -1 <= r.value <= 1
    ensures Terminal(b) ==> r == Search(Utility(b), None)
    ensures !Terminal(b) ==> r.best.Some? && r.best.value in Actions(b)
    decreases |Actions(b)|, 1
  {
    if Terminal(b) then Search(Utility(b), None)
    else
      NonTerminalHasActions(b);
      var s := MaxLoop(ord, b, ord(b), -100, None, alpha, beta);
      Search(s.value, s.best)
  }

  /**
   * The loop of `max_value`: each improvement sets `alpha` to the new running value
   * (the source assigns `a = v`, not `a = max(a, v)`, so the first improvement can
   * lower `alpha` and widen the window), and the loop stops once `beta <= alpha`.
   */
  function MaxLoop(ord: MoveOrder, b: Board, acts: seq<Action>, v: int, best: Option<Action>, alpha: int, beta: int): (r: Scan)
    requires forall a :: a in acts ==> a in Actions(b)
    ensures r.examined <= |acts|
    ensures acts != [] ==> r.examined >= 1
    ensures alpha < beta && r.examined < |acts| ==> r.value >= beta
    ensures r.value >= v
    ensures r.value == v || -1 <= r.value <= 1
    ensures acts != [] ==> r.value >= -1
    ensures r.value == v ==> r.best == best
    ensures r.value > v ==> r.best.Some? && r.best.value in acts
    decreases |Actions(b)|, 0, |acts|
  {
    if acts == [] then Scan(v, best, 0)
    else
      var candidate := MinValue(ord, Succ(b, acts[0]), alpha, beta).value;
      var (v', best', alpha') := if candidate > v then (candidate, Some(acts[0]), candidate) else (v, best, alpha);
      if beta <= alpha' then Scan(v', best', 1)
      else
        var rest := MaxLoop(ord, b, acts[1..], v', best', alpha', beta);
        Scan(rest.value, rest.best, rest.examined + 1)
  }

  /** `min_value(board, a, b)`: the utility of a finished game, otherwise the pruned loop over the moves. */
  function MinValue(ord: MoveOrder, b: Board, alpha: int, beta: int): (r: Search)
    ensures -1 <= r.value <= 1
    ensures Terminal(b) ==> r == Search(Utility(b), None)
    ensures !Terminal(b) ==> r.best.Some? && r.best.value in Actions(b)
    decreases |Actions(b)|, 1
  {
    if Terminal(b) then Search(Utility(b), None)
    else
      NonTerminalHasActions(b);
      var s := MinLoop(ord, b, ord(b), 100, None, alpha, beta);
      Search(s.value, s.best)
  }

  /**
   * The loop of `min_value`: each improvement sets `beta` to the new running value
   * (the source assigns `b = v`, not `b = min(b, v)`, so the first improvement can
   * raise `beta` and widen the window), and the loop stops once `beta <= alpha`.
   */
  function MinLoop(ord: MoveOrder, b: Board, acts: seq<Action>, v: int, best: Option<Action>, alpha: int, beta: int): (r: Scan)
    requires forall a :: a in acts ==> a in Actions(b)
    ensures r.examined <= |acts|
    ensures acts != [] ==> r.examined >= 1
    ensures alpha < beta && r.examined < |acts| ==> r.value <= alpha
    ensures r.value <= v
    ensures r.value == v || -1 <= r.value <= 1
    ensures acts != [] ==> r.value <= 1
    ensures r.value == v ==> r.best == best
    ensures r.value < v ==> r.best.Some? && r.best.value in acts
    decreases |Actions(b)|, 0, |acts|
  {
    if acts == [] then Scan(v, best, 0)
    else
      var candidate := MaxValue(ord, Succ(b, acts[0]), alpha, beta).value;
      var (v', best', beta') := if candidate < v then (candidate, Some(acts[0]), candidate) else (v, best, beta);
      if beta' <= alpha then Scan(v', best', 1)
      else
        var rest := MinLoop(ord, b, acts[1..], v', best', alpha, beta');
        Scan(rest.value, rest.best, rest.examined + 1)
  }

  /**
   * The fail-soft window property of a pruned value `r` against the true value `v`:
   * inside the window it is exact, at or below `alpha` it is an upper bound, at or
   * above `beta` a lower bound.
   */
  ghost predicate FailSoft(r: int, v: int, alpha: int, beta: int) {
    && (r <= alpha ==> v <= r)
    && (r >= beta ==> v >= r)
    && (alpha < r < beta ==> v == r)
  }

  /** Every successor in `acts` has unpruned `min_value` at most `x`. */
  ghost predicate MinChildrenAtMost(b: Board, acts: seq<Action>, x: int)
    requires forall a :: a in acts ==> a in Actions(b)
  {
    forall a :: a in acts ==> MinAfter(b, a) <= x
  }

  /** `best` is a move of `acts` whose successor has unpruned `min_value` at least `x`. */
  ghost predicate MinChildAtLeast(b: Board, acts: seq<Action>, best: Option<Action>, x: int)
    requires forall a :: a in acts ==> a in Actions(b)
  {
    best.Some? && best.value in acts && MinAfter(b, best.value) >= x
  }

  /** Every successor in `acts` has unpruned `max_value` at least `x`. */
  ghost predicate MaxChildrenAtLeast(b: Board, acts: seq<Action>, x: int)
    requires forall a :: a in acts ==> a in Actions(b)
  {
    forall a :: a in acts ==> MaxAfter(b, a) >= x
  }

  /** `best` is a move of `acts` whose successor has unpruned `max_value` at most `x`. */
  ghost predicate MaxChildAtMost(b: Board, acts: seq<Action>, best: Option<Action>, x: int)
    requires forall a :: a in acts ==> a in Actions(b)
  {
    best.Some? && best.value in acts && MaxAfter(b, best.value) <= x
  }

  /** What the `max_value` loop promises about the unpruned values of the successors it ranges over. */
  ghost predicate MaxLoopFailSoftSpec(b: Board, acts: seq<Action>, r: Scan, alpha: int, beta: int)
    requires forall a :: a in acts ==> a in Actions(b)
  {
    && (r.value <= alpha ==> MinChildrenAtMost(b, acts, r.value))
    && (r.value >= beta ==> MinChildAtLeast(b, acts, r.best, r.value))
    && (alpha < r.value < beta ==> MinChildrenAtMost(b, acts, r.value) && MinChildAtLeast(b, acts, r.best, r.value))
  }

  /** What the `min_value` loop promises about the unpruned values of the successors it ranges over. */
  ghost predicate MinLoopFailSoftSpec(b: Board, acts: seq<Action>, r: Scan, alpha: int, beta: int)
    requires forall a :: a in acts ==> a in Actions(b)
  {
    && (r.value >= beta ==> MaxChildrenAtLeast(b, acts, r.value))
    && (r.value <= alpha ==> MaxChildAtMost(b, acts, r.best, r.value))
    && (alpha < r.value < beta ==> MaxChildrenAtLeast(b, acts, r.value) && MaxChildAtMost(b, acts, r.best, r.value))
  }

  /** The pruned `max_value` satisfies the fail-soft property against the unpruned one, for every window with `-100 <= alpha < beta <= 100`. */
  lemma {:induction false} MaxValueFailSoft(ord: MoveOrder, b: Board, alpha: int, beta: int)
    requires -100 <= alpha < beta <= 100
    ensures FailSoft(MaxValue(ord, b, alpha, beta).value, TicTacToe.MaxValue(ord, b).value, alpha, beta)
    ensures var r := MaxValue(ord, b, alpha, beta);
      alpha < r.value < beta && !Terminal(b) ==> MinAfter(b, r.best.value) == r.value
    decreases |Actions(b)|, 1
  {
    if !Terminal(b) {
      NonTerminalHasActions(b);
      var acts := ord(b);
      var s := MaxLoop(ord, b, acts, -100, None, alpha, beta);
      var r := MaxValue(ord, b, alpha, beta);
      assert r.value == s.value && r.best == s.best;
      MaxLoopFailSoft(ord, b, acts, -100, None, alpha, beta);
      TicTacToe.MaxValueIsMaximum(ord, b);
      var w := TicTacToe.MaxValue(ord, b).best.value;
      assert w in acts;
      if r.value <= alpha {
        assert MinChildrenAtMost(b, acts, r.value);
        assert MinAfter(b, w) <= r.value;
      } else if r.value >= beta {
        assert MinChildAtLeast(b, acts, r.best, r.value);
        assert r.best.value in Actions(b);
      } else {
        assert MinChildrenAtMost(b, acts, r.value) && MinChildAtLeast(b, acts, r.best, r.value);
        var m := r.best.value;
        assert m in acts;
        assert MinAfter(b, m) <= r.value && MinAfter(b, m) >= r.value;
        assert MinAfter(b, w) <= r.value;
        assert m in Actions(b);
      }
    }
  }

  lemma {:induction false} MaxLoopFailSoft(ord: MoveOrder, b: Board, acts: seq<Action>, v: int, best: Option<Action>, alpha: int, beta: int)
    requires forall a :: a in acts ==> a in Actions(b)
    requires -100 <= v <= alpha < beta <= 100
    ensures MaxLoopFailSoftSpec(b, acts, MaxLoop(ord, b, acts, v, best, alpha, beta), alpha, beta)
    decreases |Actions(b)|, 0, |acts|
  {
    if acts != [] {
      var child := Succ(b, acts[0]);
      MinChildFailSoft(ord, b, acts[0], alpha, beta);
      var candidate := MinValue(ord, child, alpha, beta).value;
      var r := MaxLoop(ord, b, acts, v, best, alpha, beta);
      var tail := acts[1..];
      if candidate > v {
        if candidate < beta {
          var rest := MaxLoop(ord, b, tail, candidate, Some(acts[0]), candidate, beta);
          assert r.value == rest.value && r.best == rest.best;
          MaxLoopFailSoft(ord, b, tail, candidate, Some(acts[0]), candidate, beta);
          MaxLoopStep(b, acts, candidate, candidate, rest, alpha, beta);
        } else {
          assert r.value == candidate && r.best == Some(acts[0]);
        }
      } else {
        var rest := MaxLoop(ord, b, tail, v, best, alpha, beta);
        assert r.value == rest.value && r.best == rest.best;
        MaxLoopFailSoft(ord, b, tail, v, best, alpha, beta);
        MaxLoopStep(b, acts, candidate, alpha, rest, alpha, beta);
      }
    }
  }

  /**
   * One step of the `max_value` loop: the first successor was searched with window
   * `(alpha, beta)` and the rest with `(a', beta)`, where `a'` is its value if it
   * improved on the running value and `alpha` otherwise.
   */
  lemma MaxLoopStep(b: Board, acts: seq<Action>, candidate: int, alpha': int, rest: Scan, alpha: int, beta: int)
    requires forall a :: a in acts ==> a in Actions(b)
    requires acts != []
    requires alpha < beta && alpha' < beta
    requires rest.value >= candidate
    requires FailSoft(candidate, MinAfter(b, acts[0]), alpha, beta)
    requires alpha' == alpha ==> candidate <= alpha
    requires alpha' != alpha ==> candidate == alpha'
    requires alpha' != alpha && rest.value == alpha' ==> rest.best == Some(acts[0])
    requires MaxLoopFailSoftSpec(b, acts[1..], rest, alpha', beta)
    ensures MaxLoopFailSoftSpec(b, acts, rest, alpha, beta)
  {
    var tail := acts[1..];
    if rest.best.Some? && rest.best.value in tail {
      assert rest.best.value in acts;
    }
    var rv := rest.value;
    if rv <= alpha || alpha < rv < beta {
      // the tail's successors are bounded by rv, and so is the first one
      MinChildrenAtMostCons(b, acts, rv);
    }
  }

  lemma MinChildrenAtMostCons(b: Board, acts: seq<Action>, x: int)
    requires forall a :: a in acts ==> a in Actions(b)
    requires acts != [] && MinAfter(b, acts[0]) <= x
    requires MinChildrenAtMost(b, acts[1..], x)
    ensures MinChildrenAtMost(b, acts, x)
  {
    forall a | a in acts ensures MinAfter(b, a) <= x {
      if a != acts[0] {
        assert a in acts[1..];
      }
    }
  }

  lemma MaxChildrenAtLeastCons(b: Board, acts: seq<Action>, x: int)
    requires forall a :: a in acts ==> a in Actions(b)
    requires acts != [] && MaxAfter(b, acts[0]) >= x
    requires MaxChildrenAtLeast(b, acts[1..], x)
    ensures MaxChildrenAtLeast(b, acts, x)
  {
    forall a | a in acts ensures MaxAfter(b, a) >= x {
      if a != acts[0] {
        assert a in acts[1..];
      }
    }
  }

  /** The pruned `min_value` of a successor is a fail-soft bound on its reference value `MinAfter`. */
  lemma {:induction false} MinChildFailSoft(ord: MoveOrder, b: Board, a: Action, alpha: int, beta: int)
    requires a in Actions(b)
    requires -100 <= alpha < beta <= 100
    ensures FailSoft(MinValue(ord, Succ(b, a), alpha, beta).value, MinAfter(b, a), alpha, beta)
    decreases |Actions(b)|, 0, 0
  {
    var child := Succ(b, a);
    MinValueFailSoft(ord, child, alpha, beta);
    ValueIndependentOfOrder(ord, RowMajor, child);
    assert MinAfter(b, a) == TicTacToe.MinValue(ord, child).value;
  }

  /** The pruned `max_value` of a successor is a fail-soft bound on its reference value `MaxAfter`. */
  lemma {:induction false} MaxChildFailSoft(ord: MoveOrder, b: Board, a: Action, alpha: int, beta: int)
    requires a in Actions(b)
    requires -100 <= alpha < beta <= 100
    ensures FailSoft(MaxValue(ord, Succ(b, a), alpha, beta).value, MaxAfter(b, a), alpha, beta)
    decreases |Actions(b)|, 0, 0
  {
    var child := Succ(b, a);
    MaxValueFailSoft(ord, child, alpha, beta);
    ValueIndependentOfOrder(ord, RowMajor, child);
    assert MaxAfter(b, a) == TicTacToe.MaxValue(ord, child).value;
  }

  /** The pruned `min_value` satisfies the fail-soft property against the unpruned one, for every window with `-100 <= alpha < beta <= 100`. */
  lemma {:induction false} MinValueFailSoft(ord: MoveOrder, b: Board, alpha: int, beta: int)
    requires -100 <= alpha < beta <= 100
    ensures FailSoft(MinValue(ord, b, alpha, beta).value, TicTacToe.MinValue(ord, b).value, alpha, beta)
    ensures var r := MinValue(ord, b, alpha, beta);
      alpha < r.value < beta && !Terminal(b) ==> MaxAfter(b, r.best.value) == r.value
    decreases |Actions(b)|, 1
  {
    if !Terminal(b) {
      NonTerminalHasActions(b);
      var acts := ord(b);
      var s := MinLoop(ord, b, acts, 100, None, alpha, beta);
      var r := MinValue(ord, b, alpha, beta);
      assert r.value == s.value && r.best == s.best;
      MinLoopFailSoft(ord, b, acts, 100, None, alpha, beta);
      TicTacToe.MinValueIsMinimum(ord, b);
      var w := TicTacToe.MinValue(ord, b).best.value;
      assert w in acts;
      if r.value >= beta {
        assert MaxChildrenAtLeast(b, acts, r.value);
        assert MaxAfter(b, w) >= r.value;
      } else if r.value <= alpha {
        assert MaxChildAtMost(b, acts, r.best, r.value);
        assert r.best.value in Actions(b);
      } else {
        assert MaxChildrenAtLeast(b, acts, r.value) && MaxChildAtMost(b, acts, r.best, r.value);
        var m := r.best.value;
        assert m in acts;
        assert MaxAfter(b, m) >= r.value && MaxAfter(b, m) <= r.value;
        assert MaxAfter(b, w) >= r.value;
        assert m in Actions(b);
      }
    }
  }

  lemma {:induction false} MinLoopFailSoft(ord: MoveOrder, b: Board, acts: seq<Action>, v: int, best: Option<Action>, alpha: int, beta: int)
    requires forall a :: a in acts ==> a in Actions(b)
    requires -100 <= alpha < beta <= v <= 100
    ensures MinLoopFailSoftSpec(b, acts, MinLoop(ord, b, acts, v, best, alpha, beta), alpha, beta)
    decreases |Actions(b)|, 0, |acts|
  {
    if acts != [] {
      var child := Succ(b, acts[0]);
      MaxChildFailSoft(ord, b, acts[0], alpha, beta);
      var candidate := MaxValue(ord, child, alpha, beta).value;
      var r := MinLoop(ord, b, acts, v, best, alpha, beta);
      var tail := acts[1..];
      if candidate < v {
        if alpha < candidate {
          var rest := MinLoop(ord, b, tail, candidate, Some(acts[0]), alpha, candidate);
          assert r.value == rest.value && r.best == rest.best;
          MinLoopFailSoft(ord, b, tail, candidate, Some(acts[0]), alpha, candidate);
          MinLoopStep(b, acts, candidate, candidate, rest, alpha, beta);
        } else {
          assert r.value == candidate && r.best == Some(acts[0]);
        }
      } else {
        var rest := MinLoop(ord, b, tail, v, best, alpha, beta);
        assert r.value == rest.value && r.best == rest.best;
        MinLoopFailSoft(ord, b, tail, v, best, alpha, beta);
        MinLoopStep(b, acts, candidate, beta, rest, alpha, beta);
      }
    }
  }

  /** One step of the `min_value` loop, the mirror image of `MaxLoopStep`. */
  lemma MinLoopStep(b: Board, acts: seq<Action>, candidate: int, beta': int, rest: Scan, alpha: int, beta: int)
    requires forall a :: a in acts ==> a in Actions(b)
    requires acts != []
    requires alpha < beta && alpha < beta'
    requires rest.value <= candidate
    requires FailSoft(candidate, MaxAfter(b, acts[0]), alpha, beta)
    requires beta' == beta ==> candidate >= beta
    requires beta' != beta ==> candidate == beta'
    requires beta' != beta && rest.value == beta' ==> rest.best == Some(acts[0])
    requires MinLoopFailSoftSpec(b, acts[1..], rest, alpha, beta')
    ensures MinLoopFailSoftSpec(b, acts, rest, alpha, beta)
  {
    var tail := acts[1..];
    if rest.best.Some? && rest.best.value in tail {
      assert rest.best.value in acts;
    }
    var rv := rest.value;
    if rv >= beta || alpha < rv < beta {
      // the tail's successors are bounded by rv, and so is the first one
      MaxChildrenAtLeastCons(b, acts, rv);
    }
  }

  /** With the default window (-100, 100) the pruned search returns the same values as the unpruned one. */
  lemma AgreesWithMinimax(ord: MoveOrder, b: Board)
    ensures MaxValue(ord, b, -100, 100).value == TicTacToe.MaxValue(ord, b).value
    ensures MinValue(ord, b, -100, 100).value == TicTacToe.MinValue(ord, b).value
  {
    MaxValueFailSoft(ord, b, -100, 100);
    MinValueFailSoft(ord, b, -100, 100);
  }

  /** Hence the value at the root window (-100, 100) is the same for every move order. */
  lemma RootValueIndependentOfOrder(ord: MoveOrder, ord': MoveOrder, b: Board)
    ensures MaxValue(ord, b, -100, 100).value == MaxValue(ord', b, -100, 100).value
    ensures MinValue(ord, b, -100, 100).value == MinValue(ord', b, -100, 100).value
  {
    AgreesWithMinimax(ord, b);
    AgreesWithMinimax(ord', b);
    ValueIndependentOfOrder(ord, ord', b);
  }

  /**
   * Inside a narrower window the pruned value does depend on the order. With O to
   * move on the board below and window (0, 100), trying (0, 0) first ends in a draw
   * that closes the window, so the loop stops at 0; trying (2, 2) first wins column 2
   * for O and the loop stops at -1. Both are fail-soft bounds on the true value -1.
   */
  lemma PrunedValueDependsOnOrder()
    ensures var b := [[Empty, X, O], [X, X, O], [X, O, Empty]];
      && MinLoop(RowMajor, b, [(0, 0), (2, 2)], 100, None, 0, 100).value == 0
      && MinLoop(RowMajor, b, [(2, 2), (0, 0)], 100, None, 0, 100).value == -1
  {
    OpeningFacts();
    DrawAfterCorner();
    WinAfterColumn();
  }

  /** The starting board has (0, 0) and (2, 2) free; these are the boards O reaches by taking either. */
  lemma OpeningFacts()
    ensures var b := [[Empty, X, O], [X, X, O], [X, O, Empty]];
      && Actions(b) == {(0, 0), (2, 2)}
      && Succ(b, (0, 0)) == [[O, X, O], [X, X, O], [X, O, Empty]]
      && Succ(b, (2, 2)) == [[Empty, X, O], [X, X, O], [X, O, O]]
  {
    var b := [[Empty, X, O], [X, X, O], [X, O, Empty]];
    assert Actions(b) == {(0, 0), (2, 2)};
    assert FilledCount(b) == 7 && Player(b) == O;
    assert b[0][0 := O] == [O, X, O] && b[2][2 := O] == [X, O, O];
  }

  /** O takes the corner (0, 0): X's only reply fills the board without a line, a draw. */
  lemma DrawAfterCorner()
    ensures MaxValue(RowMajor, [[O, X, O], [X, X, O], [X, O, Empty]], 0, 100).value == 0
  {
    var b := [[O, X, O], [X, X, O], [X, O, Empty]];
    var full := [[O, X, O], [X, X, O], [X, O, X]];
    OpenFacts();
    FullFacts();
    assert MinValue(RowMajor, full, 0, 100).value == 0;
    assert MaxLoop(RowMajor, b, [(2, 2)], -100, None, 0, 100).value == 0;
  }

  /** The board after the corner move: not over, (2, 2) its only free square, X to fill it. */
  lemma OpenFacts()
    ensures var b := [[O, X, O], [X, X, O], [X, O, Empty]];
      && !Terminal(b) && RowMajor(b) == [(2, 2)]
      && Succ(b, (2, 2)) == [[O, X, O], [X, X, O], [X, O, X]]
  {
    var b := [[O, X, O], [X, X, O], [X, O, Empty]];
    NoLine(b);
    assert !Terminal(b) by { assert b[2][2] == Empty; }
    assert RowMajor(b) == ActionList(b) == [(2, 2)];
    assert FilledCount(b) == 8 && Player(b) == X;
    assert b[2][2 := X] == [X, O, X];
  }

  /** The full board after X fills (2, 2) has no line: a draw. */
  lemma FullFacts()
    ensures var full := [[O, X, O], [X, X, O], [X, O, X]];
      Terminal(full) && Utility(full) == 0
  {
    NoLine([[O, X, O], [X, X, O], [X, O, X]]);
  }

  /** O takes (2, 2) and completes column 2: O has won. */
  lemma WinAfterColumn()
    ensures MaxValue(RowMajor, [[Empty, X, O], [X, X, O], [X, O, O]], 0, 100).value == -1
  {
    var b := [[Empty, X, O], [X, X, O], [X, O, O]];
    assert LineOf(b, Lines[7], O);
    assert Player(b) == X;
    assert Winner(b) == Some(O);
  }

  /** Neither board of the draw line has three equal marks in a line. */
  lemma NoLine(b: Board)
    requires b == [[O, X, O], [X, X, O], [X, O, Empty]] || b == [[O, X, O], [X, X, O], [X, O, X]]
    ensures !SomeLineComplete(b)
  {
    forall k, m | 0 <= k < |Lines| ensures !LineOf(b, Lines[k], m) {
    }
  }

  /**
   * `minimax` of this variant: no move on a finished game; otherwise the move the
   * pruned search returns, which is optimal for the player to move.
   */
  function Minimax(ord: MoveOrder, b: Board): (r: Option<Action>)
    ensures r.None? <==> Terminal(b)
    ensures r.Some? ==> r.value in Actions(b)
    ensures r.Some? && Player(b) == X ==>
      MinAfter(b, r.value) == TicTacToe.MaxValue(ord, b).value
      && forall a :: a in Actions(b) ==> MinAfter(b, a) <= MinAfter(b, r.value)
    ensures r.Some? && Player(b) == O ==>
      MaxAfter(b, r.value) == TicTacToe.MinValue(ord, b).value
      && forall a :: a in Actions(b) ==> MaxAfter(b, a) >= MaxAfter(b, r.value)
  {
    if Terminal(b) then None
    else if Player(b) == X then
      MaxValueFailSoft(ord, b, -100, 100);
      TicTacToe.MaxValueIsMaximum(ord, b);
      MaxValue(ord, b, -100, 100).best
    else
      MinValueFailSoft(ord, b, -100, 100);
      TicTacToe.MinValueIsMinimum(ord, b);
      MinValue(ord, b, -100, 100).best
  }
}
