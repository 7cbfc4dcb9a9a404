/**
 * A sentence of the Minesweeper agent's knowledge: "exactly `count` of these
 * `cells` are mines".
 */
module Sentences {
  import opened Game

  /** Two sentences are equal when their cell sets and counts are equal. */
  datatype Sentence = Sentence(cells: set<Cell>, count: int)

  /** The sentence is true of the mine field `field`. */
  ghost predicate Holds(s: Sentence, field: set<Cell>) {
    |s.cells * field| == s.count
  }

  /** `known_mines`: all of the cells when there are as many mines as cells, none otherwise. */
  function KnownMines(s: Sentence): (r: set<Cell>)
    ensures r <= s.cells
    ensures r == s.cells || r == {}
    ensures r != {} <==> s.cells != {} && |s.cells| == s.count
  {
    if |s.cells| == s.count then s.cells else {}
  }

  /** `known_safes`: all of the cells when the count is zero, none otherwise. */
  function KnownSafes(s: Sentence): (r: set<Cell>)
    ensures r <= s.cells
    ensures r == s.cells || r == {}
    ensures r != {} <==> s.cells != {} && s.count == 0
  {
    if s.count == 0 then s.cells else {}
  }

  /** A true sentence counts between zero and its number of cells. */
  lemma HoldsBounds(s: Sentence, field: set<Cell>)
    requires Holds(s, field)
    ensures 0 <= s.count <= |s.cells|
  {
    SubsetSize(s.cells * field, s.cells);
  }

  /**
   * What `known_mines` reports is exactly what a true sentence forces: the cells it
   * names are mines, and when it names any cell at all, every cell of the sentence is
   * a mine in every field that makes the sentence true.
   */
  lemma KnownMinesSound(s: Sentence, field: set<Cell>)
    requires Holds(s, field)
    ensures KnownMines(s) <= field
    ensures s.cells != {} && s.cells <= field ==> KnownMines(s) == s.cells
  {
    if |s.cells| == s.count {
      SubsetSize(s.cells * field, s.cells);
    }
    if s.cells <= field {
      assert s.cells * field == s.cells;
    }
  }

  /**
   * What `known_safes` reports is safe in every field that makes the sentence true;
   * and a non-empty true sentence with no mines among its cells is one it reports.
   */
  lemma KnownSafesSound(s: Sentence, field: set<Cell>)
    requires Holds(s, field)
    ensures KnownSafes(s) !! field
    ensures s.cells != {} && s.cells !! field ==> KnownSafes(s) == s.cells
  {
    if s.count == 0 {
      assert s.cells * field == {};
      forall c | c in s.cells
        ensures c !in field
      {
        assert c !in s.cells * field;
      }
    }
    if s.cells !! field {
      assert s.cells * field == {};
    }
  }

  /** `mark_mine`: drop the cell, and one from the count when the cell was in the sentence. */
  function MarkMine(s: Sentence, cell: Cell): (r: Sentence)
    ensures r.cells == s.cells - {cell}
    ensures cell in s.cells ==> r.count == s.count - 1
    ensures cell !in s.cells ==> r == s
  {
    if cell in s.cells then Sentence(s.cells - {cell}, s.count - 1) else s
  }

  /** `mark_safe`: drop the cell, keeping the count. */
  function MarkSafe(s: Sentence, cell: Cell): (r: Sentence)
    ensures r.cells == s.cells - {cell}
    ensures r.count == s.count
  {
    if cell in s.cells then Sentence(s.cells - {cell}, s.count) else s
  }

  /** Marking a true mine neither makes a true sentence false nor a false one true. */
  lemma MarkMineKeepsTruth(s: Sentence, cell: Cell, field: set<Cell>)
    requires cell in field
    ensures Holds(MarkMine(s, cell), field) <==> Holds(s, field)
  {
    if cell in s.cells {
      assert s.cells * field == (s.cells - {cell}) * field + {cell};
    }
  }

  /** Marking a truly safe cell neither makes a true sentence false nor a false one true. */
  lemma MarkSafeKeepsTruth(s: Sentence, cell: Cell, field: set<Cell>)
    requires cell !in field
    ensures Holds(MarkSafe(s, cell), field) <==> Holds(s, field)
  {
    assert (s.cells - {cell}) * field == s.cells * field;
  }

  /** Marking the same cell twice is marking it once. */
  lemma MarkIdempotent(s: Sentence, cell: Cell)
    ensures MarkMine(MarkMine(s, cell), cell) == MarkMine(s, cell)
    ensures MarkSafe(MarkSafe(s, cell), cell) == MarkSafe(s, cell)
  {
  }

  /** Marking every cell of `cs` as a mine at once. */
  function MarkMines(s: Sentence, cs: set<Cell>): (r: Sentence)
    ensures r.cells == s.cells - cs
  {
    Sentence(s.cells - cs, s.count - |s.cells * cs|)
  }

  /** Marking every cell of `cs` as safe at once. */
  function MarkSafes(s: Sentence, cs: set<Cell>): (r: Sentence)
    ensures r.cells == s.cells - cs
    ensures r.count == s.count
  {
    Sentence(s.cells - cs, s.count)
  }

  /** Marking one more mine before a batch is marking it with the batch. */
  lemma MarkMineThenMines(s: Sentence, cell: Cell, cs: set<Cell>)
    ensures MarkMines(MarkMine(s, cell), cs) == MarkMines(s, {cell} + cs)
  {
    if cell in s.cells {
      var rest := (s.cells - {cell}) * cs;
      assert s.cells * ({cell} + cs) == {cell} + rest;
      assert cell !in rest;
    } else {
      assert s.cells * ({cell} + cs) == s.cells * cs;
    }
  }

  /** Marking one more safe cell before a batch is marking it with the batch. */
  lemma MarkSafeThenSafes(s: Sentence, cell: Cell, cs: set<Cell>)
    ensures MarkSafes(MarkSafe(s, cell), cs) == MarkSafes(s, {cell} + cs)
  {
  }

  /** Marking a set of true mines keeps the sentence's truth value. */
  lemma MarkMinesKeepsTruth(s: Sentence, cs: set<Cell>, field: set<Cell>)
    requires cs <= field
    ensures Holds(MarkMines(s, cs), field) <==> Holds(s, field)
  {
    var gone := s.cells * cs;
    var kept := (s.cells - cs) * field;
    assert s.cells * field == kept + gone;
    assert kept !! gone;
  }

  /** Marking a set of truly safe cells keeps the sentence's truth value. */
  lemma MarkSafesKeepsTruth(s: Sentence, cs: set<Cell>, field: set<Cell>)
    requires cs !! field
    ensures Holds(MarkSafes(s, cs), field) <==> Holds(s, field)
  {
    assert (s.cells - cs) * field == s.cells * field;
  }

  /**
   * The subset rule: when `t`'s cells are among `s`'s, the cells of `s` not in `t`
   * hold the mines of `s` that `t` does not account for.
   */
  function Difference(s: Sentence, t: Sentence): Sentence {
    Sentence(s.cells - t.cells, s.count - t.count)
  }

  /** The subset rule is sound: from two true sentences it derives a true one. */
  lemma DifferenceSound(s: Sentence, t: Sentence, field: set<Cell>)
    requires t.cells <= s.cells
    requires Holds(s, field) && Holds(t, field)
    ensures Holds(Difference(s, t), field)
  {
    var inner := t.cells * field;
    var outer := (s.cells - t.cells) * field;
    assert s.cells * field == inner + outer;
    assert inner !! outer;
  }
}
