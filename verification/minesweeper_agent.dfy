/**
 * The Minesweeper agent: what it has clicked, what it knows to be mines or safe,
 * and the sentences it has learned from the board's neighbour counts.
 */
module Agent {
  import opened Wrappers
  import opened Game
  import Sentences

  type Sentence = Sentences.Sentence

  /** The agent's state; `knowledge` keeps the order in which sentences were learned. */
  datatype AI = AI(
    height: int,
    width: int,
    movesMade: set<Cell>,
    mines: set<Cell>,
    safes: set<Cell>,
    knowledge: seq<Sentence>)

  /** The agent before its first move. */
  function Start(height: int, width: int): AI {
    AI(height, width, {}, {}, {}, [])
  }

  /**
   * Everything the agent believes is true of the mine field `field`: its mines are
   * mines, its safe cells are not, every clicked cell is among its safe cells (a
   * click may be a guess, but `add_knowledge` then marks the clicked cell safe),
   * and every sentence holds.
   */
  ghost predicate Sound(ai: AI, field: set<Cell>) {
    && ai.mines <= field
    && ai.safes !! field
    && ai.movesMade <= ai.safes
    && forall k :: 0 <= k < |ai.knowledge| ==> Sentences.Holds(ai.knowledge[k], field)
  }

  /** The agent knows nothing yet, so nothing it believes is false. */
  lemma StartSound(height: int, width: int, field: set<Cell>)
    ensures Sound(Start(height, width), field)
  {
  }

  /** A sound agent never believes a cell is both a mine and safe. */
  lemma SoundMinesAndSafesDisjoint(ai: AI, field: set<Cell>)
    requires Sound(ai, field)
    ensures ai.mines !! ai.safes
    ensures ai.mines !! ai.movesMade
  {
  }

  // ---------------------------------------------------------------- marking

  /** `mark_mine`: record the mine and remove it from every sentence. */
  function MarkMine(ai: AI, cell: Cell): (r: AI)
    ensures r == ai.(mines := ai.mines + {cell}, knowledge := r.knowledge)
    ensures |r.knowledge| == |ai.knowledge|
    ensures forall k :: 0 <= k < |r.knowledge| ==> r.knowledge[k] == Sentences.MarkMine(ai.knowledge[k], cell)
  {
    ai.(mines := ai.mines + {cell},
        knowledge := seq(|ai.knowledge|, k requires 0 <= k < |ai.knowledge| => Sentences.MarkMine(ai.knowledge[k], cell)))
  }

  /** `mark_safe`: record the safe cell and remove it from every sentence. */
  function MarkSafe(ai: AI, cell: Cell): (r: AI)
    ensures r == ai.(safes := ai.safes + {cell}, knowledge := r.knowledge)
    ensures |r.knowledge| == |ai.knowledge|
    ensures forall k :: 0 <= k < |r.knowledge| ==> r.knowledge[k] == Sentences.MarkSafe(ai.knowledge[k], cell)
  {
    ai.(safes := ai.safes + {cell},
        knowledge := seq(|ai.knowledge|, k requires 0 <= k < |ai.knowledge| => Sentences.MarkSafe(ai.knowledge[k], cell)))
  }

  /** After marking, no sentence mentions the cell, and marking it again changes nothing. */
  lemma MarkRemovesCell(ai: AI, cell: Cell)
    ensures forall k :: 0 <= k < |ai.knowledge| ==> cell !in MarkMine(ai, cell).knowledge[k].cells
    ensures forall k :: 0 <= k < |ai.knowledge| ==> cell !in MarkSafe(ai, cell).knowledge[k].cells
    ensures MarkMine(MarkMine(ai, cell), cell) == MarkMine(ai, cell)
    ensures MarkSafe(MarkSafe(ai, cell), cell) == MarkSafe(ai, cell)
  {
    var m := MarkMine(ai, cell);
    assert MarkMine(m, cell).knowledge == m.knowledge by {
      forall k | 0 <= k < |m.knowledge|
        ensures MarkMine(m, cell).knowledge[k] == m.knowledge[k]
      {
        Sentences.MarkIdempotent(ai.knowledge[k], cell);
      }
    }
    var s := MarkSafe(ai, cell);
    assert MarkSafe(s, cell).knowledge == s.knowledge by {
      forall k | 0 <= k < |s.knowledge|
        ensures MarkSafe(s, cell).knowledge[k] == s.knowledge[k]
      {
        Sentences.MarkIdempotent(ai.knowledge[k], cell);
      }
    }
  }

  /** Marking a true mine keeps a sound agent sound. */
  lemma MarkMineSound(ai: AI, cell: Cell, field: set<Cell>)
    requires Sound(ai, field) && cell in field
    ensures Sound(MarkMine(ai, cell), field)
  {
    var r := MarkMine(ai, cell);
    forall k | 0 <= k < |r.knowledge|
      ensures Sentences.Holds(r.knowledge[k], field)
    {
      Sentences.MarkMineKeepsTruth(ai.knowledge[k], cell, field);
    }
  }

  /** Marking a truly safe cell keeps a sound agent sound. */
  lemma MarkSafeSound(ai: AI, cell: Cell, field: set<Cell>)
    requires Sound(ai, field) && cell !in field
    ensures Sound(MarkSafe(ai, cell), field)
  {
    var r := MarkSafe(ai, cell);
    forall k | 0 <= k < |r.knowledge|
      ensures Sentences.Holds(r.knowledge[k], field)
    {
      Sentences.MarkSafeKeepsTruth(ai.knowledge[k], cell, field);
    }
  }

  /** Mark every cell of `cs` as a mine, in the order listed. */
  function MarkMineEach(ai: AI, cs: seq<Cell>): AI
    decreases |cs|
  {
    if cs == [] then ai else MarkMineEach(MarkMine(ai, cs[0]), cs[1..])
  }

  /** Mark every cell of `cs` as safe, in the order listed. */
  function MarkSafeEach(ai: AI, cs: seq<Cell>): AI
    decreases |cs|
  {
    if cs == [] then ai else MarkSafeEach(MarkSafe(ai, cs[0]), cs[1..])
  }

  /** Mark a set of cells as mines at once. */
  function MarkMines(ai: AI, cs: set<Cell>): (r: AI)
    ensures r == ai.(mines := ai.mines + cs, knowledge := r.knowledge)
    ensures |r.knowledge| == |ai.knowledge|
    ensures forall k :: 0 <= k < |r.knowledge| ==> r.knowledge[k] == Sentences.MarkMines(ai.knowledge[k], cs)
  {
    ai.(mines := ai.mines + cs,
        knowledge := seq(|ai.knowledge|, k requires 0 <= k < |ai.knowledge| => Sentences.MarkMines(ai.knowledge[k], cs)))
  }

  /** Mark a set of cells as safe at once. */
  function MarkSafes(ai: AI, cs: set<Cell>): (r: AI)
    ensures r == ai.(safes := ai.safes + cs, knowledge := r.knowledge)
    ensures |r.knowledge| == |ai.knowledge|
    ensures forall k :: 0 <= k < |r.knowledge| ==> r.knowledge[k] == Sentences.MarkSafes(ai.knowledge[k], cs)
  {
    ai.(safes := ai.safes + cs,
        knowledge := seq(|ai.knowledge|, k requires 0 <= k < |ai.knowledge| => Sentences.MarkSafes(ai.knowledge[k], cs)))
  }

  function Elements(cs: seq<Cell>): (r: set<Cell>)
    ensures forall c :: c in r <==> c in cs
  {
    set c | c in cs
  }

  /**
   * Marking the cells of a set one at a time gives the same agent whatever order
   * the set is walked in: that of marking them all at once.
   */
  lemma {:induction false} MarkMineEachIsBatch(ai: AI, cs: seq<Cell>)
    ensures MarkMineEach(ai, cs) == MarkMines(ai, Elements(cs))
    decreases |cs|
  {
    if cs == [] {
      assert Elements(cs) == {};
      MarkMinesNone(ai);
    } else {
      var c := cs[0];
      MarkMineEachIsBatch(MarkMine(ai, c), cs[1..]);
      assert Elements(cs) == {c} + Elements(cs[1..]);
      MarkMineThenMines(ai, c, Elements(cs[1..]));
    }
  }

  /** Marking no cell as a mine changes nothing. */
  lemma MarkMinesNone(ai: AI)
    ensures MarkMines(ai, {}) == ai
  {
    forall k | 0 <= k < |ai.knowledge|
      ensures MarkMines(ai, {}).knowledge[k] == ai.knowledge[k]
    {
      assert ai.knowledge[k].cells - {} == ai.knowledge[k].cells;
      assert ai.knowledge[k].cells * {} == {};
    }
    assert ai.mines + {} == ai.mines;
  }

  /** Marking one mine and then a set of mines is marking their union at once. */
  lemma MarkMineThenMines(ai: AI, c: Cell, cs: set<Cell>)
    ensures MarkMines(MarkMine(ai, c), cs) == MarkMines(ai, {c} + cs)
  {
    var m := MarkMine(ai, c);
    forall k | 0 <= k < |ai.knowledge|
      ensures MarkMines(m, cs).knowledge[k] == MarkMines(ai, {c} + cs).knowledge[k]
    {
      Sentences.MarkMineThenMines(ai.knowledge[k], c, cs);
    }
  }

  /** The safe-cell counterpart of `MarkMineEachIsBatch`. */
  lemma {:induction false} MarkSafeEachIsBatch(ai: AI, cs: seq<Cell>)
    ensures MarkSafeEach(ai, cs) == MarkSafes(ai, Elements(cs))
    decreases |cs|
  {
    if cs == [] {
      assert Elements(cs) == {};
      MarkSafesNone(ai);
    } else {
      var c := cs[0];
      MarkSafeEachIsBatch(MarkSafe(ai, c), cs[1..]);
      assert Elements(cs) == {c} + Elements(cs[1..]);
      MarkSafeThenSafes(ai, c, Elements(cs[1..]));
    }
  }

  /** Marking no cell as safe changes nothing. */
  lemma MarkSafesNone(ai: AI)
    ensures MarkSafes(ai, {}) == ai
  {
    forall k | 0 <= k < |ai.knowledge|
      ensures MarkSafes(ai, {}).knowledge[k] == ai.knowledge[k]
    {
      assert ai.knowledge[k].cells - {} == ai.knowledge[k].cells;
    }
    assert ai.safes + {} == ai.safes;
  }

  /** Marking one safe cell and then a set of safe cells is marking their union at once. */
  lemma MarkSafeThenSafes(ai: AI, c: Cell, cs: set<Cell>)
    ensures MarkSafes(MarkSafe(ai, c), cs) == MarkSafes(ai, {c} + cs)
  {
    var m := MarkSafe(ai, c);
    forall k | 0 <= k < |ai.knowledge|
      ensures MarkSafes(m, cs).knowledge[k] == MarkSafes(ai, {c} + cs).knowledge[k]
    {
      Sentences.MarkSafeThenSafes(ai.knowledge[k], c, cs);
    }
  }

  /** Marking a set of true mines keeps a sound agent sound. */
  lemma MarkMinesSound(ai: AI, cs: set<Cell>, field: set<Cell>)
    requires Sound(ai, field) && cs <= field
    ensures Sound(MarkMines(ai, cs), field)
  {
    var r := MarkMines(ai, cs);
    forall k | 0 <= k < |r.knowledge|
      ensures Sentences.Holds(r.knowledge[k], field)
    {
      Sentences.MarkMinesKeepsTruth(ai.knowledge[k], cs, field);
    }
  }

  /** Marking a set of truly safe cells keeps a sound agent sound. */
  lemma MarkSafesSound(ai: AI, cs: set<Cell>, field: set<Cell>)
    requires Sound(ai, field) && cs !! field
    ensures Sound(MarkSafes(ai, cs), field)
  {
    var r := MarkSafes(ai, cs);
    forall k | 0 <= k < |r.knowledge|
      ensures Sentences.Holds(r.knowledge[k], field)
    {
      Sentences.MarkSafesKeepsTruth(ai.knowledge[k], cs, field);
    }
  }

  // ------------------------------------------------- step 3: the new sentence

  /** The cells of `ns` that the new sentence may name: on the board and not yet classified or clicked. */
  predicate Unknown(ai: AI, c: Cell) {
    InBounds(ai.height, ai.width, c) && c !in ai.mines && c !in ai.safes && c !in ai.movesMade
  }

  /**
   * The loop over the neighbours: a known mine lowers the count, a known safe or
   * clicked cell is skipped, and any other cell on the board joins the sentence.
   */
  function Collect(ai: AI, ns: seq<Cell>, cells: set<Cell>, count: int): Sentence
    decreases |ns|
  {
    if ns == [] then Sentences.Sentence(cells, count)
    else if ns[0] in ai.mines then Collect(ai, ns[1..], cells, count - 1)
    else if ns[0] in ai.safes || ns[0] in ai.movesMade then Collect(ai, ns[1..], cells, count)
    else if InBounds(ai.height, ai.width, ns[0]) then Collect(ai, ns[1..], cells + {ns[0]}, count)
    else Collect(ai, ns[1..], cells, count)
  }

  /** The cells of `ns` that are unknown to the agent. */
  function UnknownAmong(ai: AI, ns: seq<Cell>): (r: set<Cell>)
    ensures forall c :: c in r <==> c in ns && Unknown(ai, c)
  {
    set c | c in ns && Unknown(ai, c)
  }

  lemma UnknownAmongCons(ai: AI, ns: seq<Cell>)
    requires ns != []
    ensures UnknownAmong(ai, ns) == (if Unknown(ai, ns[0]) then {ns[0]} else {}) + UnknownAmong(ai, ns[1..])
  {
  }

  lemma TailDistinct(ns: seq<Cell>)
    requires ns != []
    requires forall p, q :: 0 <= p < q < |ns| ==> ns[p] != ns[q]
    ensures forall p, q :: 0 <= p < q < |ns[1..]| ==> ns[1..][p] != ns[1..][q]
    ensures ns[0] !in ns[1..]
  {
    var rest := ns[1..];
    forall p, q | 0 <= p < q < |rest|
      ensures rest[p] != rest[q]
    {
      assert rest[p] == ns[p + 1] && rest[q] == ns[q + 1];
    }
    forall q | 0 <= q < |rest|
      ensures rest[q] != ns[0]
    {
      assert rest[q] == ns[q + 1];
    }
  }

  lemma MinesAmongCons(ai: AI, ns: seq<Cell>)
    requires ns != [] && ns[0] !in ns[1..]
    ensures |Elements(ns) * ai.mines| == |Elements(ns[1..]) * ai.mines| + if ns[0] in ai.mines then 1 else 0
  {
    var restMines := Elements(ns[1..]) * ai.mines;
    if ns[0] in ai.mines {
      assert Elements(ns) * ai.mines == {ns[0]} + restMines;
      assert ns[0] !in restMines;
    } else {
      assert Elements(ns) * ai.mines == restMines;
    }
  }

  /** Over a list without repeats, the loop keeps the unknown cells and subtracts the known mines. */
  lemma {:induction false} CollectSpec(ai: AI, ns: seq<Cell>, cells: set<Cell>, count: int)
    requires forall p, q :: 0 <= p < q < |ns| ==> ns[p] != ns[q]
    ensures Collect(ai, ns, cells, count).cells == cells + UnknownAmong(ai, ns)
    ensures Collect(ai, ns, cells, count).count == count - |Elements(ns) * ai.mines|
    decreases |ns|
  {
    if ns == [] {
      assert Elements(ns) * ai.mines == {};
      assert UnknownAmong(ai, ns) == {};
    } else {
      var n, rest := ns[0], ns[1..];
      TailDistinct(ns);
      UnknownAmongCons(ai, ns);
      MinesAmongCons(ai, ns);
      if n in ai.mines {
        CollectSpec(ai, rest, cells, count - 1);
      } else if n in ai.safes || n in ai.movesMade || !InBounds(ai.height, ai.width, n) {
        CollectSpec(ai, rest, cells, count);
      } else {
        CollectSpec(ai, rest, cells + {n}, count);
        assert cells + {n} + UnknownAmong(ai, rest) == cells + UnknownAmong(ai, ns);
      }
    }
  }

  /**
   * Steps 1 to 3 of `add_knowledge`: record the move, mark the cell safe, and append
   * the sentence about its neighbours: the unknown neighbours on the board hold
   * `count` mines less the neighbours already known to be mines.
   */
  function Observe(ai: AI, cell: Cell, count: int): (r: AI)
    ensures r.height == ai.height && r.width == ai.width && r.mines == ai.mines
    ensures r.movesMade == ai.movesMade + {cell} && r.safes == ai.safes + {cell}
    ensures |r.knowledge| == |ai.knowledge| + 1
    ensures forall k :: 0 <= k < |ai.knowledge| ==> r.knowledge[k] == Sentences.MarkSafe(ai.knowledge[k], cell)
    ensures forall c :: c in r.knowledge[|ai.knowledge|].cells <==> c in Neighbours(cell) && Unknown(r, c)
    ensures r.knowledge[|ai.knowledge|].count == count - |Neighbours(cell) * ai.mines|
  {
    var marked := MarkSafe(ai.(movesMade := ai.movesMade + {cell}), cell);
    var s := Collect(marked, NeighbourList(cell), {}, count);
    NeighbourListDistinct(cell);
    CollectSpec(marked, NeighbourList(cell), {}, count);
    assert Elements(NeighbourList(cell)) == Neighbours(cell);
    marked.(knowledge := marked.knowledge + [s])
  }

  lemma DifferenceSize<T>(a: set<T>, b: set<T>)
    requires b <= a
    ensures |a - b| == |a| - |b|
  {
    assert a == (a - b) + b;
  }

  /** The observed count of a clicked safe cell yields a true sentence, so observing keeps the agent sound. */
  lemma ObserveSound(ai: AI, cell: Cell, count: int, field: set<Cell>)
    requires Sound(ai, field)
    requires forall c :: c in field ==> InBounds(ai.height, ai.width, c)
    requires cell !in field
    requires count == |Neighbours(cell) * field|
    ensures Sound(Observe(ai, cell, count), field)
  {
    var marked := MarkSafe(ai, cell);
    MarkSafeSound(ai, cell, field);
    var r := Observe(ai, cell, count);
    var s := r.knowledge[|ai.knowledge|];
    var near := Neighbours(cell) * field;
    var known := Neighbours(cell) * ai.mines;
    forall c
      ensures c in s.cells * field <==> c in near - known
    {
      if c in field {
        assert InBounds(ai.height, ai.width, c);
        assert c !in r.safes && c !in r.movesMade;
      }
    }
    assert s.cells * field == near - known;
    DifferenceSize(near, known);
    assert Sentences.Holds(s, field);
    forall k | 0 <= k < |r.knowledge|
      ensures Sentences.Holds(r.knowledge[k], field)
    {
      if k < |ai.knowledge| {
        assert r.knowledge[k] == marked.knowledge[k];
      }
    }
  }

  // -------------------------------------------------- step 4: the resolution pass

  /**
   * One iteration of the pass over the knowledge, at sentence `k` as it stands when
   * the loop reaches it: a count of zero marks all its cells safe, a count equal to
   * its size marks them all mines. The source walks the cells in set order; by
   * `MarkSafeEachIsBatch` and `MarkMineEachIsBatch` every order gives this result.
   */
  function ResolveStep(ai: AI, k: nat): (r: AI)
    requires k < |ai.knowledge|
    ensures r == ai.(mines := r.mines, safes := r.safes, knowledge := r.knowledge)
    ensures |r.knowledge| == |ai.knowledge|
    ensures ai.mines <= r.mines && ai.safes <= r.safes
  {
    var s := ai.knowledge[k];
    if s.count == 0 then MarkSafes(ai, s.cells)
    else if s.count == |s.cells| then MarkMines(ai, s.cells)
    else ai
  }

  /** The agent after the pass has visited the first `k` sentences. */
  function ResolveUpTo(ai: AI, k: nat): (r: AI)
    requires k <= |ai.knowledge|
    ensures r == ai.(mines := r.mines, safes := r.safes, knowledge := r.knowledge)
    ensures |r.knowledge| == |ai.knowledge|
    ensures ai.mines <= r.mines && ai.safes <= r.safes
    decreases k
  {
    if k == 0 then ai else ResolveStep(ResolveUpTo(ai, k - 1), k - 1)
  }

  /** Step 4 of `add_knowledge`: one pass over the knowledge in order. */
  function Resolve(ai: AI): (r: AI)
    ensures r == ai.(mines := r.mines, safes := r.safes, knowledge := r.knowledge)
    ensures |r.knowledge| == |ai.knowledge|
    ensures ai.mines <= r.mines && ai.safes <= r.safes
  {
    ResolveUpTo(ai, |ai.knowledge|)
  }

  /** The pass only adds to what is known, and only removes cells from sentences. */
  lemma {:induction false} ResolveGrows(ai: AI, j: nat, k: nat)
    requires j <= k <= |ai.knowledge|
    ensures ResolveUpTo(ai, j).mines <= ResolveUpTo(ai, k).mines
    ensures ResolveUpTo(ai, j).safes <= ResolveUpTo(ai, k).safes
    ensures forall i :: 0 <= i < |ai.knowledge| ==> ResolveUpTo(ai, k).knowledge[i].cells <= ResolveUpTo(ai, j).knowledge[i].cells
    decreases k - j
  {
    if j < k {
      ResolveGrows(ai, j, k - 1);
      var before := ResolveUpTo(ai, k - 1);
      assert ResolveUpTo(ai, k) == ResolveStep(before, k - 1);
    }
  }

  /**
   * A sentence whose count is zero when the pass reaches it has all its cells marked
   * safe and ends the pass with no cells; one whose count equals its size has all its
   * cells marked mines and likewise ends with no cells.
   */
  lemma ResolveClears(ai: AI, k: nat)
    requires k < |ai.knowledge|
    ensures var s := ResolveUpTo(ai, k).knowledge[k];
            s.count == 0 ==> s.cells <= Resolve(ai).safes && Resolve(ai).knowledge[k].cells == {}
    ensures var s := ResolveUpTo(ai, k).knowledge[k];
            s.count != 0 && s.count == |s.cells| ==> s.cells <= Resolve(ai).mines && Resolve(ai).knowledge[k].cells == {}
  {
    var before := ResolveUpTo(ai, k);
    var s := before.knowledge[k];
    var after := ResolveUpTo(ai, k + 1);
    assert after == ResolveStep(before, k);
    ResolveGrows(ai, k + 1, |ai.knowledge|);
    var done := Resolve(ai);
    assert done.knowledge[k].cells <= after.knowledge[k].cells;
    if s.count == 0 {
      assert after == MarkSafes(before, s.cells);
      assert after.knowledge[k].cells == {};
    } else if s.count == |s.cells| {
      assert after == MarkMines(before, s.cells);
      assert after.knowledge[k].cells == {};
    }
  }

  /** One iteration of the pass keeps a sound agent sound. */
  lemma ResolveStepSound(ai: AI, k: nat, field: set<Cell>)
    requires k < |ai.knowledge| && Sound(ai, field)
    ensures Sound(ResolveStep(ai, k), field)
  {
    var s := ai.knowledge[k];
    if s.count == 0 {
      Sentences.KnownSafesSound(s, field);
      MarkSafesSound(ai, s.cells, field);
    } else if s.count == |s.cells| {
      Sentences.KnownMinesSound(s, field);
      MarkMinesSound(ai, s.cells, field);
    }
  }

  /** The pass keeps a sound agent sound, sentence after sentence. */
  lemma ResolveUpToSound(ai: AI, k: nat, field: set<Cell>)
    requires k <= |ai.knowledge| && Sound(ai, field)
    ensures Sound(ResolveUpTo(ai, k), field)
  {
    var j := 0;
    while j < k
      invariant j <= k
      invariant Sound(ResolveUpTo(ai, j), field)
    {
      var prev := ResolveUpTo(ai, j);
      ResolveStepSound(prev, j, field);
      assert ResolveUpTo(ai, j + 1) == ResolveStep(prev, j);
      j := j + 1;
    }
  }

  // ---------------------------------------------- step 5: the subset round

  /** The new facts the round gathers: cells it found safe or mines, and the sentences to append. */
  datatype Round = Round(safes: set<Cell>, mines: set<Cell>, inferred: seq<Sentence>)

  /**
   * The pair `(s, t)` passes the round's filters and `t`'s cells lie strictly inside
   * `s`'s, so the round derives `Sentences.Difference(s, t)` from it.
   */
  predicate Derives(s: Sentence, t: Sentence) {
    |s.cells| != 0 && |t.cells| != 0 && t != s && t.cells < s.cells
  }

  /** `d` comes from a pair of `kb`'s sentences by the subset rule, is non-empty and is not already in `kb`. */
  ghost predicate Inferred(kb: seq<Sentence>, d: Sentence) {
    && d !in kb
    && d.cells != {}
    && exists p, q :: 0 <= p < |kb| && 0 <= q < |kb| && Derives(kb[p], kb[q]) && d == Sentences.Difference(kb[p], kb[q])
  }

  /**
   * What the round does with a derived sentence: queue it unless it is already in
   * the knowledge, and add its cells to the safe cells when its count is zero, or to
   * the mines when its count equals its size. The sentences themselves are not updated.
   */
  function Learn(kb: seq<Sentence>, d: Sentence, r: Round): (r': Round)
    ensures r.safes <= r'.safes && r.mines <= r'.mines
    ensures r'.inferred == if d in kb then r.inferred else r.inferred + [d]
    ensures d.count == 0 ==> r'.safes == r.safes + d.cells && r'.mines == r.mines
    ensures d.count != 0 && d.count == |d.cells| ==> r'.mines == r.mines + d.cells && r'.safes == r.safes
    ensures d.count != 0 && d.count != |d.cells| ==> r'.mines == r.mines && r'.safes == r.safes
  {
    var inferred := if d in kb then r.inferred else r.inferred + [d];
    if d.count == 0 then Round(r.safes + d.cells, r.mines, inferred)
    else if d.count == |d.cells| then Round(r.safes, r.mines + d.cells, inferred)
    else Round(r.safes, r.mines, inferred)
  }

  /** The body of the round's loop for the pair `(kb[i], kb[j])`. */
  function Consider(kb: seq<Sentence>, i: nat, j: nat, r: Round): Round
    requires i < |kb| && j < |kb|
  {
    var s, s2 := kb[i], kb[j];
    if |s.cells| == 0 || |s2.cells| == 0 || s2 == s then r
    else if s2.cells < s.cells then Learn(kb, Sentences.Difference(s, s2), r)
    else if s.cells < s2.cells then Learn(kb, Sentences.Difference(s2, s), r)
    else r
  }

  /**
   * The round's loop over every ordered pair of the knowledge, first component
   * outermost, from the pair `(kb[i], kb[j])` on.
   */
  function PairsFrom(kb: seq<Sentence>, i: nat, j: nat, r: Round): (r': Round)
    requires i <= |kb| && j <= |kb|
    ensures r.safes <= r'.safes && r.mines <= r'.mines
    ensures |r.inferred| <= |r'.inferred| && r'.inferred[..|r.inferred|] == r.inferred
    decreases |kb| - i, |kb| - j
  {
    if i == |kb| then r
    else if j == |kb| then PairsFrom(kb, i + 1, 0, r)
    else PairsFrom(kb, i, j + 1, Consider(kb, i, j, r))
  }

  /** Every sentence the round queues is derived by the subset rule, non-empty, and not already known. */
  lemma {:induction false} PairsFromInferred(kb: seq<Sentence>, i: nat, j: nat, r: Round)
    requires i <= |kb| && j <= |kb|
    ensures forall k :: |r.inferred| <= k < |PairsFrom(kb, i, j, r).inferred| ==> Inferred(kb, PairsFrom(kb, i, j, r).inferred[k])
    decreases |kb| - i, |kb| - j
  {
    if i == |kb| {
    } else if j == |kb| {
      assert PairsFrom(kb, i, j, r) == PairsFrom(kb, i + 1, 0, r);
      PairsFromInferred(kb, i + 1, 0, r);
    } else {
      var mid := Consider(kb, i, j, r);
      var r' := PairsFrom(kb, i, j + 1, mid);
      assert PairsFrom(kb, i, j, r) == r';
      PairsFromInferred(kb, i, j + 1, mid);
      ConsiderInferred(kb, i, j, r);
      forall k | |r.inferred| <= k < |r'.inferred|
        ensures Inferred(kb, r'.inferred[k])
      {
        if k < |mid.inferred| {
          assert r'.inferred[k] == r'.inferred[..|mid.inferred|][k] == mid.inferred[k];
        }
      }
    }
  }

  lemma ConsiderInferred(kb: seq<Sentence>, i: nat, j: nat, r: Round)
    requires i < |kb| && j < |kb|
    ensures var r' := Consider(kb, i, j, r);
            && |r.inferred| <= |r'.inferred| && r'.inferred[..|r.inferred|] == r.inferred
            && forall k :: |r.inferred| <= k < |r'.inferred| ==> Inferred(kb, r'.inferred[k])
  {
    var s, s2 := kb[i], kb[j];
    if |s.cells| == 0 || |s2.cells| == 0 || s2 == s {
    } else if s2.cells < s.cells {
      var d := Sentences.Difference(s, s2);
      assert d.cells != {} by {
        var c :| c in s.cells && c !in s2.cells;
        assert c in d.cells;
      }
      assert Derives(kb[i], kb[j]);
    } else if s.cells < s2.cells {
      var d := Sentences.Difference(s2, s);
      assert d.cells != {} by {
        var c :| c in s2.cells && c !in s.cells;
        assert c in d.cells;
      }
      assert Derives(kb[j], kb[i]);
    }
  }

  /** The facts a round holds about the mine field. */
  ghost predicate RoundSound(r: Round, field: set<Cell>) {
    && r.mines <= field
    && r.safes !! field
    && forall k :: 0 <= k < |r.inferred| ==> Sentences.Holds(r.inferred[k], field)
  }

  /** From true sentences, the round only gathers true facts and true sentences. */
  lemma {:induction false} PairsFromSound(kb: seq<Sentence>, i: nat, j: nat, r: Round, field: set<Cell>)
    requires i <= |kb| && j <= |kb|
    requires forall k :: 0 <= k < |kb| ==> Sentences.Holds(kb[k], field)
    requires RoundSound(r, field)
    ensures RoundSound(PairsFrom(kb, i, j, r), field)
    decreases |kb| - i, |kb| - j
  {
    if i == |kb| {
    } else if j == |kb| {
      PairsFromSound(kb, i + 1, 0, r, field);
    } else {
      ConsiderSound(kb, i, j, r, field);
      PairsFromSound(kb, i, j + 1, Consider(kb, i, j, r), field);
    }
  }

  lemma ConsiderSound(kb: seq<Sentence>, i: nat, j: nat, r: Round, field: set<Cell>)
    requires i < |kb| && j < |kb|
    requires Sentences.Holds(kb[i], field) && Sentences.Holds(kb[j], field)
    requires RoundSound(r, field)
    ensures RoundSound(Consider(kb, i, j, r), field)
  {
    var s, s2 := kb[i], kb[j];
    if |s.cells| == 0 || |s2.cells| == 0 || s2 == s {
    } else if s2.cells < s.cells {
      Sentences.DifferenceSound(s, s2, field);
      LearnSound(kb, Sentences.Difference(s, s2), r, field);
    } else if s.cells < s2.cells {
      Sentences.DifferenceSound(s2, s, field);
      LearnSound(kb, Sentences.Difference(s2, s), r, field);
    }
  }

  lemma LearnSound(kb: seq<Sentence>, d: Sentence, r: Round, field: set<Cell>)
    requires Sentences.Holds(d, field) && RoundSound(r, field)
    ensures RoundSound(Learn(kb, d, r), field)
  {
    Sentences.KnownSafesSound(d, field);
    Sentences.KnownMinesSound(d, field);
    var r' := Learn(kb, d, r);
    forall k | 0 <= k < |r'.inferred|
      ensures Sentences.Holds(r'.inferred[k], field)
    {
      if k < |r.inferred| {
        assert r'.inferred[k] == r.inferred[k];
      }
    }
  }

  /** Step 5 of `add_knowledge`: run the round over the current knowledge and apply its findings. */
  function InferRound(ai: AI): (r: AI)
    ensures r == ai.(mines := r.mines, safes := r.safes, knowledge := r.knowledge)
    ensures ai.mines <= r.mines && ai.safes <= r.safes
    ensures |ai.knowledge| <= |r.knowledge| && r.knowledge[..|ai.knowledge|] == ai.knowledge
  {
    var round := PairsFrom(ai.knowledge, 0, 0, Round(ai.safes, ai.mines, []));
    ai.(safes := round.safes, mines := round.mines, knowledge := ai.knowledge + round.inferred)
  }

  /**
   * The sentences the round appends: each is the difference of two non-empty, unequal
   * sentences of the knowledge whose cell sets are strictly nested, is non-empty, and
   * was not already in the knowledge.
   */
  lemma InferRoundAppendsDerived(ai: AI)
    ensures var r := InferRound(ai);
            forall k :: |ai.knowledge| <= k < |r.knowledge| ==> Inferred(ai.knowledge, r.knowledge[k])
  {
    var round := PairsFrom(ai.knowledge, 0, 0, Round(ai.safes, ai.mines, []));
    PairsFromInferred(ai.knowledge, 0, 0, Round(ai.safes, ai.mines, []));
    assert forall k :: 0 <= k < |round.inferred| ==> Inferred(ai.knowledge, round.inferred[k]);
    var r := InferRound(ai);
    assert r.knowledge == ai.knowledge + round.inferred;
    forall k | |ai.knowledge| <= k < |r.knowledge|
      ensures Inferred(ai.knowledge, r.knowledge[k])
    {
      assert r.knowledge[k] == round.inferred[k - |ai.knowledge|];
    }
  }

  /**
   * A pair `(kb[p], kb[q])` still ahead of the loop is learned: its difference is
   * queued unless the knowledge already has it, and its cells reach the safe cells or
   * the mines when its count forces them.
   */
  lemma {:induction false} PairsFromLearnsPair(kb: seq<Sentence>, i: nat, j: nat, r: Round, p: nat, q: nat)
    requires i <= |kb| && j <= |kb| && p < |kb| && q < |kb|
    requires Derives(kb[p], kb[q])
    requires i < p || (i == p && j <= q)
    ensures Learned(kb, Sentences.Difference(kb[p], kb[q]), r, PairsFrom(kb, i, j, r))
    decreases |kb| - i, |kb| - j
  {
    var d := Sentences.Difference(kb[p], kb[q]);
    if j == |kb| {
      assert PairsFrom(kb, i, j, r) == PairsFrom(kb, i + 1, 0, r);
      PairsFromLearnsPair(kb, i + 1, 0, r, p, q);
    } else {
      var mid := Consider(kb, i, j, r);
      var after := PairsFrom(kb, i, j + 1, mid);
      assert PairsFrom(kb, i, j, r) == after;
      ConsiderInferred(kb, i, j, r);
      if i == p && j == q {
        assert mid == Learn(kb, d, r);
        LearnedAtPair(kb, d, r, after);
      } else {
        PairsFromLearnsPair(kb, i, j + 1, mid, p, q);
        LearnedLater(kb, d, r, mid, after);
      }
    }
  }

  /** What learning `d` leaves in the round `after`, begun from `r`. */
  predicate Learned(kb: seq<Sentence>, d: Sentence, r: Round, after: Round) {
    && (d !in kb ==> |r.inferred| <= |after.inferred| && d in after.inferred[|r.inferred|..])
    && (d.count == 0 ==> d.cells <= after.safes)
    && (d.count != 0 && d.count == |d.cells| ==> d.cells <= after.mines)
  }

  /** Learning `d` now is not undone by the rest of the round. */
  lemma LearnedAtPair(kb: seq<Sentence>, d: Sentence, r: Round, after: Round)
    requires Learn(kb, d, r).safes <= after.safes && Learn(kb, d, r).mines <= after.mines
    requires |Learn(kb, d, r).inferred| <= |after.inferred|
    requires after.inferred[..|Learn(kb, d, r).inferred|] == Learn(kb, d, r).inferred
    ensures Learned(kb, d, r, after)
  {
    var mid := Learn(kb, d, r);
    if d !in kb {
      assert mid.inferred == r.inferred + [d];
      assert after.inferred[|r.inferred|] == mid.inferred[|r.inferred|] == d;
      assert after.inferred[|r.inferred|..][0] == d;
    }
  }

  /** What a later stretch of the round learned from `mid` is learned from the earlier `r`. */
  lemma LearnedLater(kb: seq<Sentence>, d: Sentence, r: Round, mid: Round, after: Round)
    requires |r.inferred| <= |mid.inferred| && mid.inferred[..|r.inferred|] == r.inferred
    requires Learned(kb, d, mid, after)
    ensures Learned(kb, d, r, after)
  {
    if d !in kb {
      var k :| 0 <= k < |after.inferred[|mid.inferred|..]| && after.inferred[|mid.inferred|..][k] == d;
      assert after.inferred[|r.inferred|..][k + |mid.inferred| - |r.inferred|] == d;
    }
  }

  /**
   * The round learns from every pair it can: for two non-empty, unequal sentences of
   * the knowledge with strictly nested cells, their difference is appended unless the
   * knowledge already has it, a difference with count 0 makes all its cells safe, and
   * one whose count equals its (non-zero) size makes all its cells mines.
   */
  lemma InferRoundLearnsEveryPair(ai: AI, p: nat, q: nat)
    requires p < |ai.knowledge| && q < |ai.knowledge|
    requires Derives(ai.knowledge[p], ai.knowledge[q])
    ensures var d := Sentences.Difference(ai.knowledge[p], ai.knowledge[q]);
            d !in ai.knowledge ==> d in InferRound(ai).knowledge[|ai.knowledge|..]
    ensures var d := Sentences.Difference(ai.knowledge[p], ai.knowledge[q]);
            d.count == 0 ==> d.cells <= InferRound(ai).safes
    ensures var d := Sentences.Difference(ai.knowledge[p], ai.knowledge[q]);
            d.count != 0 && d.count == |d.cells| ==> d.cells <= InferRound(ai).mines
  {
    var start := Round(ai.safes, ai.mines, []);
    PairsFromLearnsPair(ai.knowledge, 0, 0, start, p, q);
    var round := PairsFrom(ai.knowledge, 0, 0, start);
    assert InferRound(ai).knowledge[|ai.knowledge|..] == round.inferred;
    assert round.inferred[|start.inferred|..] == round.inferred;
  }

  /** The round keeps a sound agent sound. */
  lemma InferRoundSound(ai: AI, field: set<Cell>)
    requires Sound(ai, field)
    ensures Sound(InferRound(ai), field)
  {
    var start := Round(ai.safes, ai.mines, []);
    PairsFromSound(ai.knowledge, 0, 0, start, field);
    var round := PairsFrom(ai.knowledge, 0, 0, start);
    var r := InferRound(ai);
    forall k | 0 <= k < |r.knowledge|
      ensures Sentences.Holds(r.knowledge[k], field)
    {
      if k >= |ai.knowledge| {
        assert r.knowledge[k] == round.inferred[k - |ai.knowledge|];
      }
    }
  }

  // ------------------------------------------------------------ add_knowledge

  /**
   * `add_knowledge`: the board reports that the clicked safe `cell` has `count` mines
   * around it. The agent records the move, adds the sentence, makes one resolution
   * pass and one subset round.
   */
  function AddKnowledge(ai: AI, cell: Cell, count: int): (r: AI)
    ensures r.height == ai.height && r.width == ai.width
    ensures r.movesMade == ai.movesMade + {cell}
    ensures cell in r.safes
    ensures ai.safes <= r.safes && ai.mines <= r.mines
    ensures |r.knowledge| >= |ai.knowledge| + 1
  {
    InferRound(Resolve(Observe(ai, cell, count)))
  }

  /** One resolution pass keeps a sound agent sound. */
  lemma ResolveSound(ai: AI, field: set<Cell>)
    requires Sound(ai, field)
    ensures Sound(Resolve(ai), field)
  {
    ResolveUpToSound(ai, |ai.knowledge|, field);
  }

  /**
   * Soundness of the agent: told the true neighbour count of a safe cell on the
   * board, a sound agent stays sound. So it never flags a safe cell as a mine, never
   * believes a mine is safe, and never holds a false sentence.
   */
  lemma AddKnowledgeSound(ai: AI, g: Minesweeper, cell: Cell, count: int)
    requires Valid(g) && ai.height == g.height && ai.width == g.width
    requires Sound(ai, g.mines)
    requires cell !in g.mines
    requires count == |MinesAround(g, cell)|
    ensures Sound(AddKnowledge(ai, cell, count), g.mines)
    ensures AddKnowledge(ai, cell, count).mines !! AddKnowledge(ai, cell, count).safes
  {
    var field := g.mines;
    ObserveSound(ai, cell, count, field);
    var observed := Observe(ai, cell, count);
    ResolveSound(observed, field);
    InferRoundSound(Resolve(observed), field);
  }

  /** Every sentence of a sound agent counts between zero and its number of cells. */
  lemma SoundCountsInRange(ai: AI, field: set<Cell>, k: nat)
    requires Sound(ai, field) && k < |ai.knowledge|
    ensures 0 <= ai.knowledge[k].count <= |ai.knowledge[k].cells|
  {
    Sentences.HoldsBounds(ai.knowledge[k], field);
  }

  // -------------------------------------------------------------------- moves

  /** `make_safe_move`: some safe cell not yet clicked, if there is one. */
  method MakeSafeMove(ai: AI) returns (move: Option<Cell>)
    ensures move.Some? ==> move.value in ai.safes && move.value !in ai.movesMade
    ensures move.None? <==> ai.safes <= ai.movesMade
  {
    if c :| c in ai.safes && c !in ai.movesMade {
      move := Some(c);
    } else {
      move := None;
    }
  }

  /** A cell `make_random_move` may pick: on the board, not a known mine, not clicked. */
  predicate Pickable(ai: AI, c: Cell) {
    InBounds(ai.height, ai.width, c) && c !in ai.mines && c !in ai.movesMade
  }

  /**
   * `make_random_move`: builds the list of pickable cells row by row and picks one
   * of them; which one is left open.
   */
  method MakeRandomMove(ai: AI) returns (move: Option<Cell>)
    ensures move.Some? ==> Pickable(ai, move.value)
    ensures move.None? <==> forall c :: InBounds(ai.height, ai.width, c) ==> c in ai.mines || c in ai.movesMade
  {
    var candidates: seq<Cell> := [];
    var i := 0;
    while i < ai.height
      invariant i <= ai.height || ai.height < 0
      invariant forall c :: c in candidates <==> Pickable(ai, c) && c.0 < i
    {
      var j := 0;
      while j < ai.width
        invariant j <= ai.width || ai.width < 0
        invariant forall c :: c in candidates <==> Pickable(ai, c) && (c.0 < i || (c.0 == i && c.1 < j))
      {
        if (i, j) !in ai.mines && (i, j) !in ai.movesMade {
          candidates := candidates + [(i, j)];
        }
        j := j + 1;
      }
      i := i + 1;
    }
    if |candidates| == 0 {
      move := None;
    } else {
      var k :| 0 <= k < |candidates|;
      move := Some(candidates[k]);
      assert candidates[k] in candidates;
    }
  }

  // ---------------------------------------------------------------- scenarios

  /**
   * The first click of a game, with every neighbour on the board, yields a sentence
   * about all eight neighbours with the count as observed.
   */
  lemma FirstObservation(ai: AI, cell: Cell, count: int)
    requires ai.mines == {} && ai.safes == {} && ai.movesMade == {}
    requires forall c :: c in Neighbours(cell) ==> InBounds(ai.height, ai.width, c)
    ensures Observe(ai, cell, count).knowledge[|ai.knowledge|] == Sentences.Sentence(Neighbours(cell), count)
  {
    var observed := Observe(ai, cell, count);
    var s := observed.knowledge[|ai.knowledge|];
    forall c | c in Neighbours(cell)
      ensures c in s.cells
    {
      assert Unknown(observed, c);
    }
    assert Neighbours(cell) * ai.mines == {};
  }

  /** The sentence learned from clicking the centre of an empty 3x3 board names all eight neighbours. */
  lemma CentreSentence(count: int)
    ensures Observe(Start(3, 3), (1, 1), count).knowledge[0] == Sentences.Sentence(Neighbours((1, 1)), count)
  {
    var near := Neighbours((1, 1));
    forall c | c in near
      ensures InBounds(3, 3, c)
    {
      assert 0 <= c.0 < 3 && 0 <= c.1 < 3;
    }
    FirstObservation(Start(3, 3), (1, 1), count);
  }

  /** Clicking the centre of an empty 3x3 board and seeing no mines makes all eight neighbours safe. */
  lemma ZeroCountMarksNeighboursSafe()
    ensures Neighbours((1, 1)) <= AddKnowledge(Start(3, 3), (1, 1), 0).safes
  {
    var observed := Observe(Start(3, 3), (1, 1), 0);
    CentreSentence(0);
    assert ResolveUpTo(observed, 0) == observed;
    ResolveClears(observed, 0);
  }

  /**
   * From `{A, B, C} = 1` and `{A, B} = 1` the round learns `{C} = 0` and that `C` is
   * safe; both ordered pairs derive it, so the sentence is appended twice.
   */
  lemma SubsetRoundLearnsSafeCell(ai: AI)
    requires ai.knowledge == [Sentences.Sentence({(0, 0), (0, 1), (0, 2)}, 1), Sentences.Sentence({(0, 0), (0, 1)}, 1)]
    ensures (0, 2) in InferRound(ai).safes
    ensures InferRound(ai).knowledge == ai.knowledge + [Sentences.Sentence({(0, 2)}, 0), Sentences.Sentence({(0, 2)}, 0)]
  {
    var kb := ai.knowledge;
    var big, small := kb[0], kb[1];
    var d := Sentences.Sentence({(0, 2)}, 0);
    assert small.cells < big.cells;
    assert big.cells - small.cells == {(0, 2)};
    assert Sentences.Difference(big, small) == d;
    assert d !in kb;
    var r0 := Round(ai.safes, ai.mines, []);
    var r1 := Consider(kb, 0, 0, r0);
    assert r1 == r0;
    var r2 := Consider(kb, 0, 1, r1);
    assert r2 == Round(ai.safes + {(0, 2)}, ai.mines, [d]);
    var r3 := Consider(kb, 1, 0, r2);
    assert r3 == Round(ai.safes + {(0, 2)}, ai.mines, [d, d]);
    var r4 := Consider(kb, 1, 1, r3);
    assert r4 == r3;
    assert PairsFrom(kb, 2, 0, r4) == r4;
    assert PairsFrom(kb, 1, 2, r4) == r4;
    assert PairsFrom(kb, 1, 1, r3) == r4;
    assert PairsFrom(kb, 1, 0, r2) == r4;
    assert PairsFrom(kb, 0, 2, r2) == r4;
    assert PairsFrom(kb, 0, 1, r1) == r4;
    assert PairsFrom(kb, 0, 0, r0) == r4;
  }
}
