# Minesweeper knowledge base and tic-tac-toe minimax, in Dafny

This project models three small game-playing programs and proves properties of them.

- **Minesweeper agent** (`1/minesweeper/minesweeper.py`):
  - The board answers "how many mines are around this cell" (`nearby_mines`).
  - The agent keeps `Sentence`s ("exactly `count` of these `cells` are mines") and the sets `moves_made`, `mines` and `safes`.
  - `add_knowledge` adds a sentence for each clicked cell. It then makes one resolution pass over the knowledge and one subset-difference round over every ordered pair of sentences.
  - `make_safe_move` and `make_random_move` pick the next click.
- **Plain tic-tac-toe** (`0/tictactoe/tictactoe.py`): `player`, `actions`, `result`, `winner`, `terminal`, `utility`, and an unpruned `max_value` / `min_value` / `minimax`.
- **Alpha-beta tic-tac-toe** (`0/tictactoe/tictactoe_ab.py`): the same game with a `result` that does fewer checks, and a pruned search with window `(a, b)`.

Files and modules:

| file | module | contents |
|---|---|---|
| `wrappers.dfy` | `Wrappers` | `Option` and `Result` (a value or an error) |
| `minesweeper_game.dfy` | `Game` | the board, `IsMine`, `NearbyMines`, `Won` |
| `minesweeper_sentence.dfy` | `Sentences` | a sentence, what it means (`Holds`), its four operations, the subset rule |
| `minesweeper_agent.dfy` | `Agent` | the agent state, marking, the three phases of `add_knowledge`, the moves, soundness |
| `tictactoe.dfy` | `TicTacToe` | the board, moves, winner and the unpruned search |
| `tictactoe_ab.dfy` | `TicTacToeAB` | the alpha-beta `result` and pruned search, and their relation to the unpruned ones |

Modelling choices:

- **Pure values.** Every Python mutation becomes a function returning a new value. The agent's `knowledge` is a `seq<Sentence>`, updated by mapping a sentence operation over it.
- **Truth of a sentence.** A sentence is true of a mine field `F` (a set of cells) when `|cells ∩ F| == count`; this is the ghost predicate `Sentences.Holds`.
- **Soundness.** The main theorem, `Agent.AddKnowledgeSound`, says that if the agent is told the true neighbour count of a clicked safe cell, it keeps holding only true beliefs.
- **Set order.** Python's set iteration order is never relied on:
  - The resolution pass marks the cells of a sentence one by one in set order. `MarkSafeEachIsBatch` and `MarkMineEachIsBatch` prove that every order gives the same result as marking the whole set at once, so the pass is modelled with the set version.
  - Both searches loop over `actions(board)`, a set built afresh for each board, so the order is some function of the board. The searches take that function as a parameter, `TicTacToe.MoveOrder`: any function listing exactly a board's EMPTY squares. Every search property is proved for every such order. The reference value of a move, `MinAfter` or `MaxAfter`, is the plain search in row-major order (`TicTacToe.RowMajor`).
  - The plain search's values do not depend on the order (`TicTacToe.ValueIndependentOfOrder`).
  - The pruned search's values do depend on the order inside a narrower window (`TicTacToeAB.PrunedValueDependsOnOrder`). Only its values at the root window (-100, 100), the ones `minimax` uses, are the same for every order (`TicTacToeAB.RootValueIndependentOfOrder`).
- **One pass each.** The resolution pass and the subset round are each run once per `add_knowledge`, as in the code. There is no fixed-point loop (see "Left out").
- **Python list indexing.** The index `-3..-1` wraps around in `result`; this is modelled by `TicTacToe.PyIndex`.

## Model

| member | source | states |
|---|---|---|
| Game.IsMine | 1/minesweeper/minesweeper.py:67-69 | a square on the board is reported as a mine exactly when it is in the board's mine field |
| Game.NearbyMines | 1/minesweeper/minesweeper.py:71-94 | the count equals the number of on-board mines among the eight squares around the cell (the cell itself excluded), so it lies between 0 and 8 |
| Game.NeighbourListDistinct | 1/minesweeper/minesweeper.py:224-233 | the eight neighbour positions listed in `add_knowledge` are pairwise distinct, so they are eight different squares |
| Game.WonIffFlagsAreMines | 1/minesweeper/minesweeper.py:96-100 | `Game.Won` models `won`: for a game whose mine set matches its board, it holds exactly when the flagged squares are exactly the board's mines |
| Sentences.HoldsBounds | 1/minesweeper/minesweeper.py:103-112 | a sentence that is true of some mine field has `0 <= count <= |cells|` |
| Sentences.KnownMines | 1/minesweeper/minesweeper.py:120-127 | `known_mines` reports either all of the sentence's cells or none; it reports some exactly when the sentence has cells and its count equals their number (what this means for the mine field is `KnownMinesSound`) |
| Sentences.KnownSafes | 1/minesweeper/minesweeper.py:129-135 | `known_safes` reports either all of the sentence's cells or none; it reports some exactly when the sentence has cells and its count is 0 (what this means for the mine field is `KnownSafesSound`) |
| Sentences.KnownMinesSound | 1/minesweeper/minesweeper.py:120-127 | the cells `known_mines` reports are mines in every field where the sentence holds; when every cell is a mine and there is at least one cell, it reports all of them |
| Sentences.KnownSafesSound | 1/minesweeper/minesweeper.py:129-135 | the cells `known_safes` reports are safe in every field where the sentence holds; when no cell is a mine and there is at least one cell, it reports all of them |
| Sentences.MarkMine | 1/minesweeper/minesweeper.py:138-145 | the cell leaves the sentence; the count drops by one if the cell was in it; otherwise nothing changes |
| Sentences.MarkSafe | 1/minesweeper/minesweeper.py:148-154 | the cell leaves the sentence and the count is unchanged |
| Sentences.MarkMineKeepsTruth | 1/minesweeper/minesweeper.py:138-145 | if the cell is a mine of the field, the sentence after `mark_mine` is true of the field exactly when it was before |
| Sentences.MarkSafeKeepsTruth | 1/minesweeper/minesweeper.py:148-154 | if the cell is not a mine of the field, the sentence after `mark_safe` is true of the field exactly when it was before |
| Sentences.MarkIdempotent | 1/minesweeper/minesweeper.py:138-154 | marking the same cell twice gives the same sentence as marking it once |
| Sentences.MarkMinesKeepsTruth | 1/minesweeper/minesweeper.py:286-288 | marking a whole set of true mines, as the resolution pass does, keeps the sentence's truth value in both directions |
| Sentences.MarkSafesKeepsTruth | 1/minesweeper/minesweeper.py:283-285 | marking a whole set of truly safe cells keeps the sentence's truth value in both directions |
| Sentences.MarkMineThenMines | 1/minesweeper/minesweeper.py:138-145 | marking one mine and then a set of mines equals marking their union at once |
| Sentences.DifferenceSound | 1/minesweeper/minesweeper.py:305-307 | when `t`'s cells are among `s`'s and both sentences hold in a field, `(s.cells - t.cells, s.count - t.count)` holds in that field too |
| Agent.MarkMine | 1/minesweeper/minesweeper.py:178-185 | the cell joins `mines`, each sentence becomes its `mark_mine`, and no other field of the agent changes |
| Agent.MarkSafe | 1/minesweeper/minesweeper.py:187-194 | the cell joins `safes`, each sentence becomes its `mark_safe`, and no other field of the agent changes |
| Agent.MarkRemovesCell | 1/minesweeper/minesweeper.py:178-194 | afterwards no sentence contains the cell, and marking it a second time gives the same agent |
| Agent.MarkMineSound | 1/minesweeper/minesweeper.py:178-185 | marking a true mine keeps a sound agent sound |
| Agent.MarkSafeSound | 1/minesweeper/minesweeper.py:187-194 | marking a truly safe cell keeps a sound agent sound |
| Agent.MarkMineEachIsBatch | 1/minesweeper/minesweeper.py:286-288 | marking the cells of a list one by one as mines equals marking the set of them at once, whatever the list order |
| Agent.MarkSafeEachIsBatch | 1/minesweeper/minesweeper.py:283-285 | marking the cells of a list one by one as safe equals marking the set of them at once, whatever the list order |
| Agent.MarkMinesSound | 1/minesweeper/minesweeper.py:286-288 | marking a set of true mines keeps a sound agent sound |
| Agent.MarkSafesSound | 1/minesweeper/minesweeper.py:283-285 | marking a set of truly safe cells keeps a sound agent sound |
| Agent.StartSound | 1/minesweeper/minesweeper.py:162-175 | `Agent.Start` models the constructor: the freshly constructed agent is sound for every mine field |
| Agent.CollectSpec | 1/minesweeper/minesweeper.py:224-244 | `Agent.Collect` models the neighbour loop: over a list without repeats, it keeps exactly the on-board cells not in `mines`, `safes` or `moves_made`, and lowers the count by the number of listed cells in `mines` |
| Agent.Observe | 1/minesweeper/minesweeper.py:212-251 | the cell joins `moves_made` and `safes`; `mines` is unchanged; older sentences lose the cell; the appended sentence names exactly the on-board neighbours that are unknown, with count `count` minus the neighbours already in `mines` |
| Agent.ObserveSound | 1/minesweeper/minesweeper.py:212-251 | for a clicked cell that is not a mine and its true neighbour count, the appended sentence is true and the agent stays sound |
| Agent.ResolveGrows | 1/minesweeper/minesweeper.py:282-288 | as the pass goes on, `mines` and `safes` only grow and each sentence only loses cells |
| Agent.ResolveClears | 1/minesweeper/minesweeper.py:282-288 | a sentence with count 0 when the pass reaches it has all its cells in `safes` at the end and no cells left; one with count equal to its size (and nonzero) has all its cells in `mines` and no cells left |
| Agent.Resolve | 1/minesweeper/minesweeper.py:282-288 | the pass changes only `mines`, `safes` and the sentences; it keeps the number of sentences and only adds to `mines` and `safes` (what it adds is `ResolveClears`; that it is right is `ResolveSound`) |
| Agent.ResolveStepSound | 1/minesweeper/minesweeper.py:282-288 | one iteration of the pass keeps a sound agent sound |
| Agent.ResolveUpToSound | 1/minesweeper/minesweeper.py:282-288 | the agent is sound at every point of the pass |
| Agent.ResolveSound | 1/minesweeper/minesweeper.py:282-288 | the whole pass keeps a sound agent sound |
| Agent.Learn | 1/minesweeper/minesweeper.py:310-318 | a derived sentence is queued only when it is not already in the knowledge; its cells join the safe cells when its count is 0, or the mines when its count equals its size and is nonzero |
| Agent.ConsiderInferred | 1/minesweeper/minesweeper.py:295-332 | handling one ordered pair keeps everything queued so far and queues only sentences that the subset rule derives from two non-empty, unequal sentences of the knowledge with strictly nested cells; a queued sentence is non-empty and not already in the knowledge |
| Agent.PairsFromInferred | 1/minesweeper/minesweeper.py:294-334 | over all remaining ordered pairs, every sentence the round queues has that form |
| Agent.InferRoundAppendsDerived | 1/minesweeper/minesweeper.py:294-334 | every sentence the round appends to the knowledge has that form; the knowledge before the round is kept as a prefix |
| Agent.InferRound | 1/minesweeper/minesweeper.py:294-334 | the round changes only `mines`, `safes` and the knowledge; it only adds to `mines` and `safes`, and the knowledge before the round stays as a prefix (what it appends and learns is `InferRoundAppendsDerived` and `InferRoundLearnsEveryPair`) |
| Agent.InferRoundLearnsEveryPair | 1/minesweeper/minesweeper.py:294-334 | the converse of `InferRoundAppendsDerived`: for every two non-empty, unequal sentences of the knowledge with strictly nested cells, the round appends their difference unless the knowledge already has it. A difference with count 0 puts all its cells in `safes`, and one whose count equals its non-zero size puts all its cells in `mines` |
| Agent.PairsFromSound | 1/minesweeper/minesweeper.py:294-334 | from true sentences, the round gathers only true sentences, true mines and truly safe cells |
| Agent.ConsiderSound | 1/minesweeper/minesweeper.py:305-332 | handling one pair of true sentences queues only true sentences and gathers only true mines and truly safe cells |
| Agent.LearnSound | 1/minesweeper/minesweeper.py:310-318 | queueing a true sentence, and taking its cells as safe or as mines, keeps the gathered facts true |
| Agent.InferRoundSound | 1/minesweeper/minesweeper.py:294-334 | the round keeps a sound agent sound |
| Agent.AddKnowledge | 1/minesweeper/minesweeper.py:197-334 | afterwards the cell is in both `moves_made` and `safes`; `moves_made` gains exactly that cell; `mines` and `safes` only grow; at least one sentence is added |
| Agent.AddKnowledgeSound | 1/minesweeper/minesweeper.py:197-334 | when told the true count of a clicked cell that is not a mine, a sound agent stays sound, so its `mines` and `safes` stay disjoint |
| Agent.SoundMinesAndSafesDisjoint | 1/minesweeper/minesweeper.py:165-172 | a sound agent never has a cell in both `mines` and `safes`, nor a clicked cell in `mines` |
| Agent.SoundCountsInRange | 1/minesweeper/minesweeper.py:175 | every sentence of a sound agent has `0 <= count <= |cells|` |
| Agent.FirstObservation | 1/minesweeper/minesweeper.py:212-251 | for an agent that knows nothing, clicking a cell whose eight neighbours are all on the board appends exactly the sentence "these eight neighbours hold `count` mines" |
| Agent.ZeroCountMarksNeighboursSafe | 1/minesweeper/minesweeper.py:212-288 | clicking the centre of an empty 3x3 board and being told 0 puts all eight neighbours in `safes` |
| Agent.SubsetRoundLearnsSafeCell | 1/minesweeper/minesweeper.py:294-334 | from `{A,B,C} = 1` and `{A,B} = 1`, the round makes `C` safe and appends `{C} = 0` twice, once for each ordered pair |
| Agent.MakeSafeMove | 1/minesweeper/minesweeper.py:397-412 | the move is a safe cell not yet clicked, and there is no move exactly when every safe cell has been clicked |
| Agent.MakeRandomMove | 1/minesweeper/minesweeper.py:414-424 | the move is an on-board cell that is neither a known mine nor already clicked, and there is no move exactly when no such cell exists |
| TicTacToe.Player | 0/tictactoe/tictactoe.py:21-26 | the player to move is never EMPTY; by definition it is X after an even number of marks and O after an odd number |
| TicTacToe.PlayerParity | 0/tictactoe/tictactoe.py:21-26 | X is to move exactly when an odd number of squares is still EMPTY, and O exactly when an even number is, because marks and EMPTY squares add up to nine |
| TicTacToe.Actions | 0/tictactoe/tictactoe.py:29-33 | the available moves are exactly the on-grid squares that are EMPTY |
| TicTacToe.PlaceOnEmpty | 0/tictactoe/tictactoe.py:29-33 | marking an EMPTY square removes exactly that square from the available moves and adds one to the number of marks |
| TicTacToe.PlayerAlternates | 0/tictactoe/tictactoe.py:21-26 | after any available move the other player is to move, and the move set loses exactly the square played |
| TicTacToe.Result | 0/tictactoe/tictactoe.py:36-59 | the move fails as a negative index exactly when one coordinate is negative and the other positive; otherwise it fails as out of range exactly when a coordinate is outside -3..2; an on-grid move succeeds exactly on an EMPTY square and then marks that square for the player to move; any other move that passes both tests addresses the square `((i + 3) % 3, (j + 3) % 3)`, and succeeds and marks it exactly when it is EMPTY, failing as occupied otherwise |
| TicTacToe.ResultStrict | 0/tictactoe/tictactoe.py:36-59 | the corrected `result` succeeds exactly on the available moves and marks that square for the player to move; on an on-grid square it fails only because the square is occupied |
| TicTacToe.ResultAcceptsNegativeIndex | 0/tictactoe/tictactoe.py:46-47 | the as-written check lets the actions `(0, -1)` and `(-1, -1)` mark squares `(0, 2)` and `(2, 2)`; the corrected check refuses both |
| TicTacToe.ResultAgreesOnActions | 0/tictactoe/tictactoe.py:36-59 | on every available move, the as-written and the corrected `result` both return the successor board |
| TicTacToe.Succ | 0/tictactoe/tictactoe.py:36-59 | a move leaves one fewer EMPTY square, which is what makes the search terminate |
| TicTacToe.Winner | 0/tictactoe/tictactoe.py:62-87 | a reported winner is never EMPTY and is the opposite of the player to move |
| TicTacToe.WinnerIffThreeInARow | 0/tictactoe/tictactoe.py:62-87 | the eight listed lines are exactly the rows, columns and diagonals: a winner is reported exactly when some mark fills one of them |
| TicTacToe.WinnerIsLastMover | 0/tictactoe/tictactoe.py:84-86 | after a move on a board with no winner, any reported winner is the player who just moved, and that player has three in a row |
| TicTacToe.TerminalIffWonOrFull | 0/tictactoe/tictactoe.py:90-105 | `TicTacToe.Terminal` models `terminal`: the game is over exactly when a winner is reported or no move is available |
| TicTacToe.Utility | 0/tictactoe/tictactoe.py:108-115 | the utility is 1 exactly when X is reported as winner, -1 exactly when O is, and 0 exactly when nobody is |
| TicTacToe.MaxValue | 0/tictactoe/tictactoe.py:118-127 | for every move order, the value is in -1..1; a finished game gives its utility and no move; otherwise the move returned is available |
| TicTacToe.MinValue | 0/tictactoe/tictactoe.py:130-139 | for every move order, the value is in -1..1; a finished game gives its utility and no move; otherwise the move returned is available |
| TicTacToe.MaxLoopIsMaximum | 0/tictactoe/tictactoe.py:121-126 | the loop of `max_value`, in any move order, returns an upper bound of every move's `min_value`, attained by the move it returns when it beats the start value |
| TicTacToe.MinLoopIsMinimum | 0/tictactoe/tictactoe.py:133-138 | the loop of `min_value`, in any move order, returns a lower bound of every move's `max_value`, attained by the move it returns when it is below the start value |
| TicTacToe.MaxValueIsMaximum | 0/tictactoe/tictactoe.py:118-127 | on an unfinished game and for every move order, `max_value` is the maximum of `min_value` over all available moves, and the move returned attains it |
| TicTacToe.MinValueIsMinimum | 0/tictactoe/tictactoe.py:130-139 | on an unfinished game and for every move order, `min_value` is the minimum of `max_value` over all available moves, and the move returned attains it |
| TicTacToe.ValueIndependentOfOrder | 0/tictactoe/tictactoe.py:118-139 | any two move orders give the same `max_value` and the same `min_value` on every board |
| TicTacToe.Minimax | 0/tictactoe/tictactoe.py:142-153 | for every move order: no move exactly on finished games; otherwise an available move whose successor value is the best over all moves for the player to move |
| TicTacToeAB.Result | 0/tictactoe/tictactoe_ab.py:44-63 | the move succeeds exactly when both coordinates are in -3..2; any failure is an index error; on the grid it marks the square for the player to move |
| TicTacToeAB.ResultOverwritesOccupied | 0/tictactoe/tictactoe_ab.py:53-56 | on an occupied square this `result` still succeeds and overwrites the mark, where the plain one refuses |
| TicTacToeAB.ResultAgreesOnActions | 0/tictactoe/tictactoe_ab.py:44-63 | on every available move, this `result` and the plain one both return the successor board |
| TicTacToeAB.MaxValue | 0/tictactoe/tictactoe_ab.py:122-135 | for every move order and window, the value is in -1..1; a finished game gives its utility and no move; otherwise the move returned is available |
| TicTacToeAB.MinValue | 0/tictactoe/tictactoe_ab.py:138-151 | for every move order and window, the value is in -1..1; a finished game gives its utility and no move; otherwise the move returned is available |
| TicTacToeAB.MaxLoop | 0/tictactoe/tictactoe_ab.py:126-135 | the loop examines at least one and at most all moves; when it stops before the last move with `a < b`, its value is at least `b` |
| TicTacToeAB.MinLoop | 0/tictactoe/tictactoe_ab.py:142-151 | the loop examines at least one and at most all moves; when it stops before the last move with `a < b`, its value is at most `a` |
| TicTacToeAB.MaxValueFailSoft | 0/tictactoe/tictactoe_ab.py:122-135 | for every move order and every window with `-100 <= a < b <= 100`, the pruned `max_value` is exact inside the window, an upper bound of the true value at or below `a`, and a lower bound at or above `b`; inside the window its move attains it |
| TicTacToeAB.MinValueFailSoft | 0/tictactoe/tictactoe_ab.py:138-151 | the same fail-soft property for the pruned `min_value`, for every move order |
| TicTacToeAB.MaxLoopFailSoft | 0/tictactoe/tictactoe_ab.py:126-135 | for any list of available moves and a window with `v <= a < b`, the loop's result is an upper bound of the unpruned `min_value` of every move in the list when it is at or below `a`; at or above `b`, the move it returns has at least that value; inside the window it is both |
| TicTacToeAB.MinLoopFailSoft | 0/tictactoe/tictactoe_ab.py:142-151 | the mirror property for the `min_value` loop over the `max_value` of the moves |
| TicTacToeAB.AgreesWithMinimax | 0/tictactoe/tictactoe_ab.py:122-151 | for every move order, with the default window (-100, 100) the pruned values equal the unpruned `max_value` and `min_value` |
| TicTacToeAB.RootValueIndependentOfOrder | 0/tictactoe/tictactoe_ab.py:154-165 | the values `minimax` computes with the default window (-100, 100) are the same for any two move orders |
| TicTacToeAB.PrunedValueDependsOnOrder | 0/tictactoe/tictactoe_ab.py:138-151 | inside a narrower window the pruned value depends on the order: on one board with O to move and window (0, 100), trying (0, 0) first gives 0 and trying (2, 2) first gives -1 |
| TicTacToeAB.Minimax | 0/tictactoe/tictactoe_ab.py:154-165 | for every move order: no move exactly on finished games; otherwise an available move whose successor attains the unpruned value and is optimal for the player to move |

## Left out

- `Minesweeper.__init__` places mines at random. The board is a parameter here, and `Game.Valid` requires the mine set to match it.
- `Minesweeper.print`, `print_`, every debug `print`, and the `__main__` block of the alpha-beta file are output only.
- The code in triple-quoted strings is dead and not modelled. This includes an alternative `__init__` board and earlier versions of the inference steps.
- `Game.IsMine`: only squares on the board are modelled; Python's wrap-around for a negative index is not. The files modelled here never call `is_mine`; its callers are in the game loop, which is not part of this model.
- `Agent.MakeRandomMove`: chooses among the candidates nondeterministically. The uniform distribution of `random.choice` is not modelled.
- `Agent.MakeSafeMove`: chooses any safe cell that has not been clicked. Python returns the first one in its set order, which is not modelled.
- The Minesweeper knowledge is not closed under the rules. `add_knowledge` makes one resolution pass and one subset round, and the model does exactly that. Consequences:
  - cells the round adds to `safes` or `mines` stay in the sentences until a later call marks them, if one does;
  - a derived sentence can be appended twice in the same round (`Agent.SubsetRoundLearnsSafeCell` shows it).
- The alpha-beta fail-soft lemmas are proved for windows with `-100 <= a < b <= 100`. This covers every call the program makes:
  - the program starts at (-100, 100);
  - on each improvement a loop sets its bound to the running value, a number in -1..1 (`a = v` at `0/tictactoe/tictactoe_ab.py:132`, `b = v` at :148);
  - a loop searches another move only while `a < b` still holds.

  Unlike the textbook `a = max(a, v)`, the first improvement can move the bound outward and widen the window. For example, `max_value(G, 0, 1)` whose first move is worth -1 sets `a = -1` and searches its remaining moves with (-1, 1). The lemmas `MaxLoopFailSoft` and `MinLoopFailSoft` cover this case.
- Both searches pick the first best move in the order the set iterates in. Which order CPython uses is not modelled; the model proves its properties for every order instead. The move picked among equally good moves depends on the order. So does a pruned value at an inner window, which only has to satisfy the fail-soft bounds.
- `TicTacToe.Winner` returns the opposite of the player to move whatever mark the complete line holds, exactly as the code does. It names the line's owner only in positions reached by play; `WinnerIsLastMover` proves that case.
- Exception classes and messages become the `MoveError` values. A move that is not a pair, or a board that is `None`, cannot be expressed with these types.
- `2/pagerank/pagerank.py` is not part of this model. It is floating-point arithmetic, random sampling and file input.

## Findings

| source | as written | input that shows it | evidently intended | confidence | as-written member | corrected member |
|---|---|---|---|---|---|---|
| 0/tictactoe/tictactoe.py:46-47 | the negative-index guard is `i*j < 0`, which rejects a move only when exactly one coordinate is negative and the other is positive | `result(initial_state(), (0, -1))` passes the guard (product 0) and marks square `(0, 2)` through list wrap-around; `(-1, -1)` (product 1) marks `(2, 2)` | reject any move with a negative coordinate | not executed | TicTacToe.ResultAcceptsNegativeIndex | TicTacToe.ResultStrict |
