# Hoop sort solver, modelled in Dafny

The hoop sort solver takes a puzzle of poles with coloured hoops stacked on
them, bottom first, plus two empty poles. It searches for a sequence of moves
that leaves every pole either empty or full of one colour. One move takes the
run of same-coloured hoops on top of one pole and puts as many of them as fit
onto another pole.

This project models the solver's core:

- **Poles** (`pole_state.dfy`, module `PoleState`): the pole queries.
  - empty
  - finished (full height and one colour)
  - top colour
  - can move
  - the per-pole key text
- **Game states** (`game_state.dfy`, module `Game`): the win test, the score
  heuristic, and the order-independent state key. `text.dfy` (module `Text`)
  holds the joining and ordinal sorting that the key uses.
- **Candidate moves** (`potential_move.dfy`, module `Moves`): a move records
  the old state, the new state, a description of the move, and the new
  state's score. The new state links back to the move that produced it.
- **The move generator** (`move_generation.dfy`, module `MoveGeneration`):
  - the batched transfer of the top run;
  - the two scans that pick the (source, destination) pairs. The first scan
    finds the last empty pole and the "available spaces". The second scan
    pairs every non-empty pole with the empty pole and with every other space
    of its top colour.
- **Loading** (`load.dfy`, module `Loader`): the validation a puzzle file goes
  through to become the root state.
- **The search** (`solver.dfy`, module `Search`): a best-first search over
  candidate moves ordered by score.
  - A set of explored state keys stops a state from being expanded twice.
  - Each child is checked for a win before it is enqueued.
  - The winning move list is rebuilt by following the back-links.

## How the model is built

- **States are values.** `GameState` and `PotentialMove` are datatypes.
  - The source links a state and the move that produced it in a cycle. The
    model stores a back-link in the state instead: the old state, the move
    description and the score.
  - `Moves.LastMove` rebuilds the producing move from that link, with the
    state itself as its new state.
- **Loops become methods proved against a specification function.**
  - `Game.Score` against `ScoreOf`;
  - `MoveGeneration.GenerateMove` (and its loop `Transfer`) against `Moved`;
  - `MoveGeneration.ListAvailableMoves` against `AvailableMoves`;
  - `Loader.Load` against the functions of the file's lines;
  - `Search.ReconstructPath` against `Path`.
- **The generator's listing is characterised in both directions.**
  - `AvailableMovesSound`: every listed move is the transfer of a legal pair.
  - `AvailableMovesComplete`: the transfer of every legal pair is listed.
- **The search is proved correct in the source's own terms.**
  - **Found:** a returned move list has this shape:
    - it starts with the root's own history;
    - then comes a chain of generated moves, starting at the root;
    - it ends in a win;
    - every move is linked to its new state.
  - **No solution:** if the queue drains, every explored state's moves lead
    to non-winning states whose keys are explored, and every root move leads
    to a state whose key is explored.
  - **Every explored state:** it is reachable from the root, and no key is
    explored twice.

### Behaviour of the code worth knowing

- **Score.** `Game.ScoreOf` is the moves taken plus 5 for every hoop whose
  colour differs from its pole's top colour (`GameState.cs:17-30`), whatever
  the hoop's depth in the pole.
- **Sources.** The second scan takes every non-empty pole as a source
  (`GameState.cs:59`) and never asks `CanMove` (`PoleState.cs:38-43`). So a
  finished pole is still moved onto the empty pole
  (`MoveGeneration.FinishedPoleStillMoves`).
- **Win checks.** The root state and the moves generated from it are never
  checked for a win (`Program.cs:75-79`). An already solved puzzle is
  therefore not reported as solved in zero moves.
- **Empty poles.** Loading demands exactly two empty poles: the test at
  `GameState.cs:152` is `!= 2`, although the message at `GameState.cs:154`
  says "at least two". The model follows the test.
- **Explored set.** The set is seeded with the root's display text
  (`Program.cs:67-70`), which is never a state key. The model keeps it as the
  separate value `Search.DisplayKey`.
- **State key.** The state key (`GameState.cs:186`) calls a per-pole
  `ToGameString`, which `PoleState.cs` does not define; a per-pole
  `ToGameString` is not part of this model. The model uses the pole's
  `ToHashString` (`PoleState.cs:32-36`), the per-pole text meant for keys.
- **Key collisions.** The pole key tells poles apart only when no colour
  name contains '>' or a line break and none is "Empty"
  (`PoleState.KeyRoundTrip`). A pole holding one hoop named "Empty" has the
  same key as an empty pole, and the poles ["a", "b", "a > b"] and
  ["a > b", "a", "b"] share a key (`PoleState.KeyCollisions`). Colour names
  come from the puzzle file unchecked (`GameState.cs:132`), so the search
  can skip a state it has not explored.
- **Colour type.** `PoleState.cs:7` declares the hoops as integers, while
  loading stores colour names in them (`GameState.cs:132-138`) and
  `Program.cs:58` lists integer colours as a future improvement. The model's
  colour is the name (a string).

## Model

| member | source | states |
|---|---|---|
| PoleState.IsEmpty | HoopSortSolver/PoleState.cs:8-11 | a pole is empty exactly when it has no hoops |
| PoleState.TopColor | HoopSortSolver/PoleState.cs:24-30 | no colour exactly for an empty pole; otherwise the last hoop, which is one of the pole's hoops |
| PoleState.IsFinished | HoopSortSolver/PoleState.cs:13-22 | finished exactly when the pole has full height and every hoop has the bottom hoop's colour; a finished pole's top is its bottom colour |
| PoleState.CanMove | HoopSortSolver/PoleState.cs:38-43 | a pole can move exactly when it has a top hoop and is not full and of one colour |
| PoleState.ToHashString | HoopSortSolver/PoleState.cs:32-36 | "Empty" for an empty pole; otherwise a text that starts with the bottom colour and ends with the top colour |
| PoleState.KeyRoundTrip | HoopSortSolver/PoleState.cs:32-36 | when no colour name contains '>' or a line break and none is "Empty", the key spells out every hoop, bottom first, between " > " separators: reading it back gives the pole; the key holds no line break |
| PoleState.KeyCollisions | HoopSortSolver/PoleState.cs:32-36 | outside those names the key does not tell poles apart: one hoop named "Empty" keys like an empty pole, and ["a", "b", "a > b"] keys like ["a > b", "a", "b"] |
| Text.SplitJoin | HoopSortSolver/PoleState.cs:35 | cutting a join at its separator gives back the parts, when the separator's cut character occurs in no part |
| Text.JoinEnds | HoopSortSolver/PoleState.cs:35 | a " > "-join starts with its first part and ends with its last |
| Text.SortSorted | HoopSortSolver/GameState.cs:186 | ordering the per-pole keys yields a sorted permutation of them |
| Text.SortPermutationInvariant | HoopSortSolver/GameState.cs:186 | the ordered keys depend only on the multiset of keys, not their order |
| Game.IsWin | HoopSortSolver/GameState.cs:12-15 | a state is won exactly when every pole is empty, or full height with every hoop of the bottom hoop's colour |
| Game.Score | HoopSortSolver/GameState.cs:17-30 | the loop's result is the moves taken plus 5 per hoop not of its pole's top colour |
| Game.ScoreBounds | HoopSortSolver/GameState.cs:17-30 | the score is at least the moves taken, and equal to them exactly when every pole is of one colour |
| Game.WinScore | HoopSortSolver/GameState.cs:12-30 | a won state scores exactly its moves taken |
| Game.HashStringPermutationInvariant | HoopSortSolver/GameState.cs:184-187 | two states whose poles are a permutation of each other have the same key |
| Game.KeyRoundTrip | HoopSortSolver/GameState.cs:184-187 | for one or more poles with plain colour names, cutting the state key into lines and reading each line back gives the state's poles, up to order |
| Game.KeyDeterminesPoles | HoopSortSolver/GameState.cs:184-187 | two such states share a key only when their poles are a permutation of each other: with HashStringPermutationInvariant, the key identifies exactly the multiset of poles |
| Game.ColoursUpdate | HoopSortSolver/GameState.cs:93-97 | replacing one pole of the copied list swaps that pole's hoops for the new pole's in the colour total |
| Moves.NewPotentialMove | HoopSortSolver/PotentialMove.cs:16-22 | the move stores its old state, new state and description as given; its score is the new state's score, at least its moves taken |
| Moves.LastMove | HoopSortSolver/GameState.cs:108-111 | a state without a back-link has no last move; otherwise the rebuilt move has this state as its new state, starts at the linked old state, and is linked |
| MoveGeneration.RunLengthFacts | HoopSortSolver/GameState.cs:101-106 | the counted top run is all of the colour, and the hoop below it, if any, is not |
| MoveGeneration.MovedCount | HoopSortSolver/GameState.cs:99-106 | the number moved is at most the top run; it never overfills the destination; it is zero for a full destination and at least one otherwise; the transfer stops only at the run's end or a full destination |
| MoveGeneration.MovedCountFacts | HoopSortSolver/GameState.cs:99-106 | the moved hoops are exactly the source's top k hoops, all of the moved colour, and what remains does not have that colour on top unless the destination is full |
| MoveGeneration.MovedFacts | HoopSortSolver/GameState.cs:78-112 | the new state takes the moved hoops off the source and puts them on the destination; every other pole, and the height, is unchanged; moves taken grow by one; the move carries the new state's score and is linked from it |
| MoveGeneration.MoveConservesColours | HoopSortSolver/GameState.cs:93-106 | a move neither creates nor destroys hoops, for the two poles and for the whole board |
| MoveGeneration.MovePreservesHeight | HoopSortSolver/GameState.cs:101 | if every pole is within the height before the move, every pole is within it after |
| MoveGeneration.Transfer | HoopSortSolver/GameState.cs:99-106 | the transfer loop moves exactly MovedCount hoops, leaving the source's prefix and the destination extended by that many of the colour |
| MoveGeneration.GenerateMove | HoopSortSolver/GameState.cs:78-112 | the method builds exactly the move Moved specifies |
| MoveGeneration.LastEmpty | HoopSortSolver/GameState.cs:38-46 | the kept empty pole is -1 or an empty pole, and no later pole is empty |
| MoveGeneration.Spaces | HoopSortSolver/GameState.cs:41-54 | every available space is a non-empty pole not at full height, paired with its top colour, listed in strictly increasing pole order |
| MoveGeneration.SpacesComplete | HoopSortSolver/GameState.cs:47-53 | every non-empty pole not at full height is among the spaces |
| MoveGeneration.ClassifyPoles | HoopSortSolver/GameState.cs:34-54 | the first scan yields the last empty pole and the available spaces |
| MoveGeneration.GenerateMovesFrom | HoopSortSolver/GameState.cs:59-73 | the moves from one source are the move onto the empty pole, then the moves onto each other space of the same top colour, in order |
| MoveGeneration.GenerateAllMoves | HoopSortSolver/GameState.cs:57-74 | the second scan lists, source by source, the moves of every non-empty pole |
| MoveGeneration.ListAvailableMoves | HoopSortSolver/GameState.cs:32-76 | the listed moves are AvailableMoves of the state |
| MoveGeneration.MovesOfAppend | HoopSortSolver/GameState.cs:63-70 | the moves of two pair lists in turn are the moves of the first followed by the moves of the second |
| MoveGeneration.MatchPairsSound | HoopSortSolver/GameState.cs:65-72 | a pair from the inner loop goes from the source to another pole listed as a space of the source's top colour |
| MoveGeneration.MatchPairsComplete | HoopSortSolver/GameState.cs:65-72 | every other space of the source's top colour gives a pair |
| MoveGeneration.AllPairsSound | HoopSortSolver/GameState.cs:57-74 | every generated pair has a non-empty source and, as destination, the empty pole or another space of the source's top colour |
| MoveGeneration.AllPairsComplete | HoopSortSolver/GameState.cs:57-74 | every such pair is generated |
| MoveGeneration.AvailableMovesSound | HoopSortSolver/GameState.cs:32-76 | every listed move is the transfer of a legal pair: a non-empty source, and the last empty pole or a non-full pole of the same top colour |
| MoveGeneration.AvailableMovesComplete | HoopSortSolver/GameState.cs:32-76 | the transfer of every legal pair is listed |
| MoveGeneration.AvailablePairsDistinct | HoopSortSolver/GameState.cs:57-74 | the second scan never tries the same (source, destination) pair twice |
| MoveGeneration.AvailablePairsValid | HoopSortSolver/GameState.cs:57-74 | every pair the second scan tries has two different poles in range and a non-empty source, so no pair is skipped |
| MoveGeneration.MovesOfIndex | HoopSortSolver/GameState.cs:63-70 | when every pair is accepted, there is one move per pair, in order, each going from its pair's source to its destination |
| MoveGeneration.AvailableMovesOnePerPair | HoopSortSolver/GameState.cs:57-74 | the state offers exactly one move per pair tried, in the order tried, so no two listed moves share a source and a destination |
| MoveGeneration.FinishedPoleStillMoves | HoopSortSolver/GameState.cs:57-64 | a finished pole, which cannot move, is still moved onto the kept empty pole |
| MoveGeneration.AvailableMoveFacts | HoopSortSolver/GameState.cs:78-112 | every listed move starts at the state, is linked, counts one more move, keeps height and colours, carries its new state's score, and keeps poles within height |
| Loader.AddColours | HoopSortSolver/GameState.cs:132-138 | the colour list gains exactly the line's new colours and keeps no duplicates |
| Loader.Load | HoopSortSolver/GameState.cs:114-167 | an inconsistent height is reported exactly when some colour line, read after the height is set, has another length, and it names the first such line's length and the height set before it; otherwise the result is the empty-count error unless there are exactly two empty poles, then the colour-mismatch error unless there are as many poles as distinct colours plus two, else the board of the file's poles with the first line's height |
| Loader.HeightsMatchFirst | HoopSortSolver/GameState.cs:139-146 | when every colour line has at least one token, the incremental check equals every colour line having the first line's height; splitting on ", " always gives at least one token, a blank line giving the empty one (GameState.cs:132) |
| Loader.LoadedBoardHeights | HoopSortSolver/GameState.cs:139-166 | every pole of a loaded board is empty or exactly full height, and the board has no moves and no history |
| Search.Path | HoopSortSolver/Program.cs:106-112 | the back-link path is empty exactly for a state with no history |
| Search.PathIsChain | HoopSortSolver/Program.cs:106-112 | the back-link path is a chain of linked moves that starts at a state with no history and ends at the state |
| Search.ReachesStep | HoopSortSolver/Program.cs:97-117 | a generated move from a reached state reaches its new state and extends the path by that move |
| Search.ReachesPath | HoopSortSolver/Program.cs:64-125 | a reached state's path starts with the root's path, continues with generated moves, and the first of them starts at the root |
| Search.ReachesKeeps | HoopSortSolver/Program.cs:64-125 | a reached state counts one move per move after the root's path, and keeps the root's colours and height |
| Search.SolutionFromLoaded | HoopSortSolver/Program.cs:64-125 | for a loaded root, a solution is a chain of generated moves from the root to a win whose final state counts exactly its moves and keeps the root's colours |
| Search.MinScoreIndex | HoopSortSolver/Program.cs:85 | the dequeued entry has the least score in the queue |
| Search.ReconstructPath | HoopSortSolver/Program.cs:105-113 | the reconstructed list is the back-link path of the winning move's old state followed by the move |
| Search.FirstWinner | HoopSortSolver/Program.cs:98-118 | there is no winner exactly when no child wins; otherwise the winner is a child that wins |
| Search.FirstWinnerIsFirst | HoopSortSolver/Program.cs:98-113 | the winner is the first child that wins: every child before it does not win |
| Search.EnqueueChildren | HoopSortSolver/Program.cs:98-119 | the loop stops at the first winning child; without one, every child is enqueued in order |
| Search.Explore | HoopSortSolver/Program.cs:94-120 | exploring records the state's key, finds the first winning move and its path, or enqueues every move |
| Search.ExploreKeepsInvariant | HoopSortSolver/Program.cs:94-120 | exploring a reached state with a new key and no winning move keeps the search invariant |
| Search.SearchStep | HoopSortSolver/Program.cs:82-121 | one round dequeues an entry of least score; a state whose key was explored is dropped with nothing else changed; otherwise its key is recorded, it joins the explored states, and either its first winning move ends the round with that move's back-link path, or every move of the state is enqueued after the rest of the queue; the round keeps the search invariant or returns a solution |
| Search.NoSolutionClosed | HoopSortSolver/Program.cs:82-124 | with the queue drained, the explored keys are closed under moves, and no move from an explored state wins |
| Search.FoundIsSolution | HoopSortSolver/Program.cs:101-113 | a winning move generated from a reached state, with its reconstructed path, is a solution |
| Search.Solver | HoopSortSolver/Program.cs:64-125 | a found move list is a solution; explored states are reached from the root and distinct by key; an empty queue means the explored keys are closed under moves with no winning move |

## Left out

- Command-line parsing, console output, progress messages and timing (`Program.cs:14-50`, `Program.cs:86-90`, `Program.cs:103`, `Program.cs:123`) are I/O and are not modelled.
- File reading and the splitting of the text into lines and colour tokens (`GameState.cs:120-121`, `GameState.cs:132`) are I/O. `Loader.Load` takes the lines already split, each with its ", "-separated tokens.
- Exceptions become values. A load failure is a `Result` error. The "Invalid move" exception of `GameState.cs:81-84` is a precondition of `MoveGeneration.GenerateMove`, because the generator only picks non-empty sources.
- `ToGameString` of a state (`GameState.cs:169-178`) is display text only. It enters the model only as the explored-set seed `Search.DisplayKey`.
- `PoleNumber` (`PoleState.cs:6`) is never read by the core.
- The move description string is modelled as the record `Game.MoveDesc` (count, colour, from, to) rather than as formatted text.
- Search.MinScoreIndex: the .NET priority queue's internals and its order among equal scores are not modelled. The model dequeues some entry of least score (the first found), not necessarily the one .NET picks.
- Search.Solver: the search is bounded by a `fuel` count of rounds, because termination of the source's loop over a finite state space is not modelled. A third outcome, `OutOfFuel`, reports an exhausted bound.
- Game.ToHashString: `OrderBy` in the source compares with the current culture's string comparer. The model orders ordinally by character code, and `Environment.NewLine` is taken as "\n". A culture comparer can rank distinct strings as equal (ones differing only by an ignorable character such as U+00AD, the soft hyphen), and `OrderBy` is stable, so in the source two permutations of the same poles can get different keys; `Game.HashStringPermutationInvariant` holds for the ordinal order only.
- Loader.Load: the source recognises a comment with `StartsWith("#")` (`GameState.cs:129`), which compares with the current culture and ignores ignorable characters, so a line such as U+00AD (soft hyphen) followed by "# note" is skipped there. The model's `Loader.IsComment` tests only whether the first character is '#', so it reads that line as a one-hoop colour line.
- Game.Score: `int` overflow of the score and the move count is not modelled, because integers are unbounded.
- MoveGeneration.MovesOf skips a pair whose source is empty, whose poles are out of range, or whose two poles coincide. `MoveGeneration.AvailablePairsValid` shows that the generator never produces such a pair.
- PoleState.IsFinished requires a non-empty pole or a positive height. For an empty pole at height 0 the source reads `Hoops[0]` out of range (`PoleState.cs:16`) and throws; no caller reaches that case, since the win test asks only non-empty poles.
