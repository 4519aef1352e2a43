# Knight's tour search engine, modelled in Dafny

This project models the search engine of the `KnightsTour` class in
`Knight.py`. The engine looks for a knight's tour of a `size` x `size`
board: a path that visits every cell exactly once by knight moves. It has
five parts, and each one is modelled.

- **Board state.** A grid of visit orders, with `-1` for an unvisited
  cell; the eight knight offsets; the `is_valid_move` query; and the
  degree query `_count_valid_moves`. Module `Board`; the class fields of
  `Tour.KnightsTour`.
- **Warnsdorff move selection.** `_get_next_move_warnsdorff_generic_detailed`
  walks the offsets in a preference order and scores each valid target with
  its degree and a tie-break. It returns the first candidate of a stable
  sort by score. Module `Selection`; method
  `Tour.KnightsTour.NextMoveWarnsdorff`.
- **Scoring strategies.** Random, centre and corners, compared in tuple
  order. Module `Scoring`. The corner score is modelled as written, and the
  solver uses it. A fourth strategy, `CornersIntended`, scores by nearness
  to a corner, which is what the corner method's own docstring describes.
  No variation number or mode name selects it; it exists so that the
  finding below can be stated against it.
- **Single-attempt greedy walk.** `solve_with_warnsdorff` and
  `_solve_with_warnsdorff_variation`. Module `Greedy` specifies the walk by
  its outcome. The class methods run it in place on the board and path.
- **Multi-attempt orchestrator.** `solve_with_multiple_warnsdorff_attempts`
  and the fingerprint `_get_path_hash`. Modules `Fingerprint` and `Tour`.
- **Iterative backtracking.** `solve`, with its explicit frame stack.
  Module `Backtracking` holds the stack invariant and the termination rank.
  `Tour.KnightsTour.Solve` is the search itself.

The class `Tour.KnightsTour` keeps `board`, `path` and `variationStats` as
fields, and its methods update them as the Python methods do. Its invariant
`Valid()` is the one-to-one correspondence between board and path: the
path's cells are distinct cells of the board, cell `path[k]` holds `k`, and
every other cell holds `-1`. `Board.BoardMatchesPath` proves that reading.

The greedy walk is specified for any way of choosing the next cell, a
`Chooser`. The solver's chooser is `Greedy.WarnsdorffChoice`: the selection
from the last cell of the path, on the grid that records the path, with the
tie-breaks of that step. `Greedy.WarnsdorffRun` says that a path and a
result are the walk's outcome. `Greedy.OutcomeIsWalk` proves that this
outcome is unique and equals the one computed by the function
`Greedy.WalkFrom`.

Randomness and hashing are parameters:
- the preference order is a permutation of 0..7;
- tie-breaks are `tie(step, j)` for the j-th candidate of a step, and
  statements about Warnsdorff's rule require them to lie in [0, 0.1), the
  range of `random.random() * 0.1`;
- the orchestrator reseeds before each attempt, so each attempt's draws are
  functions `shuffleOf(seed)` and `tiesOf(seed)` of its seed;
- Python's `hash` is an arbitrary function `hash` of the sampled cells.

Two behaviours of the code are easy to miss, and the model keeps both:
- After a failed greedy walk, the board and path keep the partial walk.
  The orchestrator does not reset them after its last attempt. Only `solve`
  clears them on failure (Knight.py:426-427).
- A success counts as a duplicate when its fingerprint matches that of any
  earlier non-empty path, including the partial paths of failed attempts
  (Knight.py:267-269). It is not compared only with earlier successes.

## Model

| member | source | states |
|---|---|---|
| Board.KnightStepIff | Knight.py:19-20 | The eight offsets are exactly the knight moves: one coordinate changes by 1 and the other by 2. |
| Board.OrderOf | Knight.py:178-179 | The value a cell holds after the path's cells are written in order: -1 exactly when the cell is not on the path, otherwise the index of its last occurrence. |
| Board.DegreeCountsOpenOffsets | Knight.py:55-63 | The degree is the number of the eight offsets whose target is on the board and unvisited, and it is 0 exactly when no offset is open. |
| Board.CountBelowIsCardinality | Knight.py:57-62 | After offsets 0..i-1 the running count equals the number of open offsets among them. |
| Board.OpenOffsetsBelowMembers | Knight.py:58-61 | An offset is among those counted after i steps exactly when it is below i and its target is a valid move. |
| Board.ValidMoveIffUnvisited | Knight.py:27-31 | On the grid that records a path, a move is valid exactly when the cell is on the board and not on the path. |
| Board.IsValidMove | Knight.py:27-31 | The cell is on the board and holds -1; Board.ValidMoveIffUnvisited reads this on the grid of a path. |
| Board.CountBelow | Knight.py:57-62 | After offsets 0..i-1 the running count is at most i. |
| Board.Degree | Knight.py:55-63 | The degree is at most 8; Board.DegreeCountsOpenOffsets says which offsets it counts. |
| Board.OffsetOpenAfterStart | Knight.py:58-61 | When only the start cell c is visited, an offset from p is open exactly when its target is on the board and is not c. |
| Board.DegreeAfterStart | Knight.py:55-63 | When only the start cell c is visited, the degree's running count equals the count of targets on the board other than c. |
| Board.BoardOf | Knight.py:18 | The grid that records a path is a size x size grid. |
| Board.BoardOfEmpty | Knight.py:18 | The empty path is recorded by the grid whose every cell is -1. |
| Board.BoardMatchesPath | Knight.py:169-180 | For a path of distinct board cells, the recording grid holds k at path[k] and -1 at every cell off the path. |
| Board.BoardOfAppend | Knight.py:329-330 | Appending a board cell to the path writes its order into that cell and changes nothing else. |
| Board.BoardOfRemoveLast | Knight.py:424-425 | Removing the last cell of a path of distinct cells resets that cell to -1 and changes nothing else. |
| Board.VisitKeepsPath | Knight.py:178-179 | Visiting an unvisited board cell keeps the path made of distinct board cells and numbers the cell with its order. |
| Board.UnvisitKeepsPath | Knight.py:423-425 | Undoing the last visit keeps the path made of distinct board cells and resets the cell to -1. |
| Board.RowsBelowSize | Knight.py:173 | The first r rows of the board hold r * size cells. |
| Board.DistinctElements | Knight.py:170-179 | A path of distinct cells has as many cells as its length. |
| Board.FullPathCoversBoard | Knight.py:181-182 | A path of size * size distinct board cells visits every cell of the board. |
| Scoring.LexIrreflexive | Knight.py:117 | No score tuple is smaller than itself. |
| Scoring.LexTransitive | Knight.py:117 | Tuple order is transitive. |
| Scoring.LexTrichotomy | Knight.py:117 | Of two different score tuples one is smaller, so the sort order is total. |
| Scoring.MinCornerDist | Knight.py:140-141 | The result is one of the four Manhattan distances to the corners and is at most each of them. |
| Scoring.ScoreRandom | Knight.py:127-129 | A one-element score; with a tie-break in [0, 0.1) it lies in [degree, degree + 0.1). |
| Scoring.ScoreCenter | Knight.py:131-136 | The score is (degree, d + rf) where d is the Manhattan distance to (size//2, size//2), so its second part lies in [d, d + 0.1). |
| Scoring.ScoreCornersAsWritten | Knight.py:138-142 | The program's corner score (degree, -d + rf), d the distance to the nearest corner: its second part lies in [-d, -d + 0.1), so it falls as d grows. |
| Scoring.ScoreCorners | Knight.py:138-142 | The intended corner score (degree, d + rf): its second part lies in [d, d + 0.1), so it rises as d grows. |
| Scoring.ScoreOf | Knight.py:127-142 | The strategy's score: one element for Random and two otherwise, and its first element lies within 0.1 above the degree. Corners is the program's score as written; CornersIntended is the intended one. |
| Scoring.LowerDegreeWins | Knight.py:127-142 | Under all four strategies, including the corner score as written and as intended, with tie-breaks in [0, 0.1), a candidate of smaller degree scores lower whatever the positions. |
| Scoring.RandomTieBreakDecides | Knight.py:127-129 | Random strategy: between equal degrees the smaller tie-break wins, and only then. |
| Scoring.CenterPrefersCentral | Knight.py:131-136 | Centre strategy: between equal degrees the cell strictly nearer (size//2, size//2) wins whatever the tie-breaks. |
| Scoring.CornersPreferCorner | Knight.py:138-142 | The intended corner strategy (CornersIntended): between equal degrees the cell strictly nearer a corner wins whatever the tie-breaks. |
| Scoring.CornersAsWrittenPrefersFarCell | Knight.py:138-142 | The program's corner strategy (Corners): between equal degrees the cell strictly farther from its nearest corner wins whatever the tie-breaks, and the nearer one never does. |
| Selection.Candidates | Knight.py:83-111 | The list built from the first n preferred offsets has at most n candidates; Selection.CandidatesSound and Selection.CandidatesComplete say which. |
| Selection.CandidatesSound | Knight.py:83-111 | Each candidate is the valid target of a preferred offset, scored with its own degree and the tie-break drawn at its position in the list. |
| Selection.CandidatesComplete | Knight.py:83-111 | Every preferred offset whose target is valid contributes a candidate with that target. |
| Selection.FirstMin | Knight.py:116-118 | The index of the first element after a stable sort by score: no candidate scores lower, and every earlier candidate scores strictly higher. |
| Selection.FirstMinExtend | Knight.py:116-118 | Appending one candidate keeps the first minimum, unless the new candidate scores strictly lower. |
| Selection.FirstMinUnique | Knight.py:116-118 | That index is unique, so the choice does not depend on how the sort breaks ties internally. |
| Selection.SelectMove | Knight.py:68-122 | No move exactly when the candidate list is empty; otherwise the move is the cell of the list's first minimum by score, which is what sorting and taking element 0 returns. |
| Selection.SelectNoneIff | Knight.py:113-114 | No move is returned exactly when no preferred offset reaches a valid cell. |
| Selection.SelectIsLegal | Knight.py:101-122 | A returned cell is a valid move reached by a preferred offset, hence a knight's move away. |
| Selection.SelectMinDegree | Knight.py:101-118 | With tie-breaks in [0, 0.1), the returned cell has the least degree among the valid targets of the preferred offsets, under every strategy. |
| Selection.SelectNoneIffStuck | Knight.py:113-114 | With a permutation of the eight offsets as preference order, no move is returned exactly when the current cell has degree 0. |
| Selection.SelectMinScore | Knight.py:101-118 | When a preferred offset is open, a move is returned: the cell of the candidate list's first minimum. The offset's target is a candidate at some position m, and its score with the m-th draw is not lower than the returned cell's score with the draw of that cell's own position. |
| Selection.SelectWithinDegree | Knight.py:101-118 | With a permutation of the offsets and tie-breaks in [0, 0.1), a move is returned; it is a knight's move away and its degree is at most that of every open target. |
| Selection.CornersAsWrittenAvoidsNearerCell | Knight.py:101-142 | Under the program's corner score, of two open targets of equal degree the one nearer a corner is never returned. |
| Selection.CornersIntendedAvoidsFartherCell | Knight.py:101-142 | Under the intended corner score, of two open targets of equal degree the one farther from every corner is never returned. |
| Selection.StartCountsLow | Knight.py:55-63 | With only (2, 3) visited on an 8x8 board, (0, 4), (0, 2) and (1, 1) each have three open offsets. |
| Selection.StartCountsHigh | Knight.py:55-63 | The other five targets of (2, 3) have five or seven. |
| Selection.StartOpenLow | Knight.py:83-92 | Offsets 3, 4 and 5 from (2, 3) reach (0, 4), (0, 2) and (1, 1), and on the blank board they are open. |
| Selection.StartLowDegrees | Knight.py:55-63 | Those three cells have degree 3; (0, 4) is three steps from its nearest corner and the other two are two steps from theirs. |
| Selection.StartLeastDegreeMove | Knight.py:68-122 | Under every strategy, preference order and tie-breaks, the first move from (2, 3) on a blank 8x8 board is (0, 4), (0, 2) or (1, 1). |
| Selection.StartCornersPicksFarCell | Knight.py:68-142 | The program's corner strategy makes that first move to (0, 4), whatever the preference order and tie-breaks. |
| Selection.StartCornersIntendedPicksNearCell | Knight.py:68-142 | The intended corner strategy makes it to (0, 2) or (1, 1), never to (0, 4). |
| Greedy.WarnsdorffNext | Knight.py:310-311 | The selection from the last cell of the path, on the grid that records the path, with that step's tie-breaks; Greedy.WarnsdorffChoiceIsLegal states what it returns. |
| Greedy.WalkFrom | Knight.py:309-341 | The walk extends the given path by at most the remaining steps, and reports success exactly when it took them all. |
| Greedy.WarnsdorffChoiceIsLegal | Knight.py:309-331 | The solver only ever moves a knight's move to a board cell that is not yet on the path. |
| Greedy.StepsExtend | Knight.py:329-330 | Appending the chosen cell keeps every cell of the path the choice made after the cells before it. |
| Greedy.WalkFromIsOutcome | Knight.py:309-341 | Continuing a partial walk with WalkFrom yields an outcome of the walk. |
| Greedy.WalkIsOutcome | Knight.py:300-341 | The walk computed from the start cell satisfies the walk's specification. |
| Greedy.OutcomeIsWalkFrom | Knight.py:309-341 | An outcome of the walk is what WalkFrom computes from each of its prefixes with the remaining moves. |
| Greedy.OutcomeDeterministic | Knight.py:309-341 | The chooser determines the walk's path and result, so for the solver the preference order, strategy and tie-breaks do. |
| Greedy.OutcomeIsWalk | Knight.py:300-341 | A path and result are an outcome of the walk exactly when they are the walk computed from the start cell. |
| Greedy.ChosenPrefixStep | Knight.py:329-330 | One chosen step extends a prefix of distinct board cells by a knight's move to a new board cell. |
| Greedy.ChosenPrefixShape | Knight.py:300-331 | Every prefix of a walk is made of distinct board cells. |
| Greedy.WarnsdorffRunShape | Knight.py:300-331 | The walk's path is made of distinct board cells joined by knight moves. |
| Greedy.WarnsdorffSuccessIsTour | Knight.py:337-341 | A successful walk is a knight's tour and visits every cell of the board. |
| Greedy.WarnsdorffFailureIsStuck | Knight.py:310-316 | With a permutation as preference order, a failed walk stops before size * size cells at a cell of degree 0. |
| Fingerprint.PathHash | Knight.py:343-349 | The fingerprint is the hash of the path's sample; Fingerprint.UnsampledCellIsIgnored and Fingerprint.ShortPathSampleIsExact say what it distinguishes. |
| Fingerprint.SampleSize | Knight.py:347 | The sample size is min(100, len // 2). |
| Fingerprint.PathSample | Knight.py:347-348 | The sample is the first SampleSize cells plus the last SampleSize cells, or the whole path when the size is 0 (a slice from -0). |
| Fingerprint.SampleDeterminesSampledCells | Knight.py:347-349 | Paths of equal length with equal samples agree at every sampled index. |
| Fingerprint.ShortPathSampleIsExact | Knight.py:347-349 | Paths of at most one cell, or of an even length up to 200, are sampled whole, so equal samples mean equal paths. |
| Fingerprint.UnsampledCellIsIgnored | Knight.py:347-349 | Changing a cell between the two sampled ends does not change the sample, so such paths share a fingerprint under every hash. |
| Backtracking.StackPathIsKnightPath | Knight.py:410-417 | The path held by a well-formed stack is a knight path. |
| Backtracking.RankBounds | Knight.py:405-425 | The rank of a stack whose cursors lie in 0..8 lies in [0, 10^n). |
| Backtracking.RankLexicographic | Knight.py:405-425 | The rank orders stacks lexicographically by their cursors, with 9 above the top. |
| Backtracking.PushRaisesRank | Knight.py:414-417 | Advancing the top cursor and pushing a fresh frame raises the rank. |
| Backtracking.PopRaisesRank | Knight.py:421-422 | Popping the top frame raises the rank. |
| Backtracking.StackPop | Knight.py:421-425 | Popping the top frame and removing the last path cell keeps the stack matched with the path. |
| Backtracking.StackPush | Knight.py:413-418 | Trying offset i from the top frame and pushing the cell it reaches keeps the stack matched with the extended path and raises the rank. |
| Tour.VariationStrategy | Knight.py:293-298 | Variation 1 scores by the centre, 2 by the corners as written, and every other number at random. |
| Tour.ModeStrategy | Knight.py:159-164 | Mode "center" scores by the centre, "corners" by the corners as written, and every other name at random. |
| Tour.ModeVariation | Knight.py:159-164 | The variation number whose strategy is the one the mode name selects. |
| Tour.SeedOf | Knight.py:211 | Attempt a on a board of the given size is seeded with a + size * 1000. |
| Tour.FingerprintsOfPrefix | Knight.py:245-269 | Appending a record leaves the earlier records' fingerprints and novelty unchanged. |
| Tour.AttemptLogAppend | Knight.py:240-245 | A record describing the next attempt extends a log in which every record describes its own attempt. |
| Tour.AppendRecord | Knight.py:245-269 | Appending a record adds its fingerprint, when its path is not empty, to the fingerprints already seen. |
| Tour.NovelPathIsNew | Knight.py:247-257 | A novel success's path differs from the path of every earlier attempt. |
| Tour.RecordAttempt | Knight.py:245-269 | The new record is a novel success exactly when it succeeded with an unseen fingerprint; otherwise its fingerprint joins the seen set. |
| Tour.KnightsTour.constructor | Knight.py:10-25 | A blank size x size board, an empty path and empty statistics. |
| Tour.KnightsTour.CountValidMoves | Knight.py:55-63 | The loop returns the cell's degree, which Board.DegreeCountsOpenOffsets counts as the open offsets. |
| Tour.KnightsTour.NextMoveWarnsdorff | Knight.py:68-122 | The loop builds the candidate list and returns exactly the selection's move, leaving the board unchanged. |
| Tour.KnightsTour.Visit | Knight.py:329-330 | The cell gets its order on the board and is appended to the path, and the invariant holds. |
| Tour.KnightsTour.Unvisit | Knight.py:424-425 | The last path cell is reset to -1 and removed from the path, and the invariant holds. |
| Tour.KnightsTour.TakeWarnsdorffStep | Knight.py:310-331 | One step of the walk: the chosen cell is visited, or nothing changes when there is none. |
| Tour.KnightsTour.SolveWithWarnsdorffVariation | Knight.py:279-341 | From a blank board, the path and result are the Warnsdorff walk's outcome for the variation's strategy, and the invariant holds. |
| Tour.KnightsTour.SolveWithWarnsdorff | Knight.py:147-182 | The walk for the mode's strategy: on success the path is a knight's tour, on failure it stops at a cell of degree 0. |
| Tour.KnightsTour.RunAttempt | Knight.py:208-245 | One attempt: reset, walk with variation attempt % 3 and the seed's draws, append one record describing it; a success is a tour. |
| Tour.KnightsTour.SolveWithMultipleWarnsdorffAttempts | Knight.py:187-277 | One record per attempt that ran; the result is true exactly when the last record is the first novel success, and that path is a tour unlike every earlier one; false means maxAttempts attempts ran. |
| Tour.KnightsTour.FindOpenOffset | Knight.py:410-420 | The scan returns the first offset from the cursor on whose target is a valid move, or 8 when there is none. |
| Tour.KnightsTour.PushFrame | Knight.py:413-418 | The top cursor moves past i, the target is numbered and appended, and a frame for it is pushed; the stack still matches the path and the rank rises. |
| Tour.KnightsTour.PopFrame | Knight.py:421-425 | The top frame is popped, and unless the stack is then empty the last path cell is undone; the rank rises. |
| Tour.KnightsTour.Solve | Knight.py:397-428 | The search terminates; true means the path is a knight's tour from the start cell, and false means the board is blank and the path empty. |

## Findings

| source | as written | input that shows it | evidently intended | confidence | as-written member | corrected member |
|---|---|---|---|---|---|---|
| Knight.py:138-142 | The corner score is (degree, -min_corner_dist + random_factor) and the lowest score wins, so between equal degrees the cell farthest from every corner is chosen. | Blank 8x8 board, start (2, 3): its targets (0, 4), (0, 2) and (1, 1) all have degree 3 and the other five more. (0, 4) is 3 steps from its nearest corner and the other two are 2 steps from theirs. Whatever the preference order and tie-breaks, the score as written moves to (0, 4). | Prefer the cell nearer a corner, as the method's docstring says: the intended score moves to (0, 2) or (1, 1). The model's solver keeps the program's score; the intended one is the CornersIntended strategy, which no mode selects. | not executed | Selection.StartCornersPicksFarCell | Selection.StartCornersIntendedPicksNearCell |

## Left out

- The `KnightsTourVisualizer` class (pygame drawing and event loop), `print_solution`, `print_path`, all printing, `log_move` and `debug_log`, and the verbose and progress messages: output only.
- The per-move diagnostics (`considered_moves`, the `details` dictionaries, `move_tracking`): each attempt record keeps the walked path instead, whose cells after the first are the moves' targets.
- `_save_variation_stats`, `_save_debug_log` and the `save_logs` flag: file output.
- The timestamp in each attempt record: it reads the clock.
- `analyze_variation_performance`: floating-point averages and printing.
- Argument parsing and the command-line driver; their start-cell check becomes the precondition that the start cell is on the board.
- Python's random number generator: the preference order, the tie-breaks and the per-seed draws are parameters, as described above.
- Python's `hash` and the string built from the two slices: the fingerprint is an arbitrary function of the pair of slices. Equal paths have equal fingerprints because it is a function.
- Floating-point arithmetic: scores are exact reals, so rounding in `degree + random_factor` is not modelled.
- Tour.KnightsTour.SolveWithWarnsdorffVariation: requires an empty path, so a blank board; the source writes into whatever board it has, and every caller in the source and in the model starts from a fresh or reset board.
- Tour.KnightsTour.SolveWithWarnsdorff: the same blank-board precondition. Its loop (Knight.py:173-180) is the variation solver's loop without the logging, so the model maps the mode name to a variation number with Tour.ModeVariation and calls that solver.
- Tour.KnightsTour.Solve: the same blank-board precondition. The model proves termination and what each result means. It does not prove completeness (that a tour is found whenever one exists), nor anything about particular board sizes; both need the whole search tree.
- Visit, Unvisit, TakeWarnsdorffStep, RunAttempt, FindOpenOffset, PushFrame and PopFrame are pieces of the source's loop bodies, split out so that each proof stays small. The loops that call them keep the source's order of operations.
