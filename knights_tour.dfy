/** The KnightsTour solver object: the board and path it updates in place,
    its Warnsdorff solvers (one walk, and several walks with different
    strategies and seeds) and its iterative backtracking search. */
module Tour {
  import opened Board
  import opened Scoring
  import opened Selection
  import opened Greedy
  import opened Fingerprint
  import opened Backtracking

  /** The statistics kept for one attempt of the multi-attempt solver. The
      walked path stands in for the per-move tracking list (its cells after
      the first are the moves' targets). */
  datatype AttemptRecord = AttemptRecord(
    attempt: nat, variation: int, seed: int, prefs: seq<int>, start: Pos,
    successful: bool, pathLength: nat, path: seq<Pos>)

  /** Variation 1 scores towards the centre, 2 towards the corners, any
      other number is the random strategy. */
  function VariationStrategy(variation: int): Strategy {
    if variation == 1 then Center else if variation == 2 then Corners else Random
  }

  /** The scoring mode names of the single-walk solver; any other name is
      the random strategy. */
  function ModeStrategy(mode: string): Strategy {
    if mode == "center" then Center else if mode == "corners" then Corners else Random
  }

  /** The variation number whose strategy the mode name selects, so that a
      walk in a given mode is the variation solver's walk. */
  function ModeVariation(mode: string): (v: int)
    ensures VariationStrategy(v) == ModeStrategy(mode)
  {
    if mode == "center" then 1 else if mode == "corners" then 2 else 0
  }

  /** The seed of attempt `attempt` (counted from 0) on a board of `size`. */
  function SeedOf(attempt: nat, size: nat): int {
    attempt + size * 1000
  }

  /** Record `r` describes attempt `i`: its variation cycles through 0, 1, 2,
      its preference order and tie-breaks come from its seed, and its path
      and result are those of the Warnsdorff walk they determine. */
  ghost predicate AttemptOutcome(size: nat, start: Pos, i: nat, shuffleOf: int -> seq<int>,
                                 tiesOf: int -> (nat, nat) -> real, r: AttemptRecord)
  {
    && r.attempt == i + 1 && r.variation == i % 3 && r.seed == SeedOf(i, size)
    && r.prefs == shuffleOf(r.seed) && r.start == start && r.pathLength == |r.path|
    && ValidPrefs(r.prefs)
    && WarnsdorffRun(size, start, r.prefs, VariationStrategy(r.variation), tiesOf(r.seed), r.path, r.successful)
  }

  /** The fingerprints of the non-empty paths of the first `n` records. */
  function Fingerprints(hash: ((seq<Pos>, seq<Pos>)) -> int, stats: seq<AttemptRecord>, n: nat): set<int>
    requires n <= |stats|
  {
    set j | 0 <= j < n && |stats[j].path| > 0 :: PathHash(hash, stats[j].path)
  }

  /** Record `i` is a success whose fingerprint no earlier record had. */
  predicate NovelSuccess(hash: ((seq<Pos>, seq<Pos>)) -> int, stats: seq<AttemptRecord>, i: nat)
    requires i < |stats|
  {
    stats[i].successful && PathHash(hash, stats[i].path) !in Fingerprints(hash, stats, i)
  }

  /** Appending a record leaves the fingerprints of the earlier ones alone. */
  lemma FingerprintsOfPrefix(hash: ((seq<Pos>, seq<Pos>)) -> int, stats: seq<AttemptRecord>, r: AttemptRecord, n: nat)
    requires n <= |stats|
    ensures Fingerprints(hash, stats + [r], n) == Fingerprints(hash, stats, n)
    ensures n < |stats| ==> (NovelSuccess(hash, stats + [r], n) <==> NovelSuccess(hash, stats, n))
  {
    var s := stats + [r];
    assert forall j :: 0 <= j < |stats| ==> s[j] == stats[j];
    if n < |stats| {
      assert Fingerprints(hash, s, n) == Fingerprints(hash, stats, n);
    }
  }

  /** Every record of `stats` describes the attempt at its index. */
  ghost predicate AttemptLog(size: nat, start: Pos, shuffleOf: int -> seq<int>, tiesOf: int -> (nat, nat) -> real,
                             stats: seq<AttemptRecord>)
  {
    forall i {:trigger AttemptOutcome(size, start, i, shuffleOf, tiesOf, stats[i])} :: 0 <= i < |stats| ==>
      AttemptOutcome(size, start, i, shuffleOf, tiesOf, stats[i])
  }

  /** A record describing the next attempt extends an attempt log. */
  lemma AttemptLogAppend(size: nat, start: Pos, shuffleOf: int -> seq<int>, tiesOf: int -> (nat, nat) -> real,
                         stats: seq<AttemptRecord>, r: AttemptRecord)
    requires AttemptLog(size, start, shuffleOf, tiesOf, stats)
    requires AttemptOutcome(size, start, |stats|, shuffleOf, tiesOf, r)
    ensures AttemptLog(size, start, shuffleOf, tiesOf, stats + [r])
  {
    var s := stats + [r];
    forall i | 0 <= i < |s|
      ensures AttemptOutcome(size, start, i, shuffleOf, tiesOf, s[i])
    {
      if i < |stats| {
        assert s[i] == stats[i];
        assert AttemptOutcome(size, start, i, shuffleOf, tiesOf, stats[i]);
      }
    }
  }

  /** No record of `stats` before index `n` is a novel success. */
  predicate NoneNovelBefore(hash: ((seq<Pos>, seq<Pos>)) -> int, stats: seq<AttemptRecord>, n: nat)
    requires n <= |stats|
  {
    forall i :: 0 <= i < n ==> !NovelSuccess(hash, stats, i)
  }

  /** Appending a record keeps the earlier records' novelty, and adds its
      fingerprint (if its path is not empty) to the fingerprints seen so
      far. */
  lemma AppendRecord(hash: ((seq<Pos>, seq<Pos>)) -> int, stats: seq<AttemptRecord>, r: AttemptRecord)
    requires NoneNovelBefore(hash, stats, |stats|)
    ensures NoneNovelBefore(hash, stats + [r], |stats|)
    ensures Fingerprints(hash, stats + [r], |stats|) == Fingerprints(hash, stats, |stats|)
    ensures Fingerprints(hash, stats + [r], |stats| + 1) ==
      Fingerprints(hash, stats, |stats|) + (if |r.path| > 0 then {PathHash(hash, r.path)} else {})
  {
    var s := stats + [r];
    forall i | 0 <= i < |stats|
      ensures !NovelSuccess(hash, s, i)
    {
      FingerprintsOfPrefix(hash, stats, r, i);
    }
    FingerprintsOfPrefix(hash, stats, r, |stats|);
    assert s[|stats|] == r;
  }

  /** A novel success's path differs from every earlier attempt's path. */
  lemma NovelPathIsNew(hash: ((seq<Pos>, seq<Pos>)) -> int, stats: seq<AttemptRecord>, i: nat)
    requires i < |stats| && NovelSuccess(hash, stats, i)
    requires forall j :: 0 <= j < i ==> |stats[j].path| > 0
    ensures forall j :: 0 <= j < i ==> stats[j].path != stats[i].path
  {
    forall j | 0 <= j < i
      ensures stats[j].path != stats[i].path
    {
      assert PathHash(hash, stats[j].path) in Fingerprints(hash, stats, i);
    }
  }

  /** Appending the record `r` of the next attempt to `stats`, whose
      records are not novel successes and have the fingerprints `seen`:
      the new record is a novel success exactly when it succeeded with an
      unseen fingerprint, its path then differs from every earlier path,
      and otherwise its fingerprint joins `seen`. */
  lemma RecordAttempt(hash: ((seq<Pos>, seq<Pos>)) -> int, stats: seq<AttemptRecord>, r: AttemptRecord, seen: set<int>)
    requires NoneNovelBefore(hash, stats, |stats|) && seen == Fingerprints(hash, stats, |stats|)
    requires forall j :: 0 <= j < |stats| ==> |stats[j].path| > 0
    requires |r.path| > 0
    ensures var s := stats + [r];
      && NoneNovelBefore(hash, s, |stats|)
      && (NovelSuccess(hash, s, |stats|) <==> r.successful && PathHash(hash, r.path) !in seen)
      && (NovelSuccess(hash, s, |stats|) ==> forall j :: 0 <= j < |stats| ==> s[j].path != r.path)
      && (!NovelSuccess(hash, s, |stats|) ==> NoneNovelBefore(hash, s, |s|))
      && Fingerprints(hash, s, |s|) == seen + {PathHash(hash, r.path)}
      && (forall j :: 0 <= j < |s| ==> |s[j].path| > 0)
  {
    var s := stats + [r];
    AppendRecord(hash, stats, r);
    assert s[|stats|] == r;
    if NovelSuccess(hash, s, |stats|) {
      NovelPathIsNew(hash, s, |stats|);
    }
  }

  class KnightsTour {
    const size: nat
    var board: Grid
    var path: seq<Pos>
    var variationStats: seq<AttemptRecord>

    /** The board records the path: the path's cells are distinct cells of
        the board, each holding its order in the path, and every other
        cell holds -1. */
    ghost predicate Valid()
      reads this
    {
      OnBoard(size, path) && Distinct(path) && board == BoardOf(size, path)
    }

    /** A blank board of `size` x `size` cells and an empty path. */
    constructor (size: nat)
      ensures this.size == size && Valid()
      ensures board == Blank(size) && path == [] && variationStats == []
    {
      this.size := size;
      board := Blank(size);
      path := [];
      variationStats := [];
      BoardOfEmpty(size);
    }

    /** The number of valid moves from (x, y): its degree on the board
        (DegreeCountsOpenOffsets says what the degree counts). */
    method CountValidMoves(x: int, y: int) returns (count: nat)
      requires IsGrid(size, board)
      ensures count == Degree(size, board, (x, y))
    {
      count := 0;
      for i := 0 to 8
        invariant count == CountBelow(size, board, (x, y), i)
      {
        var nextX := x + MovesX[i];
        var nextY := y + MovesY[i];
        if IsValidMove(size, board, nextX, nextY) {
          count := count + 1;
        }
      }
    }

    /** The Warnsdorff choice from (x, y): the candidates are collected in
        preference order, each scored with the tie-break drawn for it, and
        the first one of least score is returned. */
    method NextMoveWarnsdorff(x: int, y: int, prefs: seq<int>, s: Strategy, ties: nat -> real)
      returns (next: Option<Pos>)
      requires IsGrid(size, board) && ValidPrefs(prefs)
      ensures next == SelectMove(size, board, (x, y), prefs, s, ties)
    {
      var moves: seq<Candidate> := [];
      for i := 0 to |prefs|
        invariant moves == Candidates(size, board, (x, y), prefs, i, s, ties)
      {
        var prefIdx := prefs[i];
        var nextX := x + MovesX[prefIdx];
        var nextY := y + MovesY[prefIdx];
        assert (nextX, nextY) == Target((x, y), prefs[i]);
        if IsValidMove(size, board, nextX, nextY) {
          var degree := CountValidMoves(nextX, nextY);
          var randomFactor := ties(|moves|);
          var score := ScoreOf(s, size, (nextX, nextY), degree, randomFactor);
          moves := moves + [Candidate(score, (nextX, nextY))];
        }
      }
      if |moves| == 0 {
        return None;
      }
      var best := FirstMin(moves);
      next := Some(moves[best].pos);
    }

    /** Marks cell q with number `order` on the board and appends it to the path. */
    method Visit(q: Pos, order: nat)
      requires Valid() && InBoard(size, q) && q !in path && order == |path|
      modifies this
      ensures Valid() && variationStats == old(variationStats)
      ensures path == old(path) + [q] && board == Place(old(board), q, order)
    {
      VisitKeepsPath(size, path, q);
      board := board[q.0 := board[q.0][q.1 := order]];
      path := path + [q];
    }

    /** Clears the last cell of the path on the board and removes it from the path. */
    method Unvisit()
      requires Valid() && |path| > 0
      modifies this
      ensures Valid() && variationStats == old(variationStats)
      ensures path == old(path)[..|old(path)| - 1] && board == Place(old(board), old(path)[|old(path)| - 1], -1)
    {
      UnvisitKeepsPath(size, path);
      var (x, y) := path[|path| - 1];
      path := path[..|path| - 1];
      board := board[x := board[x][y := -1]];
    }

    /** One step of the walk (the body of the variation solver's loop): the
        move chosen from (x, y), the last cell of the path, is visited with
        number move_count == |path|; where none is chosen nothing changes. */
    method TakeWarnsdorffStep(x: int, y: int, prefs: seq<int>, s: Strategy, tie: (nat, nat) -> real,
                              ghost choose: Chooser)
      returns (next: Option<Pos>)
      requires Valid() && ValidPrefs(prefs) && choose == WarnsdorffChoice(size, prefs, s, tie)
      requires |path| >= 1 && (x, y) == path[|path| - 1]
      requires forall k {:trigger StepChosen(choose, path, k)} :: 1 <= k < |path| ==> StepChosen(choose, path, k)
      modifies this
      ensures Valid() && variationStats == old(variationStats)
      ensures next == choose(old(path))
      ensures next.None? ==> path == old(path)
      ensures next.Some? ==> path == old(path) + [next.value]
      ensures forall k {:trigger StepChosen(choose, path, k)} :: 1 <= k < |path| ==> StepChosen(choose, path, k)
    {
      next := NextMoveWarnsdorff(x, y, prefs, s, TiesAt(tie, |path|));
      if next.Some? {
        var q := next.value;
        SelectIsLegal(size, board, (x, y), prefs, s, TiesAt(tie, |path|));
        ValidMoveIffUnvisited(size, path, q.0, q.1);
        StepsExtend(choose, path, q);
        Visit(q, |path|);
      }
    }

    /** One Warnsdorff walk from the start cell with the scoring strategy of
        `variation`, the preference order `prefs` and the tie-breaks `tie`
        (the j-th candidate at step k draws tie(k, j)). */
    method SolveWithWarnsdorffVariation(startX: int, startY: int, variation: int, prefs: seq<int>,
                                        tie: (nat, nat) -> real)
      returns (ok: bool)
      requires Valid() && path == [] && InBoard(size, (startX, startY)) && ValidPrefs(prefs)
      modifies this
      ensures Valid() && variationStats == old(variationStats)
      ensures WarnsdorffRun(size, (startX, startY), prefs, VariationStrategy(variation), tie, path, ok)
    {
      var s := VariationStrategy(variation);
      Visit((startX, startY), 0);
      var currX, currY := startX, startY;
      ghost var choose := WarnsdorffChoice(size, prefs, s, tie);
      for moveCount := 1 to size * size
        invariant Valid() && variationStats == old(variationStats)
        invariant |path| == moveCount && path[0] == (startX, startY)
        invariant (currX, currY) == path[|path| - 1]
        invariant forall k {:trigger StepChosen(choose, path, k)} :: 1 <= k < |path| ==> StepChosen(choose, path, k)
      {
        var nextMove := TakeWarnsdorffStep(currX, currY, prefs, s, tie, choose);
        if nextMove.None? {
          return false;
        }
        currX, currY := nextMove.value.0, nextMove.value.1;
      }
      ok := true;
    }

    /** One Warnsdorff walk with the strategy named by `mode` and a shuffled
        preference order (a permutation of the eight offsets). A failed walk
        stops at a cell with no valid move left. */
    method SolveWithWarnsdorff(startX: int, startY: int, mode: string, prefs: seq<int>, tie: (nat, nat) -> real)
      returns (ok: bool)
      requires Valid() && path == [] && InBoard(size, (startX, startY)) && IsPermutation(prefs)
      modifies this
      ensures Valid() && variationStats == old(variationStats)
      ensures WarnsdorffRun(size, (startX, startY), prefs, ModeStrategy(mode), tie, path, ok)
      ensures ok ==> IsTour(size, path)
      ensures !ok ==> |path| < size * size && Degree(size, board, path[|path| - 1]) == 0
    {
      var variation := ModeVariation(mode);
      ok := SolveWithWarnsdorffVariation(startX, startY, variation, prefs, tie);
      if ok {
        WarnsdorffSuccessIsTour(size, (startX, startY), prefs, ModeStrategy(mode), tie, path);
      } else {
        WarnsdorffFailureIsStuck(size, (startX, startY), prefs, ModeStrategy(mode), tie, path);
      }
    }

    /** One attempt of the multi-attempt solver (the body of its loop):
        the board and path are cleared, the walk runs with variation
        attempt % 3 and the preference order and tie-breaks of the
        attempt's seed, and its record is appended to the statistics. */
    method RunAttempt(attempt: nat, startX: int, startY: int,
                      shuffleOf: int -> seq<int>, tiesOf: int -> (nat, nat) -> real)
      returns (success: bool)
      requires Valid() && InBoard(size, (startX, startY)) && IsPermutation(shuffleOf(SeedOf(attempt, size)))
      requires |variationStats| == attempt && AttemptLog(size, (startX, startY), shuffleOf, tiesOf, variationStats)
      modifies this
      ensures Valid() && |variationStats| == attempt + 1 && variationStats[..attempt] == old(variationStats)
      ensures AttemptLog(size, (startX, startY), shuffleOf, tiesOf, variationStats)
      ensures variationStats[attempt].path == path && variationStats[attempt].successful == success
      ensures |path| > 0 && (success ==> IsTour(size, path))
    {
      var variation := attempt % 3;
      var randomSeed := SeedOf(attempt, size);
      BoardOfEmpty(size);
      board := Blank(size);
      path := [];
      var movePreferences := shuffleOf(randomSeed);
      success := SolveWithWarnsdorffVariation(startX, startY, variation, movePreferences, tiesOf(randomSeed));
      var info := AttemptRecord(attempt + 1, variation, randomSeed, movePreferences, (startX, startY),
                                success, |path|, path);
      AttemptLogAppend(size, (startX, startY), shuffleOf, tiesOf, variationStats, info);
      variationStats := variationStats + [info];
      assert variationStats[..attempt] == old(variationStats);
      if success {
        WarnsdorffSuccessIsTour(size, (startX, startY), movePreferences, VariationStrategy(variation),
                                tiesOf(randomSeed), path);
      }
    }

    /** Up to `maxAttempts` walks from the start cell on a fresh board, the
        i-th with variation i % 3 and the preference order and tie-breaks of
        seed i + 1000 * size; it stops at the first successful walk whose
        fingerprint no earlier attempt produced. */
    method SolveWithMultipleWarnsdorffAttempts(startX: int, startY: int, maxAttempts: nat,
                                               shuffleOf: int -> seq<int>, tiesOf: int -> (nat, nat) -> real,
                                               hash: ((seq<Pos>, seq<Pos>)) -> int)
      returns (ok: bool)
      requires Valid() && InBoard(size, (startX, startY))
      requires forall seed :: IsPermutation(shuffleOf(seed))
      modifies this
      ensures Valid() && |variationStats| <= maxAttempts
      ensures AttemptLog(size, (startX, startY), shuffleOf, tiesOf, variationStats)
      ensures |variationStats| > 0 ==> NoneNovelBefore(hash, variationStats, |variationStats| - 1)
      ensures ok <==> |variationStats| > 0 && NovelSuccess(hash, variationStats, |variationStats| - 1)
      ensures !ok ==> |variationStats| == maxAttempts
      ensures |variationStats| > 0 ==> path == variationStats[|variationStats| - 1].path
      ensures ok ==> IsTour(size, path)
      ensures ok ==> forall j :: 0 <= j < |variationStats| - 1 ==> variationStats[j].path != path
      ensures maxAttempts == 0 ==> path == old(path) && board == old(board)
    {
      variationStats := [];
      var attemptedPaths: set<int> := {};
      for attempt := 0 to maxAttempts
        invariant Valid() && |variationStats| == attempt
        invariant AttemptLog(size, (startX, startY), shuffleOf, tiesOf, variationStats)
        invariant forall j :: 0 <= j < attempt ==> |variationStats[j].path| > 0
        invariant NoneNovelBefore(hash, variationStats, attempt)
        invariant attemptedPaths == Fingerprints(hash, variationStats, attempt)
        invariant attempt > 0 ==> path == variationStats[attempt - 1].path
        invariant attempt == 0 ==> path == old(path) && board == old(board)
      {
        ghost var before := variationStats;
        var success := RunAttempt(attempt, startX, startY, shuffleOf, tiesOf);
        RecordAttempt(hash, before, variationStats[attempt], attemptedPaths);
        assert variationStats == before + [variationStats[attempt]];
        if success && PathHash(hash, path) !in attemptedPaths {
          return true;
        }
        if |path| > 0 {
          attemptedPaths := attemptedPaths + {PathHash(hash, path)};
        }
      }
      ok := false;
    }

    /** The scan of the backtracking search's inner loop: offsets cursor,
        cursor + 1, ... are tried from (x, y), and the first one reaching a
        valid cell is returned, or 8 when none does. */
    method FindOpenOffset(x: int, y: int, cursor: int) returns (i: int)
      requires IsGrid(size, board) && 0 <= cursor <= 8
      ensures cursor <= i <= 8
      ensures forall k :: cursor <= k < i ==> !OffsetOpen(size, board, (x, y), k)
      ensures i < 8 ==> OffsetOpen(size, board, (x, y), i)
    {
      i := cursor;
      while i < 8 && !IsValidMove(size, board, x + MovesX[i], y + MovesY[i])
        invariant cursor <= i <= 8
        invariant forall k :: cursor <= k < i ==> !OffsetOpen(size, board, (x, y), k)
      {
        i := i + 1;
      }
    }

    /** Moving forward along offset i from the top frame (move_count, x, y):
        the top frame's cursor moves past i, the target cell is numbered
        move_count on the board and appended to the path, and a frame for it
        with cursor 0 is pushed. */
    method PushFrame(stack: seq<Frame>, i: int, ghost n: nat) returns (next: seq<Frame>)
      requires Valid() && StackMatchesPath(stack, path) && 0 < |stack| < n && CursorsInRange(stack)
      requires var top := stack[|stack| - 1];
        top.cursor <= i < 8 && OffsetOpen(size, board, (top.x, top.y), i)
      modifies this
      ensures Valid() && variationStats == old(variationStats)
      ensures var top := stack[|stack| - 1];
        var q := Target((top.x, top.y), i);
        && path == old(path) + [q] && board == Place(old(board), q, top.moveCount)
        && next == stack[|stack| - 1 := Frame(top.moveCount, top.x, top.y, i + 1)]
                   + [Frame(top.moveCount + 1, q.0, q.1, 0)]
      ensures StackMatchesPath(next, path) && CursorsInRange(next) && Rank(stack, n) < Rank(next, n)
    {
      var Frame(moveCount, currX, currY, _) := stack[|stack| - 1];
      var nextX := currX + MovesX[i];
      var nextY := currY + MovesY[i];
      StackPush(stack, path, i, (nextX, nextY), n);
      ValidMoveIffUnvisited(size, path, nextX, nextY);
      next := stack[|stack| - 1 := Frame(moveCount, currX, currY, i + 1)];
      Visit((nextX, nextY), moveCount);
      next := next + [Frame(moveCount + 1, nextX, nextY, 0)];
    }

    /** Backtracking from a dead end: the top frame is popped and, unless
        the stack is then empty, the path's last cell is removed and cleared
        on the board. */
    method PopFrame(stack: seq<Frame>, ghost n: nat) returns (rest: seq<Frame>)
      requires Valid() && StackMatchesPath(stack, path) && 0 < |stack| <= n && CursorsInRange(stack)
      modifies this
      ensures Valid() && variationStats == old(variationStats)
      ensures rest == stack[..|stack| - 1] && CursorsInRange(rest) && Rank(stack, n) < Rank(rest, n)
      ensures rest != [] ==> StackMatchesPath(rest, path) && path == old(path)[..|old(path)| - 1]
      ensures rest == [] ==> path == old(path) && board == old(board)
    {
      PopRaisesRank(stack, n);
      rest := stack[..|stack| - 1];
      if rest != [] {
        StackPop(stack, path);
        Unvisit();
      }
    }

    /** Iterative backtracking search for a tour from the start cell: each
        stack frame holds a cell of the path and the next offset to try from
        it. On failure the board and path are cleared. */
    method Solve(startX: int, startY: int) returns (ok: bool)
      requires Valid() && path == [] && InBoard(size, (startX, startY))
      modifies this
      ensures Valid() && variationStats == old(variationStats)
      ensures ok ==> IsTour(size, path) && path[0] == (startX, startY)
      ensures !ok ==> path == [] && board == Blank(size)
    {
      ghost var n := size * size;
      VisitKeepsPath(size, [], (startX, startY));
      assert [] + [(startX, startY)] == [(startX, startY)];
      board := board[startX := board[startX][startY := 0]];
      path := [(startX, startY)];
      var stack := [Frame(1, startX, startY, 0)];
      while stack != []
        invariant Valid() && variationStats == old(variationStats)
        invariant |path| >= 1 && path[0] == (startX, startY)
        invariant stack != [] ==> StackMatchesPath(stack, path) && |stack| <= n
        invariant stack == [] ==> |path| == 1
        invariant CursorsInRange(stack)
        decreases Pow10(n) - Rank(stack, n)
      {
        var top := stack[|stack| - 1];
        if top.moveCount == size * size {
          StackPathIsKnightPath(stack, path);
          return true;
        }
        var i := FindOpenOffset(top.x, top.y, top.cursor);
        if i < 8 {
          stack := PushFrame(stack, i, n);
        } else {
          stack := PopFrame(stack, n);
        }
        RankBounds(stack, n);
      }
      BoardOfEmpty(size);
      board := Blank(size);
      path := [];
      ok := false;
    }
  }
}
