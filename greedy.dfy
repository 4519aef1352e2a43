/** The single-attempt Warnsdorff walk, as a property of its outcome: the
    path starts at the start cell, each later cell is the move chosen
    after the cells before it, and the walk stops either with every cell
    visited or where no move is chosen. The walk is stated for any way of
    choosing the next cell (a Chooser), and WarnsdorffChoice is the
    move selection of the solver: its choice from the last cell on the
    board recording the path. */
module Greedy {
  import opened Board
  import opened Scoring
  import opened Selection

  /** The tie-breaks drawn at step `step`: the j-th for the j-th candidate. */
  function TiesAt(tie: (nat, nat) -> real, step: nat): nat -> real {
    (j: nat) => tie(step, j)
  }

  /** How a walk picks its next cell: given the path so far, the cell to
      move to, or None where it is stuck. */
  type Chooser = seq<Pos> -> Option<Pos>

  /** The solver's move after `p`: the selection's move from the last
      cell of `p` on the board recording `p` (move_count == |p|), with the
      tie-breaks of that step. */
  function WarnsdorffNext(size: nat, prefs: seq<int>, s: Strategy, tie: (nat, nat) -> real, p: seq<Pos>): Option<Pos>
    requires ValidPrefs(prefs)
  {
    if |p| == 0 then None
    else SelectMove(size, BoardOf(size, p), p[|p| - 1], prefs, s, TiesAt(tie, |p|))
  }

  /** The solver's way of choosing, as a Chooser. */
  function WarnsdorffChoice(size: nat, prefs: seq<int>, s: Strategy, tie: (nat, nat) -> real): Chooser
    requires ValidPrefs(prefs)
  {
    (p: seq<Pos>) => WarnsdorffNext(size, prefs, s, tie, p)
  }

  /** Every cell `choose` picks after a non-empty path is an unvisited cell
      of the board a knight's move from the path's last cell. */
  ghost predicate LegalChooser(size: nat, choose: Chooser) {
    forall p: seq<Pos> {:trigger choose(p)} :: |p| >= 1 && choose(p).Some? ==>
      InBoard(size, choose(p).value) && choose(p).value !in p && KnightStep(p[|p| - 1], choose(p).value)
  }

  /** The selection only ever moves a knight's move to a free cell: on the
      board recording the path, the free cells are those off the path. */
  lemma WarnsdorffChoiceIsLegal(size: nat, prefs: seq<int>, s: Strategy, tie: (nat, nat) -> real)
    requires ValidPrefs(prefs)
    ensures LegalChooser(size, WarnsdorffChoice(size, prefs, s, tie))
  {
    var choose := WarnsdorffChoice(size, prefs, s, tie);
    forall p: seq<Pos> | |p| >= 1 && choose(p).Some?
      ensures InBoard(size, choose(p).value) && choose(p).value !in p && KnightStep(p[|p| - 1], choose(p).value)
    {
      var q := choose(p).value;
      SelectIsLegal(size, BoardOf(size, p), p[|p| - 1], prefs, s, TiesAt(tie, |p|));
      ValidMoveIffUnvisited(size, p, q.0, q.1);
    }
  }

  /** Cell k of `path` is the cell chosen after the cells before it. */
  ghost predicate StepChosen(choose: Chooser, path: seq<Pos>, k: nat)
    requires 1 <= k < |path|
  {
    choose(path[..k]) == Some(path[k])
  }

  /** `path` and `ok` are an outcome of the walk from `start`. */
  ghost predicate Outcome(size: nat, start: Pos, choose: Chooser, path: seq<Pos>, ok: bool) {
    && 1 <= |path| && path[0] == start && InBoard(size, start)
    && (forall k {:trigger StepChosen(choose, path, k)} :: 1 <= k < |path| ==> StepChosen(choose, path, k))
    && (ok ==> |path| == size * size)
    && (!ok ==> |path| < size * size && choose(path).None?)
  }

  /** `path` and `ok` are the outcome of _solve_with_warnsdorff_variation's
      walk from `start`. */
  ghost predicate WarnsdorffRun(size: nat, start: Pos, prefs: seq<int>, s: Strategy, tie: (nat, nat) -> real,
                                path: seq<Pos>, ok: bool)
    requires ValidPrefs(prefs)
  {
    Outcome(size, start, WarnsdorffChoice(size, prefs, s, tie), path, ok)
  }

  /** The walk continued from `path` for at most `steps` more moves: it
      fails where no move is chosen and succeeds once every remaining move
      is made. */
  function WalkFrom(choose: Chooser, path: seq<Pos>, steps: nat): (r: (seq<Pos>, bool))
    ensures path <= r.0 && |r.0| <= |path| + steps
    ensures r.1 <==> |r.0| == |path| + steps
    decreases steps
  {
    if steps == 0 then (path, true)
    else
      match choose(path)
      case None => (path, false)
      case Some(q) => WalkFrom(choose, path + [q], steps - 1)
  }

  /** Appending the cell chosen after `path` keeps every step chosen. */
  lemma StepsExtend(choose: Chooser, path: seq<Pos>, q: Pos)
    requires forall k {:trigger StepChosen(choose, path, k)} :: 1 <= k < |path| ==> StepChosen(choose, path, k)
    requires choose(path) == Some(q)
    ensures forall k {:trigger StepChosen(choose, path + [q], k)} :: 1 <= k < |path + [q]| ==> StepChosen(choose, path + [q], k)
  {
    var p := path + [q];
    forall k | 1 <= k < |p|
      ensures StepChosen(choose, p, k)
    {
      if k < |path| {
        assert StepChosen(choose, path, k);
        assert p[..k] == path[..k];
      } else {
        assert p[..k] == path;
      }
    }
  }

  /** Continuing a partial walk gives an outcome of the walk. */
  lemma {:induction false} WalkFromIsOutcome(size: nat, start: Pos, choose: Chooser, path: seq<Pos>, steps: nat,
                                             walked: seq<Pos>, ok: bool)
    requires |path| >= 1 && path[0] == start && InBoard(size, start)
    requires |path| + steps == size * size
    requires forall k {:trigger StepChosen(choose, path, k)} :: 1 <= k < |path| ==> StepChosen(choose, path, k)
    requires WalkFrom(choose, path, steps) == (walked, ok)
    ensures Outcome(size, start, choose, walked, ok)
    decreases steps
  {
    if steps != 0 && choose(path).Some? {
      var q := choose(path).value;
      StepsExtend(choose, path, q);
      WalkFromIsOutcome(size, start, choose, path + [q], steps - 1, walked, ok);
    }
  }

  /** The walk computed from the start cell is an outcome of the walk. */
  lemma WalkIsOutcome(size: nat, start: Pos, choose: Chooser, walked: seq<Pos>, ok: bool)
    requires InBoard(size, start)
    requires WalkFrom(choose, [start], size * size - 1) == (walked, ok)
    ensures Outcome(size, start, choose, walked, ok)
  {
    WalkFromIsOutcome(size, start, choose, [start], size * size - 1, walked, ok);
  }

  /** One chosen step extends a prefix of distinct cells of the board by
      a knight's move to a new cell of the board. */
  lemma ChosenPrefixStep(size: nat, choose: Chooser, path: seq<Pos>, k: nat)
    requires LegalChooser(size, choose) && 1 <= k < |path|
    requires OnBoard(size, path[..k]) && Distinct(path[..k])
    requires StepChosen(choose, path, k)
    ensures OnBoard(size, path[..k + 1]) && Distinct(path[..k + 1]) && KnightStep(path[k - 1], path[k])
  {
    var pre := path[..k];
    assert pre[k - 1] == path[k - 1];
    assert choose(pre) == Some(path[k]);
    VisitKeepsPath(size, pre, path[k]);
    PrefixExtend(path, k);
  }

  /** Every prefix of a path of chosen steps from a cell of the board is a
      sequence of distinct cells of the board. */
  lemma {:induction false} ChosenPrefixShape(size: nat, choose: Chooser, path: seq<Pos>, n: nat)
    requires LegalChooser(size, choose) && 1 <= n <= |path| && InBoard(size, path[0])
    requires forall k {:trigger StepChosen(choose, path, k)} :: 1 <= k < |path| ==> StepChosen(choose, path, k)
    ensures OnBoard(size, path[..n]) && Distinct(path[..n])
  {
    if n == 1 {
      assert path[..1] == [path[0]];
    } else {
      ChosenPrefixShape(size, choose, path, n - 1);
      ChosenPrefixStep(size, choose, path, n - 1);
    }
  }

  /** The walk's path is a knight path of distinct cells on the board. */
  lemma WarnsdorffRunShape(size: nat, start: Pos, prefs: seq<int>, s: Strategy, tie: (nat, nat) -> real,
                           path: seq<Pos>, ok: bool)
    requires ValidPrefs(prefs) && WarnsdorffRun(size, start, prefs, s, tie, path, ok)
    ensures OnBoard(size, path) && Distinct(path) && IsKnightPath(path)
  {
    var choose := WarnsdorffChoice(size, prefs, s, tie);
    WarnsdorffChoiceIsLegal(size, prefs, s, tie);
    ChosenPrefixShape(size, choose, path, |path|);
    assert path[..|path|] == path;
    forall k | 0 < k < |path|
      ensures KnightStep(path[k - 1], path[k])
    {
      ChosenPrefixShape(size, choose, path, k);
      ChosenPrefixStep(size, choose, path, k);
    }
  }

  /** A successful walk is a knight's tour and visits every cell. */
  lemma WarnsdorffSuccessIsTour(size: nat, start: Pos, prefs: seq<int>, s: Strategy, tie: (nat, nat) -> real,
                                path: seq<Pos>)
    requires ValidPrefs(prefs) && WarnsdorffRun(size, start, prefs, s, tie, path, true)
    ensures IsTour(size, path)
    ensures forall x, y :: 0 <= x < size && 0 <= y < size ==> (x, y) in path
  {
    WarnsdorffRunShape(size, start, prefs, s, tie, path, true);
    FullPathCoversBoard(size, path);
  }

  /** A failed walk stops at a cell of degree 0: with a full preference
      order, failure happens exactly when no legal move exists. */
  lemma WarnsdorffFailureIsStuck(size: nat, start: Pos, prefs: seq<int>, s: Strategy, tie: (nat, nat) -> real,
                                 path: seq<Pos>)
    requires IsPermutation(prefs) && WarnsdorffRun(size, start, prefs, s, tie, path, false)
    ensures |path| < size * size && Degree(size, BoardOf(size, path), path[|path| - 1]) == 0
  {
    SelectNoneIffStuck(size, BoardOf(size, path), path[|path| - 1], prefs, s, TiesAt(tie, |path|));
  }

  /** An outcome of the walk is what WalkFrom computes from each of its
      prefixes, with the remaining moves still to make. */
  lemma {:induction false} OutcomeIsWalkFrom(size: nat, start: Pos, choose: Chooser, path: seq<Pos>, ok: bool,
                                             m: nat, steps: nat)
    requires Outcome(size, start, choose, path, ok)
    requires 1 <= m <= |path| && m + steps == size * size
    ensures WalkFrom(choose, path[..m], steps) == (path, ok)
    decreases steps
  {
    if m == |path| {
      assert path[..m] == path;
    } else {
      assert StepChosen(choose, path, m);
      PrefixExtend(path, m);
      OutcomeIsWalkFrom(size, start, choose, path, ok, m + 1, steps - 1);
    }
  }

  /** Determinism: the way of choosing fixes the walk, path and result
      (for the solver: the preference order, the strategy and the
      tie-breaks). */
  lemma OutcomeDeterministic(size: nat, start: Pos, choose: Chooser, p1: seq<Pos>, ok1: bool, p2: seq<Pos>, ok2: bool)
    requires Outcome(size, start, choose, p1, ok1) && Outcome(size, start, choose, p2, ok2)
    ensures p1 == p2 && ok1 == ok2
  {
    OutcomeIsWalkFrom(size, start, choose, p1, ok1, 1, size * size - 1);
    OutcomeIsWalkFrom(size, start, choose, p2, ok2, 1, size * size - 1);
    assert p1[..1] == [start] == p2[..1];
  }

  /** The specification has exactly one outcome: the one WalkFrom computes
      from the start cell. */
  lemma OutcomeIsWalk(size: nat, start: Pos, choose: Chooser, path: seq<Pos>, ok: bool)
    requires InBoard(size, start)
    ensures Outcome(size, start, choose, path, ok) <==> (path, ok) == WalkFrom(choose, [start], size * size - 1)
  {
    var w := WalkFrom(choose, [start], size * size - 1);
    WalkIsOutcome(size, start, choose, w.0, w.1);
    if Outcome(size, start, choose, path, ok) {
      OutcomeIsWalkFrom(size, start, choose, path, ok, 1, size * size - 1);
      assert path[..1] == [start];
    }
  }
}
