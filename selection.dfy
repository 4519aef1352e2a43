/** Warnsdorff move selection: the candidates reachable through the
    preference order, their scores, and the choice of the best one. */
module Selection {
  import opened Board
  import opened Scoring

  datatype Option<T> = None | Some(value: T)

  /** A legal candidate move and its score. */
  datatype Candidate = Candidate(score: seq<real>, pos: Pos)

  /** Every entry of a preference order names one of the eight offsets. */
  predicate ValidPrefs(prefs: seq<int>) {
    forall i :: 0 <= i < |prefs| ==> 0 <= prefs[i] < 8
  }

  /** A preference order that is a permutation of 0..7. */
  predicate IsPermutation(prefs: seq<int>) {
    |prefs| == 8 && ValidPrefs(prefs) && forall k :: 0 <= k < 8 ==> k in prefs
  }

  /** The candidate list built by walking the first n entries of `prefs`
      from `p`: every offset whose target is valid contributes its target,
      scored with its degree and the next tie-break drawn (`ties(j)` for
      the j-th candidate). */
  function Candidates(size: nat, g: Grid, p: Pos, prefs: seq<int>, n: nat, s: Strategy, ties: nat -> real)
    : (cs: seq<Candidate>)
    requires IsGrid(size, g) && ValidPrefs(prefs) && n <= |prefs|
    ensures |cs| <= n
  {
    if n == 0 then []
    else
      var prev := Candidates(size, g, p, prefs, n - 1, s, ties);
      var t := Target(p, prefs[n - 1]);
      if IsValidMove(size, g, t.0, t.1) then
        prev + [Candidate(ScoreOf(s, size, t, Degree(size, g, t), ties(|prev|)), t)]
      else prev
  }

  /** `q` is reached from `p` by one of the first n offsets in `prefs`. */
  ghost predicate Preferred(p: Pos, prefs: seq<int>, n: nat, q: Pos)
    requires ValidPrefs(prefs) && n <= |prefs|
  {
    exists i :: 0 <= i < n && q == Target(p, prefs[i])
  }

  /** Each candidate is the valid target of some preferred offset, scored by
      its degree and its own tie-break. */
  lemma {:induction false} CandidatesSound(size: nat, g: Grid, p: Pos, prefs: seq<int>, n: nat, s: Strategy,
                                           ties: nat -> real, m: nat)
    requires IsGrid(size, g) && ValidPrefs(prefs) && n <= |prefs|
    requires m < |Candidates(size, g, p, prefs, n, s, ties)|
    ensures var c := Candidates(size, g, p, prefs, n, s, ties)[m];
      && IsValidMove(size, g, c.pos.0, c.pos.1)
      && Preferred(p, prefs, n, c.pos)
      && c.score == ScoreOf(s, size, c.pos, Degree(size, g, c.pos), ties(m))
  {
    var prev := Candidates(size, g, p, prefs, n - 1, s, ties);
    var cs := Candidates(size, g, p, prefs, n, s, ties);
    if m < |prev| {
      CandidatesSound(size, g, p, prefs, n - 1, s, ties, m);
      assert cs[m] == prev[m];
      var i :| 0 <= i < n - 1 && prev[m].pos == Target(p, prefs[i]);
    } else {
      assert cs[m].pos == Target(p, prefs[n - 1]);
    }
  }

  /** Every preferred offset whose target is valid yields a candidate. */
  lemma {:induction false} CandidatesComplete(size: nat, g: Grid, p: Pos, prefs: seq<int>, n: nat, s: Strategy,
                                              ties: nat -> real, i: nat)
    requires IsGrid(size, g) && ValidPrefs(prefs) && n <= |prefs|
    requires i < n && OffsetOpen(size, g, p, prefs[i])
    ensures exists m :: (0 <= m < |Candidates(size, g, p, prefs, n, s, ties)| &&
      Candidates(size, g, p, prefs, n, s, ties)[m].pos == Target(p, prefs[i]))
  {
    var prev := Candidates(size, g, p, prefs, n - 1, s, ties);
    var cs := Candidates(size, g, p, prefs, n, s, ties);
    if i < n - 1 {
      CandidatesComplete(size, g, p, prefs, n - 1, s, ties, i);
      var m :| 0 <= m < |prev| && prev[m].pos == Target(p, prefs[i]);
      assert cs[m] == prev[m];
    } else {
      assert cs[|cs| - 1].pos == Target(p, prefs[i]);
    }
  }

  /** `j` is where a stable sort by score puts its first element: no
      candidate scores lower, and every earlier candidate scores higher. */
  predicate IsFirstMin(cs: seq<Candidate>, j: int) {
    && 0 <= j < |cs|
    && (forall i :: 0 <= i < |cs| ==> !LexLess(cs[i].score, cs[j].score))
    && (forall i :: 0 <= i < j ==> LexLess(cs[j].score, cs[i].score))
  }

  lemma FirstMinExtend(cs: seq<Candidate>, j: nat)
    requires |cs| > 1 && IsFirstMin(cs[..|cs| - 1], j)
    ensures IsFirstMin(cs, if LexLess(cs[|cs| - 1].score, cs[j].score) then |cs| - 1 else j)
  {
    var n := |cs| - 1;
    assert forall i :: 0 <= i < n ==> cs[..n][i] == cs[i];
    if LexLess(cs[n].score, cs[j].score) {
      forall i | 0 <= i < |cs|
        ensures !LexLess(cs[i].score, cs[n].score)
      {
        if LexLess(cs[i].score, cs[n].score) {
          LexTransitive(cs[i].score, cs[n].score, cs[j].score);
          if i == n {
            LexIrreflexive(cs[n].score);
          }
        }
      }
      forall i | 0 <= i < n
        ensures LexLess(cs[n].score, cs[i].score)
      {
        LexTrichotomy(cs[j].score, cs[i].score);
        if LexLess(cs[j].score, cs[i].score) {
          LexTransitive(cs[n].score, cs[j].score, cs[i].score);
        }
      }
    } else {
      LexIrreflexive(cs[j].score);
    }
  }

  /** The index of the candidate a stable sort by score puts first
      (moves.sort(key=score); moves[0]). */
  function FirstMin(cs: seq<Candidate>): (j: nat)
    requires |cs| > 0
    ensures IsFirstMin(cs, j)
    decreases |cs|
  {
    if |cs| == 1 then
      LexIrreflexive(cs[0].score);
      0
    else
      var j := FirstMin(cs[..|cs| - 1]);
      FirstMinExtend(cs, j);
      if LexLess(cs[|cs| - 1].score, cs[j].score) then |cs| - 1 else j
  }

  /** The first element after a stable sort is unique: the sort's choice
      does not depend on how ties are broken inside the sort. */
  lemma FirstMinUnique(cs: seq<Candidate>, j1: int, j2: int)
    requires IsFirstMin(cs, j1) && IsFirstMin(cs, j2)
    ensures j1 == j2
  {
    assert !LexLess(cs[j2].score, cs[j1].score) && !LexLess(cs[j1].score, cs[j2].score);
  }

  /** _get_next_move_warnsdorff_generic_detailed: None when no preferred
      offset is open, otherwise the best-scored candidate's cell. */
  function SelectMove(size: nat, g: Grid, p: Pos, prefs: seq<int>, s: Strategy, ties: nat -> real): (r: Option<Pos>)
    requires IsGrid(size, g) && ValidPrefs(prefs)
    ensures var cs := Candidates(size, g, p, prefs, |prefs|, s, ties);
      && (r.None? <==> |cs| == 0)
      && (r.Some? ==> exists j :: IsFirstMin(cs, j) && cs[j].pos == r.value)
  {
    var cs := Candidates(size, g, p, prefs, |prefs|, s, ties);
    if |cs| == 0 then None else Some(cs[FirstMin(cs)].pos)
  }

  /** No move is returned exactly when no preferred offset reaches a valid cell. */
  lemma SelectNoneIff(size: nat, g: Grid, p: Pos, prefs: seq<int>, s: Strategy, ties: nat -> real)
    requires IsGrid(size, g) && ValidPrefs(prefs)
    ensures SelectMove(size, g, p, prefs, s, ties).None? <==>
      forall i :: 0 <= i < |prefs| ==> !OffsetOpen(size, g, p, prefs[i])
  {
    var cs := Candidates(size, g, p, prefs, |prefs|, s, ties);
    if |cs| > 0 {
      CandidatesSound(size, g, p, prefs, |prefs|, s, ties, 0);
      var i :| 0 <= i < |prefs| && cs[0].pos == Target(p, prefs[i]);
      assert OffsetOpen(size, g, p, prefs[i]);
    } else {
      forall i | 0 <= i < |prefs|
        ensures !OffsetOpen(size, g, p, prefs[i])
      {
        if OffsetOpen(size, g, p, prefs[i]) {
          CandidatesComplete(size, g, p, prefs, |prefs|, s, ties, i);
        }
      }
    }
  }

  /** A returned cell is valid and is reached from `p` by a preferred
      offset, hence by a knight move. */
  lemma SelectIsLegal(size: nat, g: Grid, p: Pos, prefs: seq<int>, s: Strategy, ties: nat -> real)
    requires IsGrid(size, g) && ValidPrefs(prefs)
    ensures match SelectMove(size, g, p, prefs, s, ties)
      case None => true
      case Some(q) => IsValidMove(size, g, q.0, q.1) && Preferred(p, prefs, |prefs|, q) && KnightStep(p, q)
  {
    var cs := Candidates(size, g, p, prefs, |prefs|, s, ties);
    if |cs| > 0 {
      var j := FirstMin(cs);
      CandidatesSound(size, g, p, prefs, |prefs|, s, ties, j);
      var i :| 0 <= i < |prefs| && cs[j].pos == Target(p, prefs[i]);
      assert 0 <= prefs[i] < 8;
    }
  }

  /** Warnsdorff's rule: when every tie-break lies in [0, 0.1), the returned
      cell has the least degree among the valid targets of the preferred
      offsets, under every strategy. */
  lemma SelectMinDegree(size: nat, g: Grid, p: Pos, prefs: seq<int>, s: Strategy, ties: nat -> real)
    requires IsGrid(size, g) && ValidPrefs(prefs)
    requires forall j :: IsTieBreak(ties(j))
    ensures match SelectMove(size, g, p, prefs, s, ties)
      case None => true
      case Some(q) => forall i :: 0 <= i < |prefs| && OffsetOpen(size, g, p, prefs[i]) ==>
        Degree(size, g, q) <= Degree(size, g, Target(p, prefs[i]))
  {
    var cs := Candidates(size, g, p, prefs, |prefs|, s, ties);
    if |cs| > 0 {
      var j := FirstMin(cs);
      var q := cs[j].pos;
      CandidatesSound(size, g, p, prefs, |prefs|, s, ties, j);
      forall i | 0 <= i < |prefs| && OffsetOpen(size, g, p, prefs[i])
        ensures Degree(size, g, q) <= Degree(size, g, Target(p, prefs[i]))
      {
        CandidatesComplete(size, g, p, prefs, |prefs|, s, ties, i);
        var m :| 0 <= m < |cs| && cs[m].pos == Target(p, prefs[i]);
        CandidatesSound(size, g, p, prefs, |prefs|, s, ties, m);
        var dm, dq := Degree(size, g, cs[m].pos), Degree(size, g, q);
        if dm < dq {
          LowerDegreeWins(s, size, cs[m].pos, dm, ties(m), q, dq, ties(j));
        }
      }
    }
  }

  /** With a full preference order (a permutation of 0..7), no move is
      returned exactly when the current cell has degree 0. */
  lemma SelectNoneIffStuck(size: nat, g: Grid, p: Pos, prefs: seq<int>, s: Strategy, ties: nat -> real)
    requires IsGrid(size, g) && IsPermutation(prefs)
    ensures SelectMove(size, g, p, prefs, s, ties).None? <==> Degree(size, g, p) == 0
  {
    SelectNoneIff(size, g, p, prefs, s, ties);
    DegreeCountsOpenOffsets(size, g, p);
    if Degree(size, g, p) != 0 {
      var k :| 0 <= k < 8 && OffsetOpen(size, g, p, k);
      assert k in prefs;
      var i :| 0 <= i < |prefs| && prefs[i] == k;
    }
  }

  /** The returned cell's score is not beaten: the target of every open
      preferred offset is a candidate, at some position m of the list, and
      its score with the m-th tie-break is not lower than the returned
      cell's with the tie-break of its own position. */
  lemma SelectMinScore(size: nat, g: Grid, p: Pos, prefs: seq<int>, s: Strategy, ties: nat -> real, i: nat)
    requires IsGrid(size, g) && ValidPrefs(prefs) && i < |prefs| && OffsetOpen(size, g, p, prefs[i])
    ensures SelectMove(size, g, p, prefs, s, ties).Some?
    ensures var cs := Candidates(size, g, p, prefs, |prefs|, s, ties);
      var q := SelectMove(size, g, p, prefs, s, ties).value;
      var t := Target(p, prefs[i]);
      && |cs| > 0 && q == cs[FirstMin(cs)].pos
      && exists m :: 0 <= m < |cs| && cs[m].pos == t
           && !LexLess(cs[m].score, cs[FirstMin(cs)].score)
           && !LexLess(ScoreOf(s, size, t, Degree(size, g, t), ties(m)),
                       ScoreOf(s, size, q, Degree(size, g, q), ties(FirstMin(cs))))
  {
    var cs := Candidates(size, g, p, prefs, |prefs|, s, ties);
    CandidatesComplete(size, g, p, prefs, |prefs|, s, ties, i);
    var m :| 0 <= m < |cs| && cs[m].pos == Target(p, prefs[i]);
    var j := FirstMin(cs);
    CandidatesSound(size, g, p, prefs, |prefs|, s, ties, m);
    CandidatesSound(size, g, p, prefs, |prefs|, s, ties, j);
    assert !LexLess(cs[m].score, cs[j].score);
  }

  /** With every offset in the preference order, some move is returned,
      and it is the target of an offset and has no higher degree than the
      target of any open offset k0. */
  lemma SelectWithinDegree(size: nat, g: Grid, p: Pos, prefs: seq<int>, s: Strategy, ties: nat -> real, k0: int)
    requires IsGrid(size, g) && IsPermutation(prefs) && forall j :: IsTieBreak(ties(j))
    requires 0 <= k0 < 8 && OffsetOpen(size, g, p, k0)
    ensures var r := SelectMove(size, g, p, prefs, s, ties);
      && r.Some?
      && (exists k :: 0 <= k < 8 && r.value == Target(p, k))
      && Degree(size, g, r.value) <= Degree(size, g, Target(p, k0))
  {
    assert k0 in prefs;
    var i :| 0 <= i < |prefs| && prefs[i] == k0;
    SelectNoneIff(size, g, p, prefs, s, ties);
    SelectIsLegal(size, g, p, prefs, s, ties);
    SelectMinDegree(size, g, p, prefs, s, ties);
    var q := SelectMove(size, g, p, prefs, s, ties).value;
    var k :| 0 <= k < |prefs| && q == Target(p, prefs[k]);
    assert 0 <= prefs[k] < 8;
  }

  /** The corner strategy as written never returns the nearer of two open
      targets of equal degree, since the farther one scores lower. */
  lemma CornersAsWrittenAvoidsNearerCell(size: nat, g: Grid, p: Pos, prefs: seq<int>, ties: nat -> real, k1: int, k2: int)
    requires IsGrid(size, g) && IsPermutation(prefs) && forall j :: IsTieBreak(ties(j))
    requires 0 <= k1 < 8 && 0 <= k2 < 8 && OffsetOpen(size, g, p, k1) && OffsetOpen(size, g, p, k2)
    requires var t1, t2 := Target(p, k1), Target(p, k2);
      Degree(size, g, t1) == Degree(size, g, t2) && MinCornerDist(size, t1) < MinCornerDist(size, t2)
    ensures SelectMove(size, g, p, prefs, Corners, ties) != Some(Target(p, k1))
  {
    var t1, t2 := Target(p, k1), Target(p, k2);
    assert k1 in prefs && k2 in prefs;
    var i1 :| 0 <= i1 < |prefs| && prefs[i1] == k1;
    var i2 :| 0 <= i2 < |prefs| && prefs[i2] == k2;
    SelectMinScore(size, g, p, prefs, Corners, ties, i2);
    var q := SelectMove(size, g, p, prefs, Corners, ties).value;
    var cs := Candidates(size, g, p, prefs, |prefs|, Corners, ties);
    var j := FirstMin(cs);
    var m :| 0 <= m < |cs| && cs[m].pos == t2
      && !LexLess(ScoreOf(Corners, size, t2, Degree(size, g, t2), ties(m)),
                  ScoreOf(Corners, size, q, Degree(size, g, q), ties(j)));
    if q == t1 {
      CornersAsWrittenPrefersFarCell(size, t1, t2, Degree(size, g, t1), ties(j), ties(m));
    }
  }

  /** The corner strategy as intended never returns the farther of two open
      targets of equal degree, since the nearer one scores lower. */
  lemma CornersIntendedAvoidsFartherCell(size: nat, g: Grid, p: Pos, prefs: seq<int>, ties: nat -> real, k1: int, k2: int)
    requires IsGrid(size, g) && IsPermutation(prefs) && forall j :: IsTieBreak(ties(j))
    requires 0 <= k1 < 8 && 0 <= k2 < 8 && OffsetOpen(size, g, p, k1) && OffsetOpen(size, g, p, k2)
    requires var t1, t2 := Target(p, k1), Target(p, k2);
      Degree(size, g, t1) == Degree(size, g, t2) && MinCornerDist(size, t1) < MinCornerDist(size, t2)
    ensures SelectMove(size, g, p, prefs, CornersIntended, ties) != Some(Target(p, k2))
  {
    var t1, t2 := Target(p, k1), Target(p, k2);
    assert k1 in prefs && k2 in prefs;
    var i1 :| 0 <= i1 < |prefs| && prefs[i1] == k1;
    var i2 :| 0 <= i2 < |prefs| && prefs[i2] == k2;
    SelectMinScore(size, g, p, prefs, CornersIntended, ties, i1);
    var q := SelectMove(size, g, p, prefs, CornersIntended, ties).value;
    var cs := Candidates(size, g, p, prefs, |prefs|, CornersIntended, ties);
    var j := FirstMin(cs);
    var m :| 0 <= m < |cs| && cs[m].pos == t1
      && !LexLess(ScoreOf(CornersIntended, size, t1, Degree(size, g, t1), ties(m)),
                  ScoreOf(CornersIntended, size, q, Degree(size, g, q), ties(j)));
    if q == t2 {
      CornersPreferCorner(size, t1, t2, Degree(size, g, t1), ties(m), ties(j));
    }
  }

  /** The eight cells a knight's move from (2, 3). */
  lemma StartTargets(c: Pos, k: int)
    requires c == (2, 3) && 0 <= k < 8
    ensures var t := Target(c, k);
      t == (4, 4) || t == (3, 5) || t == (1, 5) || t == (0, 4) || t == (0, 2) || t == (1, 1) || t == (3, 1) || t == (4, 2)
  {
  }

  /** Once (2, 3) alone is visited on an 8x8 board, (0, 4), (0, 2) and
      (1, 1), a knight's move from it, have three open offsets each. */
  lemma StartCountsLow(size: nat, c: Pos)
    requires size == 8 && c == (2, 3)
    ensures OpenCountBeside(size, c, (0, 4), 8) == 3
    ensures OpenCountBeside(size, c, (0, 2), 8) == 3
    ensures OpenCountBeside(size, c, (1, 1), 8) == 3
  {
    OpenCountBesideSum(size, c, (0, 4));
    OpenCountBesideSum(size, c, (0, 2));
    OpenCountBesideSum(size, c, (1, 1));
  }

  /** The five other cells a knight's move from (2, 3) have more. */
  lemma StartCountsHigh(size: nat, c: Pos)
    requires size == 8 && c == (2, 3)
    ensures OpenCountBeside(size, c, (4, 4), 8) == 7
    ensures OpenCountBeside(size, c, (3, 5), 8) == 7
    ensures OpenCountBeside(size, c, (1, 5), 8) == 5
    ensures OpenCountBeside(size, c, (3, 1), 8) == 5
    ensures OpenCountBeside(size, c, (4, 2), 8) == 7
  {
    OpenCountBesideSum(size, c, (4, 4));
    OpenCountBesideSum(size, c, (3, 5));
    OpenCountBesideSum(size, c, (1, 5));
    OpenCountBesideSum(size, c, (3, 1));
    OpenCountBesideSum(size, c, (4, 2));
  }

  /** The cells a knight's move from (2, 3) with at most three open offsets
      are (0, 4), (0, 2) and (1, 1). */
  lemma StartLowTargets(size: nat, c: Pos, k: int)
    requires size == 8 && c == (2, 3) && 0 <= k < 8 && OpenCountBeside(size, c, Target(c, k), 8) <= 3
    ensures var t := Target(c, k);
      t == (0, 4) || t == (0, 2) || t == (1, 1)
  {
    StartTargets(c, k);
    StartCountsHigh(size, c);
  }

  /** Once (2, 3) alone is visited on an 8x8 board, offsets 3, 4 and 5
      from it are open and reach (0, 4), (0, 2) and (1, 1). */
  lemma StartOpenLow(size: nat, c: Pos)
    requires size == 8 && c == (2, 3)
    ensures var g := BoardOf(size, [c]);
      && Target(c, 3) == (0, 4) && Target(c, 4) == (0, 2) && Target(c, 5) == (1, 1)
      && OffsetOpen(size, g, c, 3) && OffsetOpen(size, g, c, 4) && OffsetOpen(size, g, c, 5)
  {
    OffsetOpenAfterStart(size, c, c, 3);
    OffsetOpenAfterStart(size, c, c, 4);
    OffsetOpenAfterStart(size, c, c, 5);
  }

  /** Those three cells have degree 3; (0, 4) is three steps from its
      nearest corner, (0, 2) and (1, 1) two. */
  lemma StartLowDegrees(size: nat, c: Pos)
    requires size == 8 && c == (2, 3)
    ensures var g := BoardOf(size, [c]);
      && Degree(size, g, (0, 4)) == 3 && Degree(size, g, (0, 2)) == 3 && Degree(size, g, (1, 1)) == 3
      && MinCornerDist(size, (0, 4)) == 3 && MinCornerDist(size, (0, 2)) == 2 && MinCornerDist(size, (1, 1)) == 2
  {
    DegreeAfterStart(size, c, (0, 4), 8);
    DegreeAfterStart(size, c, (0, 2), 8);
    DegreeAfterStart(size, c, (1, 1), 8);
    StartCountsLow(size, c);
  }

  /** Whatever the strategy, preference order and tie-breaks, the first
      move from (2, 3) on a blank 8x8 board is one of (0, 4), (0, 2) and
      (1, 1), its least-degree targets. */
  lemma StartLeastDegreeMove(size: nat, c: Pos, prefs: seq<int>, s: Strategy, ties: nat -> real) returns (q: Pos)
    requires size == 8 && c == (2, 3)
    requires IsPermutation(prefs) && forall j :: IsTieBreak(ties(j))
    ensures SelectMove(size, BoardOf(size, [c]), c, prefs, s, ties) == Some(q)
    ensures q == (0, 4) || q == (0, 2) || q == (1, 1)
  {
    var g := BoardOf(size, [c]);
    StartOpenLow(size, c);
    StartLowDegrees(size, c);
    SelectWithinDegree(size, g, c, prefs, s, ties, 3);
    q := SelectMove(size, g, c, prefs, s, ties).value;
    var k :| 0 <= k < 8 && q == Target(c, k);
    DegreeAfterStart(size, c, q, 8);
    StartLowTargets(size, c, k);
  }

  /** The corner strategy as written, on the first move from (2, 3) of a
      blank 8x8 board: whatever the preference order and tie-breaks, it
      picks (0, 4), three steps from its nearest corner, over (0, 2) and
      (1, 1), two steps from theirs, although all three have degree 3 and
      the other five targets a higher one. */
  lemma StartCornersPicksFarCell(size: nat, c: Pos, prefs: seq<int>, ties: nat -> real)
    requires size == 8 && c == (2, 3)
    requires IsPermutation(prefs) && forall j :: IsTieBreak(ties(j))
    ensures SelectMove(size, BoardOf(size, [c]), c, prefs, Corners, ties) == Some((0, 4))
  {
    var g := BoardOf(size, [c]);
    var q := StartLeastDegreeMove(size, c, prefs, Corners, ties);
    StartOpenLow(size, c);
    StartLowDegrees(size, c);
    CornersAsWrittenAvoidsNearerCell(size, g, c, prefs, ties, 4, 3);
    CornersAsWrittenAvoidsNearerCell(size, g, c, prefs, ties, 5, 3);
  }

  /** The corner strategy as intended, on the same move: it never picks
      (0, 4), but one of (0, 2) and (1, 1), the least-degree moves nearest
      a corner. */
  lemma StartCornersIntendedPicksNearCell(size: nat, c: Pos, prefs: seq<int>, ties: nat -> real)
    requires size == 8 && c == (2, 3)
    requires IsPermutation(prefs) && forall j :: IsTieBreak(ties(j))
    ensures var r := SelectMove(size, BoardOf(size, [c]), c, prefs, CornersIntended, ties);
      r == Some((0, 2)) || r == Some((1, 1))
  {
    var g := BoardOf(size, [c]);
    var q := StartLeastDegreeMove(size, c, prefs, CornersIntended, ties);
    StartOpenLow(size, c);
    StartLowDegrees(size, c);
    CornersIntendedAvoidsFartherCell(size, g, c, prefs, ties, 4, 3);
  }
}
