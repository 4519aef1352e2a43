/** The scoring strategies of the Warnsdorff solver and the order in
    which scores are compared. A score is a tuple of numbers; the candidate
    with the smallest score, in tuple order, is chosen. The random
    tie-break is a real number drawn from [0, 0.1). */
module Scoring {
  import opened Board

  /** The scoring strategies: Random, Center and Corners are the solver's
      three (variation numbers 0, 1, 2); CornersIntended is the corner
      strategy as its description intends it, which no variation number or
      mode name selects. */
  datatype Strategy = Random | Center | Corners | CornersIntended

  /** Tuple comparison `a < b`: the first position where the tuples differ
      decides; if one is a prefix of the other, the shorter is smaller. */
  predicate LexLess(a: seq<real>, b: seq<real>)
    decreases |a|
  {
    if |a| == 0 then |b| > 0
    else if |b| == 0 then false
    else if a[0] != b[0] then a[0] < b[0]
    else LexLess(a[1..], b[1..])
  }

  lemma {:induction false} LexIrreflexive(a: seq<real>)
    ensures !LexLess(a, a)
    decreases |a|
  {
    if |a| > 0 {
      LexIrreflexive(a[1..]);
    }
  }

  lemma {:induction false} LexTransitive(a: seq<real>, b: seq<real>, c: seq<real>)
    requires LexLess(a, b) && LexLess(b, c)
    ensures LexLess(a, c)
    decreases |a|
  {
    if |a| > 0 && |b| > 0 && |c| > 0 && a[0] == b[0] && b[0] == c[0] {
      LexTransitive(a[1..], b[1..], c[1..]);
    }
  }

  /** Tuple order is total: of two different tuples, one is smaller. */
  lemma {:induction false} LexTrichotomy(a: seq<real>, b: seq<real>)
    ensures LexLess(a, b) || a == b || LexLess(b, a)
    decreases |a|
  {
    if |a| > 0 && |b| > 0 && a[0] == b[0] {
      LexTrichotomy(a[1..], b[1..]);
      if a[1..] == b[1..] {
        assert a == [a[0]] + a[1..] && b == [b[0]] + b[1..];
      }
    }
  }

  /** The Manhattan distance from `q` to the centre (size // 2, size // 2). */
  function DistToCenter(size: nat, q: Pos): nat {
    Abs(q.0 - size / 2) + Abs(q.1 - size / 2)
  }

  function Min(a: nat, b: nat): nat {
    if a <= b then a else b
  }

  /** The least Manhattan distance from `q` to one of the four corners. */
  function MinCornerDist(size: nat, q: Pos): (d: nat)
    ensures d <= Abs(q.0) + Abs(q.1) && d <= Abs(q.0) + Abs(q.1 - (size - 1))
    ensures d <= Abs(q.0 - (size - 1)) + Abs(q.1) && d <= Abs(q.0 - (size - 1)) + Abs(q.1 - (size - 1))
    ensures d in {Abs(q.0) + Abs(q.1), Abs(q.0) + Abs(q.1 - (size - 1)),
                  Abs(q.0 - (size - 1)) + Abs(q.1), Abs(q.0 - (size - 1)) + Abs(q.1 - (size - 1))}
  {
    Min(Min(Abs(q.0) + Abs(q.1), Abs(q.0) + Abs(q.1 - (size - 1))),
        Min(Abs(q.0 - (size - 1)) + Abs(q.1), Abs(q.0 - (size - 1)) + Abs(q.1 - (size - 1))))
  }

  /** _score_random: (degree + tie-break,). A tie-break in [0, 0.1) never
      lifts the score to the next degree. */
  function ScoreRandom(degree: nat, rf: real): (sc: seq<real>)
    ensures |sc| == 1
    ensures IsTieBreak(rf) ==> degree as real <= sc[0] < degree as real + 0.1
  {
    [degree as real + rf]
  }

  /** _score_center: (degree, distance to the centre + tie-break). */
  function ScoreCenter(size: nat, q: Pos, degree: nat, rf: real): (sc: seq<real>)
    ensures |sc| == 2 && sc[0] == degree as real
    ensures IsTieBreak(rf) ==> DistToCenter(size, q) as real <= sc[1] < DistToCenter(size, q) as real + 0.1
  {
    [degree as real, DistToCenter(size, q) as real + rf]
  }

  /** _score_corners as written: (degree, -(distance to the nearest corner) + tie-break). */
  function ScoreCornersAsWritten(size: nat, q: Pos, degree: nat, rf: real): (sc: seq<real>)
    ensures |sc| == 2 && sc[0] == degree as real
    ensures IsTieBreak(rf) ==> -(MinCornerDist(size, q) as real) <= sc[1] < -(MinCornerDist(size, q) as real) + 0.1
  {
    [degree as real, -(MinCornerDist(size, q) as real) + rf]
  }

  /** _score_corners as intended: (degree, distance to the nearest corner + tie-break),
      so that among cells of equal degree the one nearer a corner wins. */
  function ScoreCorners(size: nat, q: Pos, degree: nat, rf: real): (sc: seq<real>)
    ensures |sc| == 2 && sc[0] == degree as real
    ensures IsTieBreak(rf) ==> MinCornerDist(size, q) as real <= sc[1] < MinCornerDist(size, q) as real + 0.1
  {
    [degree as real, MinCornerDist(size, q) as real + rf]
  }

  /** The score of candidate `q` under strategy `s`: its first component is
      the degree, up to a tie-break below 0.1 for the random strategy. */
  function ScoreOf(s: Strategy, size: nat, q: Pos, degree: nat, rf: real): (sc: seq<real>)
    ensures |sc| == if s.Random? then 1 else 2
    ensures IsTieBreak(rf) ==> degree as real <= sc[0] < degree as real + 0.1
  {
    match s
    case Random => ScoreRandom(degree, rf)
    case Center => ScoreCenter(size, q, degree, rf)
    case Corners => ScoreCornersAsWritten(size, q, degree, rf)
    case CornersIntended => ScoreCorners(size, q, degree, rf)
  }

  predicate IsTieBreak(rf: real) {
    0.0 <= rf < 0.1
  }

  /** Under every strategy the degree dominates: a candidate of smaller
      degree always scores lower, whatever the tie-breaks and positions. */
  lemma LowerDegreeWins(s: Strategy, size: nat, q1: Pos, d1: nat, r1: real, q2: Pos, d2: nat, r2: real)
    requires d1 < d2 && IsTieBreak(r1) && IsTieBreak(r2)
    ensures LexLess(ScoreOf(s, size, q1, d1, r1), ScoreOf(s, size, q2, d2, r2))
  {
    var a, b := ScoreOf(s, size, q1, d1, r1), ScoreOf(s, size, q2, d2, r2);
    if s.Random? {
      assert (d1 + 1) as real <= d2 as real;
      assert a[0] < b[0];
    } else {
      assert a[0] == d1 as real && b[0] == d2 as real;
    }
  }

  /** Random strategy: between candidates of equal degree, the smaller
      tie-break wins, and only then. */
  lemma RandomTieBreakDecides(size: nat, q1: Pos, q2: Pos, d: nat, r1: real, r2: real)
    ensures LexLess(ScoreOf(Random, size, q1, d, r1), ScoreOf(Random, size, q2, d, r2)) <==> r1 < r2
  {
    var a, b := ScoreOf(Random, size, q1, d, r1), ScoreOf(Random, size, q2, d, r2);
    assert a[1..] == [] && b[1..] == [];
  }

  /** Centre strategy: between candidates of equal degree, the one strictly
      nearer the centre wins whatever the tie-breaks. */
  lemma CenterPrefersCentral(size: nat, q1: Pos, q2: Pos, d: nat, r1: real, r2: real)
    requires DistToCenter(size, q1) < DistToCenter(size, q2) && IsTieBreak(r1) && IsTieBreak(r2)
    ensures LexLess(ScoreOf(Center, size, q1, d, r1), ScoreOf(Center, size, q2, d, r2))
  {
    var a, b := ScoreOf(Center, size, q1, d, r1), ScoreOf(Center, size, q2, d, r2);
    assert (DistToCenter(size, q1) + 1) as real <= DistToCenter(size, q2) as real;
    assert a[1..][0] < b[1..][0];
  }

  /** Corner strategy as intended: between candidates of equal degree, the
      one strictly nearer a corner wins whatever the tie-breaks. */
  lemma CornersPreferCorner(size: nat, q1: Pos, q2: Pos, d: nat, r1: real, r2: real)
    requires MinCornerDist(size, q1) < MinCornerDist(size, q2) && IsTieBreak(r1) && IsTieBreak(r2)
    ensures LexLess(ScoreOf(CornersIntended, size, q1, d, r1), ScoreOf(CornersIntended, size, q2, d, r2))
  {
    var a, b := ScoreOf(CornersIntended, size, q1, d, r1), ScoreOf(CornersIntended, size, q2, d, r2);
    assert (MinCornerDist(size, q1) + 1) as real <= MinCornerDist(size, q2) as real;
    assert a[1..][0] < b[1..][0];
  }

  /** The corner score as written prefers the cell FARTHER from every
      corner: between equal-degree candidates, the one with the larger
      corner distance scores lower. */
  lemma CornersAsWrittenPrefersFarCell(size: nat, q1: Pos, q2: Pos, d: nat, r1: real, r2: real)
    requires MinCornerDist(size, q1) < MinCornerDist(size, q2) && IsTieBreak(r1) && IsTieBreak(r2)
    ensures LexLess(ScoreOf(Corners, size, q2, d, r2), ScoreOf(Corners, size, q1, d, r1))
    ensures !LexLess(ScoreOf(Corners, size, q1, d, r1), ScoreOf(Corners, size, q2, d, r2))
  {
    var a, b := ScoreOf(Corners, size, q1, d, r1), ScoreOf(Corners, size, q2, d, r2);
    assert (MinCornerDist(size, q1) + 1) as real <= MinCornerDist(size, q2) as real;
    assert b[1..][0] < a[1..][0];
  }
}
