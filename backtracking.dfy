/** The frame stack of the iterative backtracking search: what the stack
    says about the path, and a rank over the stack's cursors that every
    step of the search raises, so that the search ends. */
module Backtracking {
  import opened Board

  /** A search frame (move_count, x, y, i): the cell visited at order
      move_count - 1 and the next offset to try from it. */
  datatype Frame = Frame(moveCount: int, x: int, y: int, cursor: int)

  /** The stack and the path grow and shrink together: frame k stands for
      cell k of the path, at move count k + 1, with a cursor in 0..8; below
      the top, a frame's cursor is one past the offset that led to the next
      cell. */
  ghost predicate StackMatchesPath(stack: seq<Frame>, path: seq<Pos>) {
    && |stack| == |path|
    && (forall k {:trigger stack[k]} :: 0 <= k < |stack| ==>
          stack[k].moveCount == k + 1 && (stack[k].x, stack[k].y) == path[k] && 0 <= stack[k].cursor <= 8)
    && (forall k {:trigger stack[k]} :: 0 <= k < |stack| - 1 ==>
          1 <= stack[k].cursor && path[k + 1] == Target(path[k], stack[k].cursor - 1))
  }

  /** The path held by a well-formed stack is a knight path. */
  lemma StackPathIsKnightPath(stack: seq<Frame>, path: seq<Pos>)
    requires StackMatchesPath(stack, path)
    ensures IsKnightPath(path)
  {
    forall k | 0 < k < |path|
      ensures KnightStep(path[k - 1], path[k])
    {
      var c := stack[k - 1].cursor - 1;
      assert path[k] == Target(path[k - 1], c);
    }
  }

  predicate CursorsInRange(stack: seq<Frame>) {
    forall k :: 0 <= k < |stack| ==> 0 <= stack[k].cursor <= 8
  }

  /** Digit k of the rank: frame k's cursor, or 9 above the top of the stack. */
  function Digit(stack: seq<Frame>, k: nat): int {
    if k < |stack| then stack[k].cursor else 9
  }

  /** Digits 0..n-1 read as a number in base 10. */
  function Rank(stack: seq<Frame>, n: nat): int {
    if n == 0 then 0 else 10 * Rank(stack, n - 1) + Digit(stack, n - 1)
  }

  function Pow10(n: nat): (r: nat)
    ensures r >= 1
  {
    if n == 0 then 1 else 10 * Pow10(n - 1)
  }

  lemma {:induction false} RankBounds(stack: seq<Frame>, n: nat)
    requires CursorsInRange(stack)
    ensures 0 <= Rank(stack, n) < Pow10(n)
  {
    if n > 0 {
      RankBounds(stack, n - 1);
    }
  }

  lemma {:induction false} RankAgrees(s1: seq<Frame>, s2: seq<Frame>, n: nat)
    requires forall k :: 0 <= k < n ==> Digit(s1, k) == Digit(s2, k)
    ensures Rank(s1, n) == Rank(s2, n)
  {
    if n > 0 {
      RankAgrees(s1, s2, n - 1);
    }
  }

  /** The rank orders stacks lexicographically by their digits. */
  lemma {:induction false} RankLexicographic(s1: seq<Frame>, s2: seq<Frame>, m: nat, n: nat)
    requires CursorsInRange(s1) && CursorsInRange(s2) && m < n
    requires forall k :: 0 <= k < m ==> Digit(s1, k) == Digit(s2, k)
    requires Digit(s1, m) < Digit(s2, m)
    ensures Rank(s1, n) < Rank(s2, n)
  {
    if n == m + 1 {
      RankAgrees(s1, s2, m);
    } else {
      RankLexicographic(s1, s2, m, n - 1);
    }
  }

  /** Trying the next offset and pushing the cell it reaches raises the rank. */
  lemma PushRaisesRank(stack: seq<Frame>, top: Frame, child: Frame, n: nat)
    requires CursorsInRange(stack) && 0 < |stack| < n
    requires stack[|stack| - 1].cursor < top.cursor <= 8 && child.cursor == 0
    ensures Rank(stack, n) < Rank(stack[|stack| - 1 := top] + [child], n)
  {
    var s2 := stack[|stack| - 1 := top] + [child];
    RankLexicographic(stack, s2, |stack| - 1, n);
  }

  /** Popping an exhausted frame raises the rank. */
  lemma PopRaisesRank(stack: seq<Frame>, n: nat)
    requires CursorsInRange(stack) && 0 < |stack| <= n
    ensures Rank(stack, n) < Rank(stack[..|stack| - 1], n)
  {
    RankLexicographic(stack, stack[..|stack| - 1], |stack| - 1, n);
  }

  /** Trying offset `i` from the top frame and pushing the cell `q` it
      reaches keeps the stack matched with the extended path, and raises
      the rank. */
  lemma StackPush(stack: seq<Frame>, path: seq<Pos>, i: int, q: Pos, n: nat)
    requires StackMatchesPath(stack, path) && 0 < |stack| < n
    requires stack[|stack| - 1].cursor <= i < 8 && q == Target(path[|path| - 1], i)
    ensures var top := stack[|stack| - 1];
      var s2 := stack[|stack| - 1 := Frame(top.moveCount, top.x, top.y, i + 1)]
                + [Frame(top.moveCount + 1, q.0, q.1, 0)];
      StackMatchesPath(s2, path + [q]) && CursorsInRange(s2) && Rank(stack, n) < Rank(s2, n)
  {
    var top := stack[|stack| - 1];
    var t2 := Frame(top.moveCount, top.x, top.y, i + 1);
    var child := Frame(top.moveCount + 1, q.0, q.1, 0);
    var s2 := stack[|stack| - 1 := t2] + [child];
    PushRaisesRank(stack, t2, child, n);
    assert StackMatchesPath(s2, path + [q]);
  }

  /** Popping the top frame keeps the stack matched with the path less its
      last cell. */
  lemma StackPop(stack: seq<Frame>, path: seq<Pos>)
    requires StackMatchesPath(stack, path) && |stack| > 1
    ensures StackMatchesPath(stack[..|stack| - 1], path[..|path| - 1])
  {
  }
}
