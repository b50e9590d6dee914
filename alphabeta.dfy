/** What the Minimax AI computes, as values: the move orders its shuffles
    produce, the score of a finished or depth-limited position, the
    fail-soft alpha-beta search exactly as it prunes, the full minimax value
    over the same move orders, and the move the root loop settles on. */
module AlphaBeta {
  import opened Boards
  import opened Games
  import opened Heuristic

  /** Integer.MIN_VALUE and Integer.MAX_VALUE: the scores of a loss and a win. */
  const MIN: int := -2147483648
  const MAX: int := 2147483647

  function Max(x: int, y: int): int {
    if x >= y then x else y
  }

  /** The source of every shuffle: given the moves played since the root, the
      values that node's Random would draw. */
  type Rng = seq<Move> -> seq<int>

  /** Random.nextInt(bound) at the t-th draw: that draw reduced into
      [0, bound), or 0 once the draws run out. */
  function Pick(draws: seq<int>, t: int, bound: int): (j: int)
    requires bound > 0
    ensures 0 <= j < bound
  {
    if 0 <= t < |draws| then draws[t] % bound else 0
  }

  /** The list with the elements at i and j exchanged. */
  function Swap(s: seq<Move>, i: int, j: int): (r: seq<Move>)
    requires 0 <= i < |s| && 0 <= j < |s|
    ensures |r| == |s|
  {
    s[i := s[j]][j := s[i]]
  }

  lemma SwapPermutes(s: seq<Move>, i: int, j: int)
    requires 0 <= i < |s| && 0 <= j < |s|
    ensures multiset(Swap(s, i, j)) == multiset(s)
  {
    var t := s[i := s[j]];
    assert multiset(t) == multiset(s) - multiset{s[i]} + multiset{s[j]};
    assert t[j] == s[j];
    assert multiset(Swap(s, i, j)) == multiset(t) - multiset{s[j]} + multiset{s[i]};
  }

  /** Collections.shuffle on a random-access list: for i from the size down
      to 2, the element at i - 1 is swapped with the one at nextInt(i).
      FisherYates(s, draws, i) carries out the passes from i down. */
  function FisherYates(s: seq<Move>, draws: seq<int>, i: nat): seq<Move>
    requires i <= |s|
    decreases i
  {
    if i <= 1 then s
    else FisherYates(Swap(s, i - 1, Pick(draws, |s| - i, i)), draws, i - 1)
  }

  function Shuffled(s: seq<Move>, draws: seq<int>): seq<Move> {
    FisherYates(s, draws, |s|)
  }

  lemma {:induction false} FisherYatesPermutes(s: seq<Move>, draws: seq<int>, i: nat)
    requires i <= |s|
    ensures |FisherYates(s, draws, i)| == |s|
    ensures multiset(FisherYates(s, draws, i)) == multiset(s)
    decreases i
  {
    if i > 1 {
      var j := Pick(draws, |s| - i, i);
      SwapPermutes(s, i - 1, j);
      FisherYatesPermutes(Swap(s, i - 1, j), draws, i - 1);
    }
  }

  /** Whatever the draws, a shuffle is a permutation: the same moves, each
      as often as before. */
  lemma ShuffledPermutes(s: seq<Move>, draws: seq<int>)
    ensures |Shuffled(s, draws)| == |s|
    ensures multiset(Shuffled(s, draws)) == multiset(s)
    ensures forall m :: m in Shuffled(s, draws) <==> m in s
  {
    FisherYatesPermutes(s, draws, |s|);
    assert forall m :: m in Shuffled(s, draws) <==> m in multiset(Shuffled(s, draws));
  }

  /** The order a node tries its moves in: getMoves, shuffled by that node's draws. */
  function Order(s: State, rng: Rng, hist: seq<Move>): seq<Move>
    requires IsSquare(s.board)
  {
    Shuffled(LegalMoves(s.board), rng(hist))
  }

  /** A node tries exactly the legal moves, so every makeMove on a copy succeeds. */
  lemma OrderLegal(s: State, rng: Rng, hist: seq<Move>)
    requires IsSquare(s.board)
    ensures forall m :: m in Order(s, rng, hist) <==> Legal(s.board, m)
    ensures |Order(s, rng, hist)| == |LegalMoves(s.board)|
  {
    ShuffledPermutes(LegalMoves(s.board), rng(hist));
    LegalMovesExact(s.board);
  }

  /** The score of a position where the search stops: a win for `player` is
      MAX, a win for the other colour MIN, and otherwise the heuristic for
      the side to move there. */
  ghost function Leaf(s: State, player: Piece): int
    requires IsSquare(s.board)
  {
    var w := WinnerOf(s.board);
    if w == player then MAX else if w != None then MIN else ScoreOf(s.board, s.player)
  }

  /** No leaf scores above a win, and only a win for `player` scores MAX. */
  lemma LeafAtMost(s: State, player: Piece)
    requires IsSquare(s.board)
    ensures Leaf(s, player) <= MAX
    ensures Leaf(s, player) == MAX <==> WinnerOf(s.board) == player
  {
    MinPiecesNonNegative(s.board, s.player, TopBottom(|s.board|));
    MinPiecesNonNegative(s.board, s.player, LeftRight(|s.board|));
  }

  /** What the search learns of a position before looking at its moves:
      whether the game is over there, and the score it returns if it stops. */
  datatype Verdict = Verdict(over: bool, score: int)

  type Judge = State -> Verdict

  /** How minimax(.., player) judges a position: isOver, and Leaf's score. */
  ghost function Judgement(player: Piece): Judge {
    (t: State) => if IsSquare(t.board) then Verdict(Over(t), Leaf(t, player)) else Verdict(true, MIN)
  }

  /** Every score a judge gives is at most MAX. */
  ghost predicate Capped(j: Judge) {
    forall t: State :: j(t).score <= MAX
  }

  lemma JudgementCapped(player: Piece)
    ensures Capped(Judgement(player))
  {
    forall t: State
      ensures Judgement(player)(t).score <= MAX
    {
      if IsSquare(t.board) {
        LeafAtMost(t, player);
      }
    }
  }

  /** What stays fixed through one search: how positions are judged, the
      side the scores are for, and the draws of every shuffle. */
  datatype Ctx = Ctx(judge: Judge, player: Piece, rng: Rng)

  /** The context of minimax(.., player) with the given draws. */
  ghost function Rules(player: Piece, rng: Rng): Ctx {
    Ctx(Judgement(player), player, rng)
  }

  /** The position after move i of `ms`. */
  function ChildAt(s: State, ms: seq<Move>, i: nat): (c: State)
    requires IsSquare(s.board) && i < |ms| && forall m | m in ms :: Legal(s.board, m)
    ensures IsSquare(c.board) && |c.board| == |s.board|
  {
    assert ms[i] in ms && Legal(s.board, ms[i]);
    Apply(s, ms[i])
  }

  /** The full minimax value of a position, over the same move orders the
      search uses: the greatest child value where x.player moves, the least
      where the opponent does, starting from MIN and MAX. */
  ghost function Value(x: Ctx, s: State, depth: nat, hist: seq<Move>): int
    requires IsSquare(s.board)
    decreases depth, 1, 0
  {
    if x.judge(s).over || depth == 0 then x.judge(s).score
    else
      OrderLegal(s, x.rng, hist);
      if s.player == x.player then MaxFold(x, s, Order(s, x.rng, hist), 0, depth, hist, MIN)
      else MinFold(x, s, Order(s, x.rng, hist), 0, depth, hist, MAX)
  }

  /** The greatest of `acc` and the values of moves i .. of `ms`. */
  ghost function MaxFold(x: Ctx, s: State, ms: seq<Move>, i: nat, depth: nat, hist: seq<Move>, acc: int): int
    requires IsSquare(s.board) && depth > 0 && i <= |ms| && forall m | m in ms :: Legal(s.board, m)
    decreases depth, 0, |ms| - i
  {
    if i == |ms| then acc
    else MaxFold(x, s, ms, i + 1, depth, hist, Max(acc, Value(x, ChildAt(s, ms, i), depth - 1, hist + [ms[i]])))
  }

  /** The least of `acc` and the values of moves i .. of `ms`. */
  ghost function MinFold(x: Ctx, s: State, ms: seq<Move>, i: nat, depth: nat, hist: seq<Move>, acc: int): int
    requires IsSquare(s.board) && depth > 0 && i <= |ms| && forall m | m in ms :: Legal(s.board, m)
    decreases depth, 0, |ms| - i
  {
    if i == |ms| then acc
    else MinFold(x, s, ms, i + 1, depth, hist, Min(acc, Value(x, ChildAt(s, ms, i), depth - 1, hist + [ms[i]])))
  }

  /** minimax(game, depth, alpha, beta, player) as the code runs it: a
      position where the game is over or the depth is used up gets the
      judge's score; otherwise the children are searched in the position's
      order, the window narrowing as scores come in. */
  ghost function AB(x: Ctx, s: State, depth: nat, alpha: int, beta: int, hist: seq<Move>): int
    requires IsSquare(s.board)
    decreases depth, 1, 0
  {
    if x.judge(s).over || depth == 0 then x.judge(s).score
    else
      OrderLegal(s, x.rng, hist);
      if s.player == x.player then MaxLoop(x, s, Order(s, x.rng, hist), 0, depth, alpha, beta, hist, MIN)
      else MinLoop(x, s, Order(s, x.rng, hist), 0, depth, alpha, beta, hist, MAX)
  }

  /** The loop of a position where x.player moves, from move i on: the
      running maximum, returned as soon as it reaches beta; alpha rises
      with each score. */
  ghost function MaxLoop(x: Ctx, s: State, ms: seq<Move>, i: nat, depth: nat, alpha: int, beta: int,
                         hist: seq<Move>, best: int): int
    requires IsSquare(s.board) && depth > 0 && i <= |ms| && forall m | m in ms :: Legal(s.board, m)
    decreases depth, 0, |ms| - i
  {
    if i == |ms| then best
    else
      var score := AB(x, ChildAt(s, ms, i), depth - 1, alpha, beta, hist + [ms[i]]);
      var best' := Max(best, score);
      if best' >= beta then best'
      else MaxLoop(x, s, ms, i + 1, depth, Max(alpha, score), beta, hist, best')
  }

  /** The loop of a position where the opponent moves: the running minimum,
      returned as soon as it falls to alpha; beta falls with each score. */
  ghost function MinLoop(x: Ctx, s: State, ms: seq<Move>, i: nat, depth: nat, alpha: int, beta: int,
                         hist: seq<Move>, best: int): int
    requires IsSquare(s.board) && depth > 0 && i <= |ms| && forall m | m in ms :: Legal(s.board, m)
    decreases depth, 0, |ms| - i
  {
    if i == |ms| then best
    else
      var score := AB(x, ChildAt(s, ms, i), depth - 1, alpha, beta, hist + [ms[i]]);
      var best' := Min(best, score);
      if best' <= alpha then best'
      else MinLoop(x, s, ms, i + 1, depth, alpha, Min(beta, score), hist, best')
  }

  /** Folding a floor into the running maximum is the same as applying it at the end. */
  lemma {:induction false} MaxFoldShift(x: Ctx, s: State, ms: seq<Move>, i: nat, depth: nat, hist: seq<Move>,
                                        a: int, b: int)
    requires IsSquare(s.board) && depth > 0 && i <= |ms| && forall m | m in ms :: Legal(s.board, m)
    ensures MaxFold(x, s, ms, i, depth, hist, Max(a, b)) == Max(a, MaxFold(x, s, ms, i, depth, hist, b))
    decreases |ms| - i
  {
    if i < |ms| {
      var v := Value(x, ChildAt(s, ms, i), depth - 1, hist + [ms[i]]);
      assert Max(Max(a, b), v) == Max(a, Max(b, v));
      MaxFoldShift(x, s, ms, i + 1, depth, hist, a, Max(b, v));
    }
  }

  /** Folding a ceiling into the running minimum is the same as applying it at the end. */
  lemma {:induction false} MinFoldShift(x: Ctx, s: State, ms: seq<Move>, i: nat, depth: nat, hist: seq<Move>,
                                        a: int, b: int)
    requires IsSquare(s.board) && depth > 0 && i <= |ms| && forall m | m in ms :: Legal(s.board, m)
    ensures MinFold(x, s, ms, i, depth, hist, Min(a, b)) == Min(a, MinFold(x, s, ms, i, depth, hist, b))
    decreases |ms| - i
  {
    if i < |ms| {
      var v := Value(x, ChildAt(s, ms, i), depth - 1, hist + [ms[i]]);
      assert Min(Min(a, b), v) == Min(a, Min(b, v));
      MinFoldShift(x, s, ms, i + 1, depth, hist, a, Min(b, v));
    }
  }

  /** When no score is above a win, no minimax value is either. */
  lemma {:induction false} ValueAtMost(x: Ctx, s: State, depth: nat, hist: seq<Move>)
    requires IsSquare(s.board) && Capped(x.judge)
    ensures Value(x, s, depth, hist) <= MAX
    decreases depth, 1, 0
  {
    if !(x.judge(s).over || depth == 0) {
      OrderLegal(s, x.rng, hist);
      var ms := Order(s, x.rng, hist);
      if s.player == x.player {
        MaxFoldAtMost(x, s, ms, 0, depth, hist, MIN);
      } else {
        MinFoldShift(x, s, ms, 0, depth, hist, MAX, MAX);
      }
    }
  }

  lemma {:induction false} MaxFoldAtMost(x: Ctx, s: State, ms: seq<Move>, i: nat, depth: nat, hist: seq<Move>, acc: int)
    requires IsSquare(s.board) && depth > 0 && i <= |ms| && forall m | m in ms :: Legal(s.board, m)
    requires Capped(x.judge) && acc <= MAX
    ensures MaxFold(x, s, ms, i, depth, hist, acc) <= MAX
    decreases depth, 0, |ms| - i
  {
    if i < |ms| {
      var v := Value(x, ChildAt(s, ms, i), depth - 1, hist + [ms[i]]);
      ValueAtMost(x, ChildAt(s, ms, i), depth - 1, hist + [ms[i]]);
      MaxFoldAtMost(x, s, ms, i + 1, depth, hist, Max(acc, v));
    }
  }

  /** Nor does the search ever return more than MAX. */
  lemma {:induction false} ABAtMost(x: Ctx, s: State, depth: nat, alpha: int, beta: int, hist: seq<Move>)
    requires IsSquare(s.board) && Capped(x.judge)
    ensures AB(x, s, depth, alpha, beta, hist) <= MAX
    decreases depth, 1, 0
  {
    if !(x.judge(s).over || depth == 0) {
      OrderLegal(s, x.rng, hist);
      var ms := Order(s, x.rng, hist);
      if s.player == x.player {
        MaxLoopAtMost(x, s, ms, 0, depth, alpha, beta, hist, MIN);
      } else {
        MinLoopAtMost(x, s, ms, 0, depth, alpha, beta, hist, MAX);
      }
    }
  }

  lemma {:induction false} MaxLoopAtMost(x: Ctx, s: State, ms: seq<Move>, i: nat, depth: nat, alpha: int, beta: int,
                                         hist: seq<Move>, best: int)
    requires IsSquare(s.board) && depth > 0 && i <= |ms| && forall m | m in ms :: Legal(s.board, m)
    requires Capped(x.judge) && best <= MAX
    ensures MaxLoop(x, s, ms, i, depth, alpha, beta, hist, best) <= MAX
    decreases depth, 0, |ms| - i
  {
    if i < |ms| {
      var score := AB(x, ChildAt(s, ms, i), depth - 1, alpha, beta, hist + [ms[i]]);
      ABAtMost(x, ChildAt(s, ms, i), depth - 1, alpha, beta, hist + [ms[i]]);
      if Max(best, score) < beta {
        MaxLoopAtMost(x, s, ms, i + 1, depth, Max(alpha, score), beta, hist, Max(best, score));
      }
    }
  }

  /** The loop of a minimising position never returns more than its running minimum. */
  lemma {:induction false} MinLoopAtMost(x: Ctx, s: State, ms: seq<Move>, i: nat, depth: nat, alpha: int, beta: int,
                                         hist: seq<Move>, best: int)
    requires IsSquare(s.board) && depth > 0 && i <= |ms| && forall m | m in ms :: Legal(s.board, m)
    ensures MinLoop(x, s, ms, i, depth, alpha, beta, hist, best) <= best
    decreases |ms| - i
  {
    if i < |ms| {
      var score := AB(x, ChildAt(s, ms, i), depth - 1, alpha, beta, hist + [ms[i]]);
      if Min(best, score) > alpha {
        MinLoopAtMost(x, s, ms, i + 1, depth, alpha, Min(beta, score), hist, Min(best, score));
      }
    }
  }

  /** The fail-soft guarantee: inside the window the search returns the exact
      value; at or below alpha an upper bound on it no higher than alpha; at
      or above beta a lower bound on it no lower than beta. */
  predicate FailSoft(r: int, v: int, alpha: int, beta: int) {
    (alpha < v < beta ==> r == v) &&
    (v <= alpha ==> v <= r <= alpha) &&
    (v >= beta ==> beta <= r <= v)
  }

  /** A child that failed low against a floor y <= alpha: what holds for
      the fold from max(y, f) holds for the fold f. */
  lemma FailSoftBelow(r: int, f: int, y: int, alpha: int, beta: int)
    requires y <= alpha < beta && FailSoft(r, Max(y, f), alpha, beta)
    ensures FailSoft(r, f, alpha, beta)
  {
  }

  /** A child that failed high against a ceiling y >= beta: what holds for
      the fold from min(y, f) holds for the fold f. */
  lemma FailSoftAbove(r: int, f: int, y: int, alpha: int, beta: int)
    requires alpha < beta <= y && FailSoft(r, Min(y, f), alpha, beta)
    ensures FailSoft(r, f, alpha, beta)
  {
  }

  /** Raising alpha to a' <= f keeps FailSoft for the original window. */
  lemma FailSoftRaised(r: int, f: int, alpha: int, alpha': int, beta: int)
    requires alpha < alpha' <= f && FailSoft(r, f, alpha', beta)
    ensures FailSoft(r, f, alpha, beta)
  {
  }

  /** Lowering beta to b' >= f keeps FailSoft for the original window. */
  lemma FailSoftLowered(r: int, f: int, alpha: int, beta': int, beta: int)
    requires f <= beta' < beta && FailSoft(r, f, alpha, beta')
    ensures FailSoft(r, f, alpha, beta)
  {
  }

  /** Alpha-beta pruning is sound: for every window inside [MIN, MAX] the
      search relates to the full minimax value as FailSoft says, whatever
      the judge and the move orders. */
  lemma {:induction false} Window(x: Ctx, s: State, depth: nat, alpha: int, beta: int, hist: seq<Move>)
    requires IsSquare(s.board) && MIN <= alpha < beta <= MAX
    ensures FailSoft(AB(x, s, depth, alpha, beta, hist), Value(x, s, depth, hist), alpha, beta)
    decreases depth, 1, 0, 0
  {
    if !(x.judge(s).over || depth == 0) {
      OrderLegal(s, x.rng, hist);
      var ms := Order(s, x.rng, hist);
      if s.player == x.player {
        MaxLoopWindow(x, s, ms, 0, depth, alpha, beta, hist, MIN);
      } else {
        MinLoopWindow(x, s, ms, 0, depth, alpha, beta, hist, MAX);
      }
    }
  }

  /** The loop of a maximising position, with alpha at least the running
      maximum, meets FailSoft against the fold of the remaining children. */
  lemma {:induction false} MaxLoopWindow(x: Ctx, s: State, ms: seq<Move>, i: nat, depth: nat, alpha: int, beta: int,
                                         hist: seq<Move>, best: int)
    requires IsSquare(s.board) && depth > 0 && i <= |ms| && forall m | m in ms :: Legal(s.board, m)
    requires MIN <= alpha < beta <= MAX && best <= alpha
    ensures FailSoft(MaxLoop(x, s, ms, i, depth, alpha, beta, hist, best),
                     MaxFold(x, s, ms, i, depth, hist, best), alpha, beta)
    decreases depth, 0, |ms| - i, 1
  {
    if i < |ms| {
      var c := ChildAt(s, ms, i);
      var h := hist + [ms[i]];
      Window(x, c, depth - 1, alpha, beta, h);
      if AB(x, c, depth - 1, alpha, beta, h) >= beta {
        MaxCut(x, s, ms, i, depth, alpha, beta, hist, best);
      } else if Value(x, c, depth - 1, h) <= alpha {
        MaxLow(x, s, ms, i, depth, alpha, beta, hist, best);
      } else {
        MaxExact(x, s, ms, i, depth, alpha, beta, hist, best);
      }
    }
  }

  /** A child at or above beta: the loop stops with a score between beta and the fold. */
  lemma MaxCut(x: Ctx, s: State, ms: seq<Move>, i: nat, depth: nat, alpha: int, beta: int, hist: seq<Move>, best: int)
    requires IsSquare(s.board) && depth > 0 && i < |ms| && forall m | m in ms :: Legal(s.board, m)
    requires MIN <= alpha < beta <= MAX && best <= alpha
    requires FailSoft(AB(x, ChildAt(s, ms, i), depth - 1, alpha, beta, hist + [ms[i]]),
                      Value(x, ChildAt(s, ms, i), depth - 1, hist + [ms[i]]), alpha, beta)
    requires AB(x, ChildAt(s, ms, i), depth - 1, alpha, beta, hist + [ms[i]]) >= beta
    ensures FailSoft(MaxLoop(x, s, ms, i, depth, alpha, beta, hist, best),
                     MaxFold(x, s, ms, i, depth, hist, best), alpha, beta)
  {
    var v := Value(x, ChildAt(s, ms, i), depth - 1, hist + [ms[i]]);
    MaxFoldShift(x, s, ms, i + 1, depth, hist, Max(best, v), Max(best, v));
  }

  /** A child at or below alpha: alpha stays, and the fold from the new
      running maximum agrees with the true fold. */
  lemma {:induction false} MaxLow(x: Ctx, s: State, ms: seq<Move>, i: nat, depth: nat, alpha: int, beta: int,
                                  hist: seq<Move>, best: int)
    requires IsSquare(s.board) && depth > 0 && i < |ms| && forall m | m in ms :: Legal(s.board, m)
    requires MIN <= alpha < beta <= MAX && best <= alpha
    requires FailSoft(AB(x, ChildAt(s, ms, i), depth - 1, alpha, beta, hist + [ms[i]]),
                      Value(x, ChildAt(s, ms, i), depth - 1, hist + [ms[i]]), alpha, beta)
    requires AB(x, ChildAt(s, ms, i), depth - 1, alpha, beta, hist + [ms[i]]) < beta
    requires Value(x, ChildAt(s, ms, i), depth - 1, hist + [ms[i]]) <= alpha
    ensures FailSoft(MaxLoop(x, s, ms, i, depth, alpha, beta, hist, best),
                     MaxFold(x, s, ms, i, depth, hist, best), alpha, beta)
    decreases depth, 0, |ms| - i, 0
  {
    var score := AB(x, ChildAt(s, ms, i), depth - 1, alpha, beta, hist + [ms[i]]);
    var v := Value(x, ChildAt(s, ms, i), depth - 1, hist + [ms[i]]);
    var y := Max(best, score);
    MaxFoldShift(x, s, ms, i + 1, depth, hist, y, Max(best, v));
    assert Max(y, Max(best, v)) == y;
    MaxLoopWindow(x, s, ms, i + 1, depth, alpha, beta, hist, y);
    FailSoftBelow(MaxLoop(x, s, ms, i + 1, depth, alpha, beta, hist, y),
                  MaxFold(x, s, ms, i + 1, depth, hist, Max(best, v)), y, alpha, beta);
  }

  /** A child strictly inside the window: its exact value becomes both the
      running maximum and the new alpha. */
  lemma {:induction false} MaxExact(x: Ctx, s: State, ms: seq<Move>, i: nat, depth: nat, alpha: int, beta: int,
                                    hist: seq<Move>, best: int)
    requires IsSquare(s.board) && depth > 0 && i < |ms| && forall m | m in ms :: Legal(s.board, m)
    requires MIN <= alpha < beta <= MAX && best <= alpha
    requires FailSoft(AB(x, ChildAt(s, ms, i), depth - 1, alpha, beta, hist + [ms[i]]),
                      Value(x, ChildAt(s, ms, i), depth - 1, hist + [ms[i]]), alpha, beta)
    requires AB(x, ChildAt(s, ms, i), depth - 1, alpha, beta, hist + [ms[i]]) < beta
    requires Value(x, ChildAt(s, ms, i), depth - 1, hist + [ms[i]]) > alpha
    ensures FailSoft(MaxLoop(x, s, ms, i, depth, alpha, beta, hist, best),
                     MaxFold(x, s, ms, i, depth, hist, best), alpha, beta)
    decreases depth, 0, |ms| - i, 0
  {
    var v := Value(x, ChildAt(s, ms, i), depth - 1, hist + [ms[i]]);
    MaxFoldShift(x, s, ms, i + 1, depth, hist, v, v);
    assert Max(best, v) == v;
    MaxLoopWindow(x, s, ms, i + 1, depth, v, beta, hist, v);
    FailSoftRaised(MaxLoop(x, s, ms, i + 1, depth, v, beta, hist, v),
                   MaxFold(x, s, ms, i + 1, depth, hist, v), alpha, v, beta);
  }

  /** The loop of a minimising position, with beta at most the running
      minimum, meets FailSoft against the fold of the remaining children. */
  lemma {:induction false} MinLoopWindow(x: Ctx, s: State, ms: seq<Move>, i: nat, depth: nat, alpha: int, beta: int,
                                         hist: seq<Move>, best: int)
    requires IsSquare(s.board) && depth > 0 && i <= |ms| && forall m | m in ms :: Legal(s.board, m)
    requires MIN <= alpha < beta <= MAX && best >= beta
    ensures FailSoft(MinLoop(x, s, ms, i, depth, alpha, beta, hist, best),
                     MinFold(x, s, ms, i, depth, hist, best), alpha, beta)
    decreases depth, 0, |ms| - i, 1
  {
    if i < |ms| {
      var c := ChildAt(s, ms, i);
      var h := hist + [ms[i]];
      Window(x, c, depth - 1, alpha, beta, h);
      if AB(x, c, depth - 1, alpha, beta, h) <= alpha {
        MinCut(x, s, ms, i, depth, alpha, beta, hist, best);
      } else if Value(x, c, depth - 1, h) >= beta {
        MinHigh(x, s, ms, i, depth, alpha, beta, hist, best);
      } else {
        MinExact(x, s, ms, i, depth, alpha, beta, hist, best);
      }
    }
  }

  /** A child at or below alpha: the loop stops with a score between the fold and alpha. */
  lemma MinCut(x: Ctx, s: State, ms: seq<Move>, i: nat, depth: nat, alpha: int, beta: int, hist: seq<Move>, best: int)
    requires IsSquare(s.board) && depth > 0 && i < |ms| && forall m | m in ms :: Legal(s.board, m)
    requires MIN <= alpha < beta <= MAX && best >= beta
    requires FailSoft(AB(x, ChildAt(s, ms, i), depth - 1, alpha, beta, hist + [ms[i]]),
                      Value(x, ChildAt(s, ms, i), depth - 1, hist + [ms[i]]), alpha, beta)
    requires AB(x, ChildAt(s, ms, i), depth - 1, alpha, beta, hist + [ms[i]]) <= alpha
    ensures FailSoft(MinLoop(x, s, ms, i, depth, alpha, beta, hist, best),
                     MinFold(x, s, ms, i, depth, hist, best), alpha, beta)
  {
    var v := Value(x, ChildAt(s, ms, i), depth - 1, hist + [ms[i]]);
    MinFoldShift(x, s, ms, i + 1, depth, hist, Min(best, v), Min(best, v));
  }

  /** A child at or above beta: beta stays, and the fold from the new
      running minimum agrees with the true fold. */
  lemma {:induction false} MinHigh(x: Ctx, s: State, ms: seq<Move>, i: nat, depth: nat, alpha: int, beta: int,
                                   hist: seq<Move>, best: int)
    requires IsSquare(s.board) && depth > 0 && i < |ms| && forall m | m in ms :: Legal(s.board, m)
    requires MIN <= alpha < beta <= MAX && best >= beta
    requires FailSoft(AB(x, ChildAt(s, ms, i), depth - 1, alpha, beta, hist + [ms[i]]),
                      Value(x, ChildAt(s, ms, i), depth - 1, hist + [ms[i]]), alpha, beta)
    requires AB(x, ChildAt(s, ms, i), depth - 1, alpha, beta, hist + [ms[i]]) > alpha
    requires Value(x, ChildAt(s, ms, i), depth - 1, hist + [ms[i]]) >= beta
    ensures FailSoft(MinLoop(x, s, ms, i, depth, alpha, beta, hist, best),
                     MinFold(x, s, ms, i, depth, hist, best), alpha, beta)
    decreases depth, 0, |ms| - i, 0
  {
    var score := AB(x, ChildAt(s, ms, i), depth - 1, alpha, beta, hist + [ms[i]]);
    var v := Value(x, ChildAt(s, ms, i), depth - 1, hist + [ms[i]]);
    var y := Min(best, score);
    MinFoldShift(x, s, ms, i + 1, depth, hist, y, Min(best, v));
    assert Min(y, Min(best, v)) == y;
    MinLoopWindow(x, s, ms, i + 1, depth, alpha, beta, hist, y);
    FailSoftAbove(MinLoop(x, s, ms, i + 1, depth, alpha, beta, hist, y),
                  MinFold(x, s, ms, i + 1, depth, hist, Min(best, v)), y, alpha, beta);
  }

  /** A child strictly inside the window: its exact value becomes both the
      running minimum and the new beta. */
  lemma {:induction false} MinExact(x: Ctx, s: State, ms: seq<Move>, i: nat, depth: nat, alpha: int, beta: int,
                                    hist: seq<Move>, best: int)
    requires IsSquare(s.board) && depth > 0 && i < |ms| && forall m | m in ms :: Legal(s.board, m)
    requires MIN <= alpha < beta <= MAX && best >= beta
    requires FailSoft(AB(x, ChildAt(s, ms, i), depth - 1, alpha, beta, hist + [ms[i]]),
                      Value(x, ChildAt(s, ms, i), depth - 1, hist + [ms[i]]), alpha, beta)
    requires AB(x, ChildAt(s, ms, i), depth - 1, alpha, beta, hist + [ms[i]]) > alpha
    requires Value(x, ChildAt(s, ms, i), depth - 1, hist + [ms[i]]) < beta
    ensures FailSoft(MinLoop(x, s, ms, i, depth, alpha, beta, hist, best),
                     MinFold(x, s, ms, i, depth, hist, best), alpha, beta)
    decreases depth, 0, |ms| - i, 0
  {
    var v := Value(x, ChildAt(s, ms, i), depth - 1, hist + [ms[i]]);
    MinFoldShift(x, s, ms, i + 1, depth, hist, v, v);
    assert Min(best, v) == v;
    MinLoopWindow(x, s, ms, i + 1, depth, alpha, v, hist, v);
    FailSoftLowered(MinLoop(x, s, ms, i + 1, depth, alpha, v, hist, v),
                    MinFold(x, s, ms, i + 1, depth, hist, v), alpha, v, beta);
  }

  /** With the widest window the search returns the minimax value itself,
      for any value no lower than MIN. */
  lemma FullWindow(x: Ctx, s: State, depth: nat, hist: seq<Move>)
    requires IsSquare(s.board) && Capped(x.judge) && MIN <= Value(x, s, depth, hist)
    ensures AB(x, s, depth, MIN, MAX, hist) == Value(x, s, depth, hist)
  {
    Window(x, s, depth, MIN, MAX, hist);
    ValueAtMost(x, s, depth, hist);
  }

  /** getCurrentPlayerMove's loop from move i on: each child is searched to
      depth d with alpha the best score so far and beta MAX, and a strictly
      higher score takes over the chosen move. */
  ghost function RootLoop(x: Ctx, s: State, ms: seq<Move>, i: nat, d: nat, best: int, bestMove: Move): (r: Move)
    requires IsSquare(s.board) && i <= |ms| && forall m | m in ms :: Legal(s.board, m)
    requires bestMove in ms
    ensures r in ms
    decreases |ms| - i
  {
    if i == |ms| then bestMove
    else
      var score := AB(x, ChildAt(s, ms, i), d, best, MAX, [ms[i]]);
      if score > best then RootLoop(x, s, ms, i + 1, d, score, ms[i])
      else RootLoop(x, s, ms, i + 1, d, best, bestMove)
  }

  /** The move getCurrentPlayerMove returns: the root loop over the shuffled
      legal moves, starting from MIN and the first of them. */
  ghost function Choice(s: State, maxDepth: int, rng: Rng): (m: Move)
    requires IsSquare(s.board) && maxDepth >= 1 && LegalMoves(s.board) != []
    ensures Legal(s.board, m)
  {
    OrderLegal(s, rng, []);
    var ms := Order(s, rng, []);
    RootLoop(Rules(s.player, rng), s, ms, 0, maxDepth - 1, MIN, ms[0])
  }

  /** At the root alpha is the best score so far and beta is MAX, so a
      child's search beats that score exactly when the child's minimax value
      does, and then it returns that value. */
  lemma RootStep(x: Ctx, c: State, d: nat, best: int, hist: seq<Move>)
    requires IsSquare(c.board) && Capped(x.judge) && MIN <= best <= MAX
    ensures AB(x, c, d, best, MAX, hist) > best <==> Value(x, c, d, hist) > best
    ensures AB(x, c, d, best, MAX, hist) > best ==> AB(x, c, d, best, MAX, hist) == Value(x, c, d, hist)
    ensures Value(x, c, d, hist) <= MAX
  {
    ValueAtMost(x, c, d, hist);
    ABAtMost(x, c, d, best, MAX, hist);
    if best < MAX {
      Window(x, c, d, best, MAX, hist);
    }
  }

  /** The minimax value of move k of the root's order. */
  ghost function RootValue(x: Ctx, s: State, ms: seq<Move>, k: nat, d: nat): int
    requires IsSquare(s.board) && k < |ms| && forall m | m in ms :: Legal(s.board, m)
  {
    Value(x, ChildAt(s, ms, k), d, [ms[k]])
  }

  /** After n moves of the root loop: `best` is the greatest of their values
      (MIN if none is above it), and move k is the earliest to reach it, or
      move 0 while nothing has beaten MIN. */
  ghost predicate Leading(x: Ctx, s: State, ms: seq<Move>, n: nat, d: nat, k: nat, best: int)
    requires IsSquare(s.board) && n <= |ms| && forall m | m in ms :: Legal(s.board, m)
  {
    k < |ms| && MIN <= best <= MAX &&
    (forall j | 0 <= j < n :: RootValue(x, s, ms, j, d) <= best) &&
    (forall j | 0 <= j < k :: RootValue(x, s, ms, j, d) < best) &&
    (if best == MIN then k == 0 else k < n && RootValue(x, s, ms, k, d) == best)
  }

  /** One pass of the root loop keeps Leading: a child whose search beats the
      best score takes over with its minimax value, any other leaves both. */
  lemma RootLoopStep(x: Ctx, s: State, ms: seq<Move>, i: nat, d: nat, k: nat, best: int)
      returns (k': nat, best': int)
    requires IsSquare(s.board) && i < |ms| && forall m | m in ms :: Legal(s.board, m)
    requires Capped(x.judge) && Leading(x, s, ms, i, d, k, best)
    ensures Leading(x, s, ms, i + 1, d, k', best')
    ensures RootLoop(x, s, ms, i, d, best, ms[k]) == RootLoop(x, s, ms, i + 1, d, best', ms[k'])
  {
    var c := ChildAt(s, ms, i);
    RootStep(x, c, d, best, [ms[i]]);
    if AB(x, c, d, best, MAX, [ms[i]]) > best {
      k', best' := i, RootValue(x, s, ms, i, d);
    } else {
      k', best' := k, best;
    }
  }

  /** The rest of the root loop from a Leading state ends on a Leading state
      over every move. */
  lemma {:induction false} RootLoopPicks(x: Ctx, s: State, ms: seq<Move>, i: nat, d: nat, k: nat, best: int)
      returns (k': nat, best': int)
    requires IsSquare(s.board) && i <= |ms| && forall m | m in ms :: Legal(s.board, m)
    requires Capped(x.judge) && Leading(x, s, ms, i, d, k, best)
    ensures Leading(x, s, ms, |ms|, d, k', best')
    ensures RootLoop(x, s, ms, i, d, best, ms[k]) == ms[k']
    decreases |ms| - i
  {
    if i == |ms| {
      k', best' := k, best;
    } else {
      var k1, best1 := RootLoopStep(x, s, ms, i, d, k, best);
      k', best' := RootLoopPicks(x, s, ms, i + 1, d, k1, best1);
    }
  }

  /** Move k of `ms` has the greatest value (a value no higher than MIN
      counting as MIN), every earlier move a strictly smaller one, and it is
      move 0 unless its value is above MIN. */
  ghost predicate Best(x: Ctx, s: State, ms: seq<Move>, d: nat, k: nat)
    requires IsSquare(s.board) && forall m | m in ms :: Legal(s.board, m)
  {
    k < |ms| &&
    (forall j | 0 <= j < |ms| :: RootValue(x, s, ms, j, d) <= Max(MIN, RootValue(x, s, ms, k, d))) &&
    (forall j | 0 <= j < k :: RootValue(x, s, ms, j, d) < RootValue(x, s, ms, k, d)) &&
    (RootValue(x, s, ms, k, d) <= MIN ==> k == 0)
  }

  /** The root loop over any order, from MIN and the first move, ends on a Best move. */
  lemma RootLoopBest(x: Ctx, s: State, ms: seq<Move>, d: nat) returns (k: nat)
    requires IsSquare(s.board) && ms != [] && forall m | m in ms :: Legal(s.board, m)
    requires Capped(x.judge)
    ensures k < |ms| && RootLoop(x, s, ms, 0, d, MIN, ms[0]) == ms[k]
    ensures Best(x, s, ms, d, k)
  {
    var best;
    k, best := RootLoopPicks(x, s, ms, 0, d, 0, MIN);
  }

  /** The root picks the earliest move of greatest minimax value in its
      shuffled order; when every value is MIN or lower it keeps the first. */
  lemma ChoiceOptimal(s: State, maxDepth: int, rng: Rng) returns (k: nat)
    requires IsSquare(s.board) && maxDepth >= 1 && LegalMoves(s.board) != []
    ensures forall m | m in Order(s, rng, []) :: Legal(s.board, m)
    ensures k < |Order(s, rng, [])| && Choice(s, maxDepth, rng) == Order(s, rng, [])[k]
    ensures Best(Rules(s.player, rng), s, Order(s, rng, []), maxDepth - 1, k)
  {
    OrderLegal(s, rng, []);
    k := RulesLoopBest(s.player, rng, s, Order(s, rng, []), maxDepth - 1);
  }

  /** RootLoopBest under the rules of minimax(.., player), whose judge is capped. */
  lemma RulesLoopBest(player: Piece, rng: Rng, s: State, ms: seq<Move>, d: nat) returns (k: nat)
    requires IsSquare(s.board) && ms != [] && forall m | m in ms :: Legal(s.board, m)
    ensures k < |ms| && RootLoop(Rules(player, rng), s, ms, 0, d, MIN, ms[0]) == ms[k]
    ensures Best(Rules(player, rng), s, ms, d, k)
  {
    JudgementCapped(player);
    k := RootLoopBest(Rules(player, rng), s, ms, d);
  }

  /** With maxDepth 1, when some legal move wins at once for the side to
      move, the chosen move wins too. */
  lemma ImmediateWin(s: State, rng: Rng, m: Move)
    requires IsSquare(s.board) && Legal(s.board, m) && WinnerOf(Apply(s, m).board) == s.player
    ensures LegalMoves(s.board) != [] && WinnerOf(Apply(s, Choice(s, 1, rng)).board) == s.player
  {
    LegalMovesExact(s.board);
    var k := ChoiceOptimal(s, 1, rng);
    var ms := Order(s, rng, []);
    var x := Rules(s.player, rng);
    OrderLegal(s, rng, []);
    var j :| 0 <= j < |ms| && ms[j] == m;
    LeafAtMost(ChildAt(s, ms, j), s.player);
    assert RootValue(x, s, ms, j, 0) == MAX;
    JudgementCapped(s.player);
    ValueAtMost(x, ChildAt(s, ms, k), 0, [ms[k]]);
    LeafAtMost(ChildAt(s, ms, k), s.player);
  }
}
