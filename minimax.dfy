/** Minimax: the AI that looks maxDepth moves ahead with alpha-beta pruning,
    scoring the positions where it stops with the minimum-pieces heuristic.
    Each method is proved to compute the matching value of AlphaBeta. */
module AI {
  import opened Errors
  import opened Boards
  import opened Games
  import opened Heuristic
  import opened AlphaBeta

  class Minimax {
    /** How many moves ahead the AI looks. */
    const maxDepth: int

    ghost predicate Valid() {
      maxDepth >= 1
    }

    constructor (maxDepth: int)
      requires maxDepth >= 1
      ensures Valid() && this.maxDepth == maxDepth
    {
      this.maxDepth := maxDepth;
    }

    /** getMoves: the game's legal moves, copied into a list and shuffled in
        place, the last unshuffled element swapped with a drawn one. */
    method GetMoves(game: Game, draws: seq<int>) returns (ms: seq<Move>)
      requires game.Valid()
      ensures ms == Shuffled(LegalMoves(game.grid.board), draws)
    {
      var legal := game.GetMoves();
      var a := new Move[|legal|](k requires 0 <= k < |legal| => legal[k]);
      assert a[..] == legal;
      var i := a.Length;
      while i > 1
        invariant 0 <= i <= a.Length
        invariant FisherYates(a[..], draws, i) == Shuffled(legal, draws)
      {
        var j := Pick(draws, a.Length - i, i);
        Exchange(a, i - 1, j);
        i := i - 1;
      }
      ms := a[..];
    }

    /** Collections.swap: the two elements trade places. */
    static method Exchange(a: array<Move>, i: int, j: int)
      requires 0 <= i < a.Length && 0 <= j < a.Length
      modifies a
      ensures a[..] == Swap(old(a[..]), i, j)
    {
      var t := a[i];
      a[i] := a[j];
      a[j] := t;
    }

    /** The score of a position where the search stops, asking for the
        winner twice as the source does. */
    method LeafScore(game: Game, player: Piece) returns (r: int)
      requires game.Valid()
      ensures r == Leaf(game.Model(), player)
    {
      var w := game.Winner();
      if w == player {
        return MAX;
      }
      w := game.Winner();
      if w != None {
        return MIN;
      }
      r := Score(game);
    }

    /** minimax(game, depth, alpha, beta, player): the fail-soft alpha-beta
        search, drawing each position's shuffle from rng at the moves that
        led there. */
    method Search(game: Game, depth: nat, alpha: int, beta: int, player: Piece, rng: Rng, hist: seq<Move>)
      returns (r: int)
      requires game.Valid()
      ensures r == AB(Rules(player, rng), game.Model(), depth, alpha, beta, hist)
      decreases depth, 2
    {
      ghost var s := game.Model();
      var over := game.IsOver();
      if over || depth == 0 {
        r := LeafScore(game, player);
        return;
      }
      var ms := GetMoves(game, rng(hist));
      OrderLegal(s, rng, hist);
      if game.CurrentPlayer() == player {
        r := MaxNode(game, ms, depth, alpha, beta, player, rng, hist);
      } else {
        r := MinNode(game, ms, depth, alpha, beta, player, rng, hist);
      }
    }

    /** The loop of a position where `player` moves. */
    method MaxNode(game: Game, ms: seq<Move>, depth: nat, alpha: int, beta: int, player: Piece, rng: Rng,
                   hist: seq<Move>) returns (r: int)
      requires game.Valid() && depth > 0 && forall m | m in ms :: Legal(game.grid.board, m)
      ensures r == MaxLoop(Rules(player, rng), game.Model(), ms, 0, depth, alpha, beta, hist, MIN)
      decreases depth, 1
    {
      ghost var x := Rules(player, rng);
      ghost var s := game.Model();
      var a := alpha;
      var best := MIN;
      for i := 0 to |ms|
        invariant MaxLoop(x, s, ms, i, depth, a, beta, hist, best) == MaxLoop(x, s, ms, 0, depth, alpha, beta, hist, MIN)
      {
        var score := Child(game, ms, i, depth, a, beta, player, rng, hist);
        best := Max(best, score);
        if best >= beta {
          return best;
        }
        a := Max(a, score);
      }
      r := best;
    }

    /** The loop of a position where the opponent moves. */
    method MinNode(game: Game, ms: seq<Move>, depth: nat, alpha: int, beta: int, player: Piece, rng: Rng,
                   hist: seq<Move>) returns (r: int)
      requires game.Valid() && depth > 0 && forall m | m in ms :: Legal(game.grid.board, m)
      ensures r == MinLoop(Rules(player, rng), game.Model(), ms, 0, depth, alpha, beta, hist, MAX)
      decreases depth, 1
    {
      ghost var x := Rules(player, rng);
      ghost var s := game.Model();
      var b := beta;
      var best := MAX;
      for i := 0 to |ms|
        invariant MinLoop(x, s, ms, i, depth, alpha, b, hist, best) == MinLoop(x, s, ms, 0, depth, alpha, beta, hist, MAX)
      {
        var score := Child(game, ms, i, depth, alpha, b, player, rng, hist);
        best := Min(best, score);
        if best <= alpha {
          return best;
        }
        b := Min(b, score);
      }
      r := best;
    }

    /** One pass of either loop: move i played on a copy, searched one level down. */
    method Child(game: Game, ms: seq<Move>, i: nat, depth: nat, alpha: int, beta: int, player: Piece, rng: Rng,
                 hist: seq<Move>) returns (score: int)
      requires game.Valid() && depth > 0 && i < |ms| && forall m | m in ms :: Legal(game.grid.board, m)
      ensures score == AB(Rules(player, rng), ChildAt(game.Model(), ms, i), depth - 1, alpha, beta, hist + [ms[i]])
      decreases depth, 0
    {
      var c := game.Copy();
      assert ms[i] in ms;
      var _ := c.MakeMove(ms[i]);
      score := Search(c, depth - 1, alpha, beta, player, rng, hist + [ms[i]]);
    }

    /** getCurrentPlayerMove: the move of the shuffled list whose search
        scores strictly above every earlier one. With no legal move the
        source fails on moves.get(0). */
    method GetCurrentPlayerMove(game: Game, rng: Rng) returns (r: Result<Move>)
      requires Valid() && game.Valid()
      ensures r.Err? <==> LegalMoves(game.grid.board) == []
      ensures r.Err? ==> r.error == NoLegalMoves
      ensures r.Ok? ==> LegalMoves(game.grid.board) != [] && r.value == Choice(game.Model(), maxDepth, rng)
      ensures r.Ok? ==> Legal(game.grid.board, r.value)
    {
      var moves := GetMoves(game, rng([]));
      OrderLegal(game.Model(), rng, []);
      if |moves| == 0 {
        return Err(NoLegalMoves);
      }
      var m := RootSearch(game, moves, rng);
      r := Ok(m);
    }

    /** The root loop: alpha follows the best score, beta stays MAX, and a
        strictly higher score takes over the chosen move. */
    method RootSearch(game: Game, moves: seq<Move>, rng: Rng) returns (bestMove: Move)
      requires Valid() && game.Valid() && moves != [] && forall m | m in moves :: Legal(game.grid.board, m)
      ensures bestMove == RootLoop(Rules(game.Model().player, rng), game.Model(), moves, 0, maxDepth - 1, MIN, moves[0])
    {
      ghost var s := game.Model();
      ghost var x := Rules(s.player, rng);
      bestMove := moves[0];
      var bestScore := MIN;
      var alpha := MIN;
      var beta := MAX;
      var currentPlayer := game.CurrentPlayer();
      for i := 0 to |moves|
        invariant alpha == bestScore && bestMove in moves
        invariant RootLoop(x, s, moves, i, maxDepth - 1, bestScore, bestMove) == RootLoop(x, s, moves, 0, maxDepth - 1, MIN, moves[0])
      {
        var score;
        score, bestScore, bestMove := RootMove(game, moves, i, alpha, beta, currentPlayer, rng, bestScore, bestMove, s);
        alpha := Max(alpha, score);
      }
    }

    /** One pass of the root loop: move i searched with the current window,
        taking over when it scores strictly above the best so far. */
    method RootMove(game: Game, moves: seq<Move>, i: nat, alpha: int, beta: int, currentPlayer: Piece, rng: Rng,
                    bestScore: int, bestMove: Move, ghost s: State)
      returns (score: int, bestScore': int, bestMove': Move)
      requires Valid() && game.Valid() && game.Model() == s && currentPlayer == s.player
      requires i < |moves| && forall m | m in moves :: Legal(s.board, m)
      requires alpha == bestScore && beta == MAX && bestMove in moves
      ensures bestScore' == Max(bestScore, score) && bestMove' in moves
      ensures RootLoop(Rules(s.player, rng), s, moves, i + 1, maxDepth - 1, bestScore', bestMove') ==
              RootLoop(Rules(s.player, rng), s, moves, i, maxDepth - 1, bestScore, bestMove)
    {
      score := Child(game, moves, i, maxDepth, alpha, beta, currentPlayer, rng, []);
      assert [] + [moves[i]] == [moves[i]];
      if score > bestScore {
        bestScore', bestMove' := score, moves[i];
      } else {
        bestScore', bestMove' := bestScore, bestMove;
      }
    }
  }

  /** The constructor's check: a depth below 1 is rejected. */
  method NewMinimax(maxDepth: int) returns (r: Result<Minimax>)
    ensures r.Err? <==> maxDepth < 1
    ensures r.Err? ==> r.error == InvalidDepth
    ensures r.Ok? ==> fresh(r.value) && r.value.Valid() && r.value.maxDepth == maxDepth
  {
    if maxDepth < 1 {
      return Err(InvalidDepth);
    }
    var m := new Minimax(maxDepth);
    r := Ok(m);
  }
}
