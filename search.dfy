/** ChessLogic.AI's move search: depth-limited minimax with alpha-beta
    pruning, over an abstract game. The game state, its legal moves, making
    a move on a copy, game over, the player to move and the leaf evaluation
    are supplied as the fields of a Game record.

    AlphaBeta/MaxLoop/MinLoop specify the search exactly as the source runs
    it (scores start at int.MinValue / int.MaxValue, a child replaces the
    best only when strictly better, the window is narrowed after every child
    and the loop stops once beta <= alpha). Minimax is the same tree without
    pruning. Search and GetBestMove are the imperative search, proved equal
    to AlphaBeta. */
module Search {
  import opened Pieces

  const IntMin: int := -0x8000_0000
  const IntMax: int := 0x7fff_ffff

  /** C#'s int. */
  type Int32 = x: int | -0x8000_0000 <= x <= 0x7fff_ffff

  /** AI.MaxDepth. */
  const MaxDepth: nat := 3

  function Max(a: int, b: int): int { if a >= b then a else b }

  function Min(a: int, b: int): int { if a <= b then a else b }

  /** What the search needs from GameState: the legal moves of the player to
      move (AllLegalMovesFor(CurrentPlayer), in enumeration order), the state
      after a move (Copy then MakeMove), IsGameOver, CurrentPlayer and
      EvaluateBoard. */
  datatype Game<!S, !M> = Game(
    legalMoves: S -> seq<M>,
    apply: (S, M) -> S,
    isOver: S -> bool,
    currentPlayer: S -> Player,
    evaluate: (S, Player) -> Int32)

  /** The leaf score: the state evaluated for its own player to move. */
  function Leaf<S, M>(g: Game<S, M>, s: S): Int32 {
    g.evaluate(s, g.currentPlayer(s))
  }

  predicate IsLeaf<S, M>(g: Game<S, M>, s: S, depth: nat) {
    depth == 0 || g.isOver(s)
  }

  // ---------------------------------------------------------------------
  // The pruned search, as the source runs it

  /** The private GetBestMove(state, depth, alpha, beta, maximizing): the
      chosen move (None for null) and its score. */
  function AlphaBeta<S, M>(g: Game<S, M>, s: S, depth: nat, alpha: int, beta: int, maximizing: bool): (r: (Option<M>, int))
    ensures IntMin <= r.1 <= IntMax
    decreases depth, 1, 0
  {
    if IsLeaf(g, s, depth) then (None, Leaf(g, s))
    else if maximizing then MaxLoop(g, s, g.legalMoves(s), 0, depth - 1, alpha, beta, IntMin, None)
    else MinLoop(g, s, g.legalMoves(s), 0, depth - 1, alpha, beta, IntMax, None)
  }

  /** The maximizing foreach from move i on, with the running alpha, the
      best score so far and its move. */
  function MaxLoop<S, M>(g: Game<S, M>, s: S, moves: seq<M>, i: nat, d: nat,
                         alpha: int, beta: int, best: int, bestMove: Option<M>): (r: (Option<M>, int))
    requires i <= |moves| && IntMin <= best <= IntMax
    ensures IntMin <= r.1 <= IntMax
    decreases d + 1, 0, |moves| - i
  {
    if i == |moves| then (bestMove, best)
    else
      var score := AlphaBeta(g, g.apply(s, moves[i]), d, alpha, beta, false).1;
      var best' := if score > best then score else best;
      var bestMove' := if score > best then Some(moves[i]) else bestMove;
      var alpha' := Max(alpha, score);
      if beta <= alpha' then (bestMove', best')
      else MaxLoop(g, s, moves, i + 1, d, alpha', beta, best', bestMove')
  }

  /** The minimizing foreach from move i on, with the running beta. */
  function MinLoop<S, M>(g: Game<S, M>, s: S, moves: seq<M>, i: nat, d: nat,
                         alpha: int, beta: int, best: int, bestMove: Option<M>): (r: (Option<M>, int))
    requires i <= |moves| && IntMin <= best <= IntMax
    ensures IntMin <= r.1 <= IntMax
    decreases d + 1, 0, |moves| - i
  {
    if i == |moves| then (bestMove, best)
    else
      var score := AlphaBeta(g, g.apply(s, moves[i]), d, alpha, beta, true).1;
      var best' := if score < best then score else best;
      var bestMove' := if score < best then Some(moves[i]) else bestMove;
      var beta' := Min(beta, score);
      if beta' <= alpha then (bestMove', best')
      else MinLoop(g, s, moves, i + 1, d, alpha, beta', best', bestMove')
  }

  // ---------------------------------------------------------------------
  // The reference: the same tree without pruning

  /** The minimax value of a state. */
  function Minimax<S, M>(g: Game<S, M>, s: S, depth: nat, maximizing: bool): (v: int)
    ensures IntMin <= v <= IntMax
    decreases depth, 1, 0
  {
    if IsLeaf(g, s, depth) then Leaf(g, s)
    else if maximizing then MaxChildren(g, s, g.legalMoves(s), 0, depth - 1, IntMin)
    else MinChildren(g, s, g.legalMoves(s), 0, depth - 1, IntMax)
  }

  /** acc raised to the largest minimax value of the children from move i. */
  function MaxChildren<S, M>(g: Game<S, M>, s: S, moves: seq<M>, i: nat, d: nat, acc: int): (v: int)
    requires i <= |moves| && IntMin <= acc <= IntMax
    ensures acc <= v <= IntMax
    decreases d + 1, 0, |moves| - i
  {
    if i == |moves| then acc
    else MaxChildren(g, s, moves, i + 1, d, Max(acc, Minimax(g, g.apply(s, moves[i]), d, false)))
  }

  /** acc lowered to the smallest minimax value of the children from move i. */
  function MinChildren<S, M>(g: Game<S, M>, s: S, moves: seq<M>, i: nat, d: nat, acc: int): (v: int)
    requires i <= |moves| && IntMin <= acc <= IntMax
    ensures IntMin <= v <= acc
    decreases d + 1, 0, |moves| - i
  {
    if i == |moves| then acc
    else MinChildren(g, s, moves, i + 1, d, Min(acc, Minimax(g, g.apply(s, moves[i]), d, true)))
  }

  /** The minimax value of the child reached by moves[j]. */
  function ChildValue<S, M>(g: Game<S, M>, s: S, moves: seq<M>, j: nat, d: nat): int
    requires j < |moves|
  {
    Minimax(g, g.apply(s, moves[j]), d, false)
  }

  /** The unpruned choice at a maximizing node: the first move whose value
      is strictly above everything before it. */
  function BestChild<S, M>(g: Game<S, M>, s: S, moves: seq<M>, i: nat, d: nat,
                           best: int, bestMove: Option<M>): (Option<M>, int)
    requires i <= |moves|
    decreases |moves| - i
  {
    if i == |moves| then (bestMove, best)
    else
      var v := ChildValue(g, s, moves, i, d);
      if v > best then BestChild(g, s, moves, i + 1, d, v, Some(moves[i]))
      else BestChild(g, s, moves, i + 1, d, best, bestMove)
  }

  /** The unpruned root decision. */
  function MinimaxChoice<S, M>(g: Game<S, M>, s: S, depth: nat): (Option<M>, int) {
    if IsLeaf(g, s, depth) then (None, Leaf(g, s))
    else BestChild(g, s, g.legalMoves(s), 0, depth - 1, IntMin, None)
  }

  // ---------------------------------------------------------------------
  // Alpha-beta computes minimax

  /** The fail-soft contract of alpha-beta: a score at or below alpha is an
      upper bound of the minimax value, one at or above beta a lower bound,
      and one strictly inside the window is exact. */
  ghost predicate FailSoft(v: int, m: int, alpha: int, beta: int) {
    (v <= alpha ==> m <= v) && (v >= beta ==> v <= m) && (alpha < v < beta ==> v == m)
  }

  lemma {:induction false} AlphaBetaFailSoft<S, M>(g: Game<S, M>, s: S, depth: nat, alpha: int, beta: int, maximizing: bool)
    requires IntMin <= alpha < beta <= IntMax
    ensures FailSoft(AlphaBeta(g, s, depth, alpha, beta, maximizing).1, Minimax(g, s, depth, maximizing), alpha, beta)
    decreases depth, 1, 0
  {
    if !IsLeaf(g, s, depth) {
      if maximizing {
        MaxLoopFailSoft(g, s, g.legalMoves(s), 0, depth - 1, alpha, alpha, beta, IntMin, None, IntMin);
      } else {
        MinLoopFailSoft(g, s, g.legalMoves(s), 0, depth - 1, beta, alpha, beta, IntMax, None, IntMax);
      }
    }
  }

  /** The maximizing loop keeps: alpha is the original alpha raised to the
      best score; the minimax maximum so far is at most the best score, and
      equal to it once the best score is above the original alpha. */
  lemma {:induction false} MaxLoopFailSoft<S, M>(g: Game<S, M>, s: S, moves: seq<M>, i: nat, d: nat,
                                                 alpha0: int, alpha: int, beta: int, best: int,
                                                 bestMove: Option<M>, acc: int)
    requires i <= |moves| && IntMin <= best <= IntMax && IntMin <= acc <= IntMax
    requires IntMin <= alpha0 && alpha == Max(alpha0, best) && alpha < beta <= IntMax
    requires acc <= best && (best > alpha0 ==> acc == best)
    ensures FailSoft(MaxLoop(g, s, moves, i, d, alpha, beta, best, bestMove).1,
                     MaxChildren(g, s, moves, i, d, acc), alpha0, beta)
    decreases d + 1, 0, |moves| - i
  {
    if i < |moves| {
      var child := g.apply(s, moves[i]);
      var score := AlphaBeta(g, child, d, alpha, beta, false).1;
      var m := Minimax(g, child, d, false);
      AlphaBetaFailSoft(g, child, d, alpha, beta, false);
      var best' := if score > best then score else best;
      var acc' := Max(acc, m);
      if beta <= Max(alpha, score) {
        assert MaxChildren(g, s, moves, i + 1, d, acc') >= m;
      } else {
        MaxLoopFailSoft(g, s, moves, i + 1, d, alpha0, Max(alpha, score), beta, best',
                        if score > best then Some(moves[i]) else bestMove, acc');
      }
    }
  }

  /** The minimizing loop, mirrored. */
  lemma {:induction false} MinLoopFailSoft<S, M>(g: Game<S, M>, s: S, moves: seq<M>, i: nat, d: nat,
                                                 beta0: int, alpha: int, beta: int, best: int,
                                                 bestMove: Option<M>, acc: int)
    requires i <= |moves| && IntMin <= best <= IntMax && IntMin <= acc <= IntMax
    requires beta0 <= IntMax && beta == Min(beta0, best) && IntMin <= alpha < beta
    requires acc >= best && (best < beta0 ==> acc == best)
    ensures FailSoft(MinLoop(g, s, moves, i, d, alpha, beta, best, bestMove).1,
                     MinChildren(g, s, moves, i, d, acc), alpha, beta0)
    decreases d + 1, 0, |moves| - i
  {
    if i < |moves| {
      var child := g.apply(s, moves[i]);
      var score := AlphaBeta(g, child, d, alpha, beta, true).1;
      var m := Minimax(g, child, d, true);
      AlphaBetaFailSoft(g, child, d, alpha, beta, true);
      var best' := if score < best then score else best;
      var acc' := Min(acc, m);
      if Min(beta, score) <= alpha {
        assert MinChildren(g, s, moves, i + 1, d, acc') <= m;
      } else {
        MinLoopFailSoft(g, s, moves, i + 1, d, beta0, alpha, Min(beta, score), best',
                        if score < best then Some(moves[i]) else bestMove, acc');
      }
    }
  }

  /** With the root window (int.MinValue, int.MaxValue) the pruned score is
      the unpruned minimax value, at every depth; in particular at MaxDepth. */
  lemma RootScoreIsMinimax<S, M>(g: Game<S, M>, s: S, depth: nat, maximizing: bool)
    ensures AlphaBeta(g, s, depth, IntMin, IntMax, maximizing).1 == Minimax(g, s, depth, maximizing)
  {
    AlphaBetaFailSoft(g, s, depth, IntMin, IntMax, maximizing);
  }

  /** Once the best value is int.MaxValue nothing can beat it. */
  lemma {:induction false} BestChildSaturated<S, M>(g: Game<S, M>, s: S, moves: seq<M>, i: nat, d: nat, bestMove: Option<M>)
    requires i <= |moves|
    ensures BestChild(g, s, moves, i, d, IntMax, bestMove) == (bestMove, IntMax)
    decreases |moves| - i
  {
    if i < |moves| {
      BestChildSaturated(g, s, moves, i + 1, d, bestMove);
    }
  }

  /** At the root (alpha equal to the best so far, beta int.MaxValue) the
      pruned loop picks the same move and score as the unpruned choice. */
  lemma {:induction false} RootLoopAgrees<S, M>(g: Game<S, M>, s: S, moves: seq<M>, i: nat, d: nat,
                                                best: int, bestMove: Option<M>)
    requires i <= |moves| && IntMin <= best <= IntMax
    ensures MaxLoop(g, s, moves, i, d, best, IntMax, best, bestMove) == BestChild(g, s, moves, i, d, best, bestMove)
    decreases |moves| - i
  {
    if i < |moves| {
      var child := g.apply(s, moves[i]);
      var score := AlphaBeta(g, child, d, best, IntMax, false).1;
      if best == IntMax {
        BestChildSaturated(g, s, moves, i + 1, d, bestMove);
      } else {
        AlphaBetaFailSoft(g, child, d, best, IntMax, false);
        if score <= best {
          RootLoopAgrees(g, s, moves, i + 1, d, best, bestMove);
        } else if score < IntMax {
          RootLoopAgrees(g, s, moves, i + 1, d, score, Some(moves[i]));
        } else {
          BestChildSaturated(g, s, moves, i + 1, d, Some(moves[i]));
        }
      }
    }
  }

  /** The public GetBestMove's search (depth 3, full window, maximizing)
      returns exactly the move and score of unpruned minimax. */
  lemma RootChoiceIsMinimax<S, M>(g: Game<S, M>, s: S)
    ensures AlphaBeta(g, s, MaxDepth, IntMin, IntMax, true) == MinimaxChoice(g, s, MaxDepth)
  {
    if !IsLeaf(g, s, MaxDepth) {
      RootLoopAgrees(g, s, g.legalMoves(s), 0, MaxDepth - 1, IntMin, None);
    }
  }

  // ---------------------------------------------------------------------
  // Move selection

  /** The unpruned choice scores the minimax maximum of the children. */
  lemma {:induction false} BestChildScore<S, M>(g: Game<S, M>, s: S, moves: seq<M>, i: nat, d: nat,
                                                best: int, bestMove: Option<M>)
    requires i <= |moves| && IntMin <= best <= IntMax
    ensures BestChild(g, s, moves, i, d, best, bestMove).1 == MaxChildren(g, s, moves, i, d, best)
    decreases |moves| - i
  {
    if i < |moves| {
      var v := ChildValue(g, s, moves, i, d);
      BestChildScore(g, s, moves, i + 1, d, Max(best, v), if v > best then Some(moves[i]) else bestMove);
    }
  }

  /** Ties keep the earlier move: the choice is the first move whose value
      equals the maximum, if that maximum beats the starting best; otherwise
      the starting move stands. */
  lemma {:induction false} BestChildFirstMaximum<S, M>(g: Game<S, M>, s: S, moves: seq<M>, i: nat, d: nat,
                                                       best: int, bestMove: Option<M>)
    requires i <= |moves|
    ensures var r := BestChild(g, s, moves, i, d, best, bestMove);
      && r.1 >= best
      && (forall k :: i <= k < |moves| ==> ChildValue(g, s, moves, k, d) <= r.1)
      && (r.1 == best ==> r.0 == bestMove)
      && (r.1 > best ==>
            exists j :: i <= j < |moves| && r.0 == Some(moves[j])
              && ChildValue(g, s, moves, j, d) == r.1
              && forall k :: i <= k < j ==> ChildValue(g, s, moves, k, d) < r.1)
    decreases |moves| - i
  {
    if i < |moves| {
      var v := ChildValue(g, s, moves, i, d);
      if v > best {
        BestChildFirstMaximum(g, s, moves, i + 1, d, v, Some(moves[i]));
        var r := BestChild(g, s, moves, i + 1, d, v, Some(moves[i]));
        if r.1 == v {
          assert r.0 == Some(moves[i]) && ChildValue(g, s, moves, i, d) == r.1;
        } else {
          var j :| i + 1 <= j < |moves| && r.0 == Some(moves[j]) && ChildValue(g, s, moves, j, d) == r.1
            && forall k :: i + 1 <= k < j ==> ChildValue(g, s, moves, k, d) < r.1;
          assert forall k :: i <= k < j ==> ChildValue(g, s, moves, k, d) < r.1;
        }
      } else {
        BestChildFirstMaximum(g, s, moves, i + 1, d, best, bestMove);
      }
    }
  }

  /** The root decision of minimax: null exactly when no child scores above
      int.MinValue (or the root is a leaf); otherwise the first legal move
      reaching the best child value, which is the root value. */
  lemma RootChoiceSpec<S, M>(g: Game<S, M>, s: S, d: nat)
    requires !g.isOver(s)
    ensures var r := MinimaxChoice(g, s, d + 1); var moves := g.legalMoves(s);
      && r.1 == Minimax(g, s, d + 1, true)
      && (r.0 == None <==> r.1 == IntMin)
      && (r.0 != None ==>
            exists j :: 0 <= j < |moves| && r.0 == Some(moves[j])
              && ChildValue(g, s, moves, j, d) == r.1
              && forall k :: 0 <= k < j ==> ChildValue(g, s, moves, k, d) < r.1)
  {
    BestChildScore(g, s, g.legalMoves(s), 0, d, IntMin, None);
    BestChildFirstMaximum(g, s, g.legalMoves(s), 0, d, IntMin, None);
  }

  /** A maximizing loop only ever replaces its move by a strictly better
      one, drawn from the moves it examines. */
  lemma {:induction false} MaxLoopSelection<S, M>(g: Game<S, M>, s: S, moves: seq<M>, i: nat, d: nat,
                                                  alpha: int, beta: int, best: int, bestMove: Option<M>)
    requires i <= |moves| && IntMin <= best <= IntMax
    ensures var r := MaxLoop(g, s, moves, i, d, alpha, beta, best, bestMove);
      && r.1 >= best
      && (r.1 == best ==> r.0 == bestMove)
      && (r.1 > best ==> exists j :: i <= j < |moves| && r.0 == Some(moves[j]))
    decreases |moves| - i
  {
    if i < |moves| {
      var score := AlphaBeta(g, g.apply(s, moves[i]), d, alpha, beta, false).1;
      if beta > Max(alpha, score) {
        MaxLoopSelection(g, s, moves, i + 1, d, Max(alpha, score), beta,
                         if score > best then score else best,
                         if score > best then Some(moves[i]) else bestMove);
      }
    }
  }

  /** A minimizing loop only ever replaces its move by a strictly lower one. */
  lemma {:induction false} MinLoopSelection<S, M>(g: Game<S, M>, s: S, moves: seq<M>, i: nat, d: nat,
                                                  alpha: int, beta: int, best: int, bestMove: Option<M>)
    requires i <= |moves| && IntMin <= best <= IntMax
    ensures var r := MinLoop(g, s, moves, i, d, alpha, beta, best, bestMove);
      && r.1 <= best
      && (r.1 == best ==> r.0 == bestMove)
      && (r.1 < best ==> exists j :: i <= j < |moves| && r.0 == Some(moves[j]))
    decreases |moves| - i
  {
    if i < |moves| {
      var score := AlphaBeta(g, g.apply(s, moves[i]), d, alpha, beta, true).1;
      if Min(beta, score) > alpha {
        MinLoopSelection(g, s, moves, i + 1, d, alpha, Min(beta, score),
                         if score < best then score else best,
                         if score < best then Some(moves[i]) else bestMove);
      }
    }
  }

  /** At every node: a leaf answers null with its evaluation; a maximizing
      node answers null exactly when its score is int.MinValue, a minimizing
      one exactly when it is int.MaxValue; a non-null move is legal. */
  lemma AlphaBetaMoveSpec<S, M>(g: Game<S, M>, s: S, depth: nat, alpha: int, beta: int, maximizing: bool)
    ensures var r := AlphaBeta(g, s, depth, alpha, beta, maximizing);
      && (IsLeaf(g, s, depth) ==> r == (None, Leaf(g, s)))
      && (!IsLeaf(g, s, depth) && maximizing ==> (r.0 == None <==> r.1 == IntMin))
      && (!IsLeaf(g, s, depth) && !maximizing ==> (r.0 == None <==> r.1 == IntMax))
      && (r.0 != None ==> r.0.value in g.legalMoves(s))
  {
    if !IsLeaf(g, s, depth) {
      if maximizing {
        MaxLoopSelection(g, s, g.legalMoves(s), 0, depth - 1, alpha, beta, IntMin, None);
      } else {
        MinLoopSelection(g, s, g.legalMoves(s), 0, depth - 1, alpha, beta, IntMax, None);
      }
    }
  }

  // ---------------------------------------------------------------------
  // Pruning

  /** The maximizing loop from move i stops at a cutoff (beta <= alpha)
      before running out of moves. */
  predicate MaxCuts<S, M>(g: Game<S, M>, s: S, moves: seq<M>, i: nat, d: nat, alpha: int, beta: int)
    requires i <= |moves|
    decreases |moves| - i
  {
    i < |moves| &&
    var score := AlphaBeta(g, g.apply(s, moves[i]), d, alpha, beta, false).1;
    beta <= Max(alpha, score) || MaxCuts(g, s, moves, i + 1, d, Max(alpha, score), beta)
  }

  predicate MinCuts<S, M>(g: Game<S, M>, s: S, moves: seq<M>, i: nat, d: nat, alpha: int, beta: int)
    requires i <= |moves|
    decreases |moves| - i
  {
    i < |moves| &&
    var score := AlphaBeta(g, g.apply(s, moves[i]), d, alpha, beta, true).1;
    Min(beta, score) <= alpha || MinCuts(g, s, moves, i + 1, d, alpha, Min(beta, score))
  }

  /** No move after a cutoff is examined: appending moves behind a loop that
      cuts off does not change what it returns. */
  lemma {:induction false} MaxLoopStopsAtCutoff<S, M>(g: Game<S, M>, s: S, moves: seq<M>, extra: seq<M>, i: nat, d: nat,
                                                      alpha: int, beta: int, best: int, bestMove: Option<M>)
    requires i <= |moves| && IntMin <= best <= IntMax
    requires MaxCuts(g, s, moves, i, d, alpha, beta)
    ensures MaxLoop(g, s, moves + extra, i, d, alpha, beta, best, bestMove) ==
            MaxLoop(g, s, moves, i, d, alpha, beta, best, bestMove)
    decreases |moves| - i
  {
    assert (moves + extra)[i] == moves[i];
    var score := AlphaBeta(g, g.apply(s, moves[i]), d, alpha, beta, false).1;
    if beta > Max(alpha, score) {
      MaxLoopStopsAtCutoff(g, s, moves, extra, i + 1, d, Max(alpha, score), beta,
                           if score > best then score else best,
                           if score > best then Some(moves[i]) else bestMove);
    }
  }

  lemma {:induction false} MinLoopStopsAtCutoff<S, M>(g: Game<S, M>, s: S, moves: seq<M>, extra: seq<M>, i: nat, d: nat,
                                                      alpha: int, beta: int, best: int, bestMove: Option<M>)
    requires i <= |moves| && IntMin <= best <= IntMax
    requires MinCuts(g, s, moves, i, d, alpha, beta)
    ensures MinLoop(g, s, moves + extra, i, d, alpha, beta, best, bestMove) ==
            MinLoop(g, s, moves, i, d, alpha, beta, best, bestMove)
    decreases |moves| - i
  {
    assert (moves + extra)[i] == moves[i];
    var score := AlphaBeta(g, g.apply(s, moves[i]), d, alpha, beta, true).1;
    if Min(beta, score) > alpha {
      MinLoopStopsAtCutoff(g, s, moves, extra, i + 1, d, alpha, Min(beta, score),
                           if score < best then score else best,
                           if score < best then Some(moves[i]) else bestMove);
    }
  }

  // ---------------------------------------------------------------------
  // The imperative search

  /** The private GetBestMove: the recursive search with its foreach loops,
      running alpha and beta, and break on cutoff. */
  method Search<S, M>(g: Game<S, M>, s: S, depth: nat, alpha: int, beta: int, maximizing: bool)
    returns (move: Option<M>, score: int)
    ensures (move, score) == AlphaBeta(g, s, depth, alpha, beta, maximizing)
    decreases depth
  {
    if depth == 0 || g.isOver(s) {
      return None, g.evaluate(s, g.currentPlayer(s));
    }
    var legalMoves := g.legalMoves(s);
    if maximizing {
      var maxScore := IntMin;
      var bestMove: Option<M> := None;
      var a := alpha;
      var i := 0;
      while i < |legalMoves|
        invariant 0 <= i <= |legalMoves| && IntMin <= maxScore <= IntMax
        invariant alpha <= a
        invariant MaxLoop(g, s, legalMoves, i, depth - 1, a, beta, maxScore, bestMove) ==
                  AlphaBeta(g, s, depth, alpha, beta, true)
      {
        var newGameState := g.apply(s, legalMoves[i]);
        var childMove, childScore := Search(g, newGameState, depth - 1, a, beta, false);
        if childScore > maxScore {
          maxScore := childScore;
          bestMove := Some(legalMoves[i]);
        }
        a := Max(a, childScore);
        if beta <= a {
          break;
        }
        i := i + 1;
      }
      return bestMove, maxScore;
    } else {
      var minScore := IntMax;
      var bestMove: Option<M> := None;
      var b := beta;
      var i := 0;
      while i < |legalMoves|
        invariant 0 <= i <= |legalMoves| && IntMin <= minScore <= IntMax
        invariant b <= beta
        invariant MinLoop(g, s, legalMoves, i, depth - 1, alpha, b, minScore, bestMove) ==
                  AlphaBeta(g, s, depth, alpha, beta, false)
      {
        var newGameState := g.apply(s, legalMoves[i]);
        var childMove, childScore := Search(g, newGameState, depth - 1, alpha, b, true);
        if childScore < minScore {
          minScore := childScore;
          bestMove := Some(legalMoves[i]);
        }
        b := Min(b, childScore);
        if b <= alpha {
          break;
        }
        i := i + 1;
      }
      return bestMove, minScore;
    }
  }

  /** The public GetBestMove: the move of the depth-3 search from the full
      window, which is the first best move of unpruned minimax; null when
      the game is over or no move scores above int.MinValue. */
  method GetBestMove<S, M>(g: Game<S, M>, s: S) returns (move: Option<M>)
    ensures move == MinimaxChoice(g, s, MaxDepth).0
    ensures move != None ==> move.value in g.legalMoves(s)
    ensures g.isOver(s) ==> move == None
  {
    var score;
    move, score := Search(g, s, MaxDepth, IntMin, IntMax, true);
    RootChoiceIsMinimax(g, s);
    AlphaBetaMoveSpec(g, s, MaxDepth, IntMin, IntMax, true);
  }
}
