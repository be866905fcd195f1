/** ChessLogic.AI's leaf evaluation. EvaluateBoard adds six terms into a C#
    int with unchecked arithmetic, so every `+=` wraps modulo 2^32; the sum
    is modelled on unbounded integers and then wrapped (Wrap32), which is
    the same number. Each looping term is a method proved equal to a pure
    specification function, and the properties are proved about those
    functions. */
module Evaluation {
  import opened Pieces
  import opened Layout
  import opened Search

  // ---------------------------------------------------------------------
  // C# int arithmetic

  const Modulus: int := 0x1_0000_0000

  /** Two's-complement wrap-around of a mathematical integer. */
  function Wrap32(x: int): (w: Int32)
    ensures (x - w) % Modulus == 0
    ensures IntMin <= x <= IntMax ==> w == x
  {
    (x - IntMin) % Modulus + IntMin
  }

  /** A value in range that differs from x by a multiple of 2^32 is its wrap. */
  lemma WrapUnique(x: int, w: int, q: int)
    requires IntMin <= w <= IntMax && x == w + Modulus * q
    ensures Wrap32(x) == w
  {
    var r := (x - IntMin) % Modulus;
    var q' := (x - IntMin) / Modulus;
    assert x - IntMin == Modulus * q' + r;
    assert w - IntMin == Modulus * (q' - q) + r;
  }

  /** Wrapping after every addition is wrapping once at the end. */
  lemma WrapAdd(x: int, y: int)
    ensures Wrap32(Wrap32(x) + y) == Wrap32(x + y)
  {
    var w := Wrap32(x + y);
    var q := (x + y - IntMin) / Modulus;
    var q0 := (x - IntMin) / Modulus;
    assert x + y == w + Modulus * q;
    assert Wrap32(x) == x - Modulus * q0;
    WrapUnique(Wrap32(x) + y, w, q - q0);
  }

  // ---------------------------------------------------------------------
  // The state the evaluation reads

  datatype EndReason = Checkmate | Stalemate | InsufficientMaterial

  /** Result: the winner (None for a draw) and why the game ended. */
  datatype Result = Result(winner: Option<Player>, reason: EndReason)

  /** The parts of GameState the evaluation reads: the board, the player to
      move, and the result once the game is over. */
  datatype GameState = GameState(board: Grid, currentPlayer: Player, result: Option<Result>) {
    predicate IsGameOver() { result.Some? }
  }

  // ---------------------------------------------------------------------
  // Material

  /** MaterialAdvantage. */
  function MaterialAdvantage(whiteCount: int, blackCount: int): (r: int)
    ensures r % 10 == 0
    ensures r > 0 <==> whiteCount > blackCount
    ensures r == 0 <==> whiteCount == blackCount
  {
    (whiteCount - blackCount) * 10
  }

  /** The five material terms of EvaluateBoard, read off a tally. */
  function Material(c: Counting): int {
    MaterialAdvantage(c.WhiteCount(Pawn), c.BlackCount(Pawn))
    + MaterialAdvantage(c.WhiteCount(Knight), c.BlackCount(Knight))
    + MaterialAdvantage(c.WhiteCount(Bishop), c.BlackCount(Bishop))
    + MaterialAdvantage(c.WhiteCount(Rook), c.BlackCount(Rook))
    + MaterialAdvantage(c.WhiteCount(Queen), c.BlackCount(Queen))
  }

  /** The material term of a board, from Board.CountPieces. */
  function BoardMaterial(g: Grid): int {
    Material(Tally(g, PiecePositions(g)))
  }

  /** The pieces of one colour, split by kind. */
  lemma {:induction false} CountByKinds(g: Grid, hi: nat, p: Player)
    requires hi <= 64
    ensures Count(g, 0, hi, OfColor(p)) ==
      Count(g, 0, hi, OfKind(p, Pawn)) + Count(g, 0, hi, OfKind(p, Knight))
      + Count(g, 0, hi, OfKind(p, Bishop)) + Count(g, 0, hi, OfKind(p, Rook))
      + Count(g, 0, hi, OfKind(p, Queen)) + Count(g, 0, hi, OfKind(p, King))
  {
    if hi > 0 {
      CountByKinds(g, hi - 1, p);
    }
  }

  /** The pieces of p other than kings. */
  function NonKings(g: Grid, p: Player): int {
    Count(g, 0, 64, OfColor(p)) - Count(g, 0, 64, OfKind(p, King))
  }

  /** The material term is ten times White's non-king pieces minus Black's,
      whoever the evaluation is for. */
  lemma MaterialSpec(g: Grid)
    ensures BoardMaterial(g) == 10 * (NonKings(g, White) - NonKings(g, Black))
  {
    TallyOfScan(g, 64);
    CountByKinds(g, 64, White);
    CountByKinds(g, 64, Black);
  }

  // ---------------------------------------------------------------------
  // Center control

  function Abs(x: int): nat { if x < 0 then -x else x }

  /** |r - 3| + |c - 3|. */
  function Distance(sq: Square): (d: nat)
    ensures d <= 8
    ensures d == 0 <==> sq == Position(3, 3)
  {
    Abs(sq.row - 3) + Abs(sq.column - 3)
  }

  /** The contribution of one cell: the distance for the player's own piece,
      its negation for the other side's, nothing for an empty cell. */
  function CenterTerm(cell: Option<Piece>, sq: Square, player: Player): int {
    match cell
    case None => 0
    case Some(piece) => if piece.color == player then Distance(sq) as int else -(Distance(sq) as int)
  }

  /** The center-control sum over cells 0..n-1 in row-major order. */
  function CenterControl(g: Grid, player: Player, n: nat): int
    requires n <= 64
  {
    if n == 0 then 0
    else CenterControl(g, player, n - 1) + CenterTerm(g[n - 1], SquareAt(n - 1), player)
  }

  /** Each cell adds at most 8 in either direction. */
  lemma {:induction false} CenterControlBounds(g: Grid, player: Player, n: nat)
    requires n <= 64
    ensures -8 * n <= CenterControl(g, player, n) <= 8 * n
  {
    if n > 0 {
      CenterControlBounds(g, player, n - 1);
    }
  }

  /** With two players, a piece that is not the player's is the opponent's. */
  lemma CenterTermSwap(cell: Option<Piece>, sq: Square, player: Player)
    ensures CenterTerm(cell, sq, Opponent(player)) == -CenterTerm(cell, sq, player)
  {
  }

  /** With two players, evaluating for the other side negates the term. */
  lemma {:induction false} CenterControlSwap(g: Grid, player: Player, n: nat)
    requires n <= 64
    ensures CenterControl(g, Opponent(player), n) == -CenterControl(g, player, n)
  {
    if n > 0 {
      CenterControlSwap(g, player, n - 1);
      CenterTermSwap(g[n - 1], SquareAt(n - 1), player);
    }
  }

  /** One step of the row-major sum, at row r and column c. */
  lemma CenterStep(g: Grid, player: Player, r: nat, c: nat)
    requires r < 8 && c < 8
    ensures CenterControl(g, player, 8 * r + c + 1) == CenterControl(g, player, 8 * r + c) +
      (if g[8 * r + c].None? then 0
       else if g[8 * r + c].value.color == player then Abs(r - 3) + Abs(c - 3)
       else -(Abs(r - 3) + Abs(c - 3)))
  {
    var k, pos := 8 * r + c, Position(r, c);
    SquareAtIndex(pos);
    assert SquareAt(k) == pos;
    assert CenterControl(g, player, k + 1) == CenterControl(g, player, k) + CenterTerm(g[k], pos, player);
  }

  /** CenterControlScore: the double loop over rows and columns. */
  method CenterControlScore(s: GameState, player: Player) returns (score: int)
    ensures score == CenterControl(s.board, player, 64)
  {
    score := 0;
    for r := 0 to 8
      invariant score == CenterControl(s.board, player, 8 * r)
    {
      for c := 0 to 8
        invariant score == CenterControl(s.board, player, 8 * r + c)
      {
        CenterStep(s.board, player, r, c);
        var piece := s.board[8 * r + c];
        if piece.Some? {
          var distanceToCenter := Abs(r - 3) + Abs(c - 3);
          if piece.value.color == player {
            score := score + distanceToCenter;
          } else {
            score := score - distanceToCenter;
          }
        }
      }
    }
  }

  // ---------------------------------------------------------------------
  // Mobility

  /** The number of pseudo-legal moves of the pieces on ps. */
  function MobilitySum(g: Grid, ps: seq<Square>, rules: PieceRules): nat {
    if ps == [] then 0
    else
      var last := ps[|ps| - 1];
      MobilitySum(g, ps[..|ps| - 1], rules)
      + (match At(g, last) case Some(piece) => |rules.moves(piece, last, g)| case None => 0)
  }

  /** The mobility of player: all the pseudo-legal moves of its pieces. */
  function Mobility(g: Grid, player: Player, rules: PieceRules): nat {
    MobilitySum(g, PiecePositionsFor(g, player), rules)
  }

  /** MobilityScore: the loop over the player's pieces, accumulating in a
      C# int. */
  method MobilityScore(s: GameState, player: Player, rules: PieceRules) returns (score: int)
    ensures score == Wrap32(Mobility(s.board, player, rules))
    ensures Mobility(s.board, player, rules) <= IntMax ==> score >= 0
  {
    score := 0;
    var positions := PiecePositionsFor(s.board, player);
    for i := 0 to |positions|
      invariant score == Wrap32(MobilitySum(s.board, positions[..i], rules))
    {
      var pos := positions[i];
      assert positions[..i + 1][..i] == positions[..i];
      var piece := At(s.board, pos);
      if piece.Some? {
        WrapAdd(MobilitySum(s.board, positions[..i], rules), |rules.moves(piece.value, pos, s.board)|);
        score := Wrap32(score + |rules.moves(piece.value, pos, s.board)|);
      }
    }
    assert positions[..|positions|] == positions;
  }

  // ---------------------------------------------------------------------
  // Development

  /** The row DevelopmentScore inspects: 0 for White, 7 for Black. */
  function DevelopmentRow(player: Player): nat {
    if player == White then 0 else 7
  }

  /** Ten points per pawn of player on its development row. */
  function Development(g: Grid, player: Player): (r: int)
    ensures r % 10 == 0 && 0 <= r <= 80
  {
    var row := DevelopmentRow(player);
    10 * Count(g, 8 * row, 8 * row + 8, OfKind(player, Pawn))
  }

  /** DevelopmentScore: the loop over the columns of the row. */
  method DevelopmentScore(s: GameState, player: Player) returns (score: int)
    ensures score == Development(s.board, player)
  {
    score := 0;
    var row := if player == White then 0 else 7;
    for c := 0 to 8
      invariant score == 10 * Count(s.board, 8 * row, 8 * row + c, OfKind(player, Pawn))
    {
      var piece := s.board[8 * row + c];
      if piece.Some? && piece.value.color == player && piece.value.kind == Pawn {
        score := score + 10;
      }
    }
  }

  // ---------------------------------------------------------------------
  // Check and mate

  /** CheckAndMateScore's case table. C#'s `-int.MaxValue / 2` is
      -(int.MaxValue / 2): division truncates toward zero. */
  function CheckAndMate(s: GameState, player: Player, rules: PieceRules): (r: Int32)
    ensures r == IntMax <==> s.IsGameOver() && s.result.value == Result(Some(player), Checkmate)
    ensures r == IntMin <==> s.IsGameOver() && s.result.value.reason == Checkmate && s.result.value.winner != Some(player)
    ensures !s.IsGameOver() ==> (r != 0 <==> InCheck(s.board, player, rules.canCaptureKing))
    ensures !s.IsGameOver() ==> (r > 0 <==> InCheck(s.board, player, rules.canCaptureKing) && player == s.currentPlayer)
  {
    if s.IsGameOver() then
      match s.result.value.reason
      case Checkmate => if s.result.value.winner == Some(player) then IntMax else IntMin
      case Stalemate => 0
      case InsufficientMaterial => 0
    else if InCheck(s.board, player, rules.canCaptureKing) then
      if player == s.currentPlayer then IntMax / 2 else -(IntMax / 2)
    else 0
  }

  /** The cases, with C#'s values: a checkmate is worth int.MaxValue to
      its winner and int.MinValue to anyone else; a draw is worth 0; a
      player in check in a running game gets +1073741823 when it is to move
      and -1073741823 otherwise, whatever piece gives the check. */
  lemma CheckAndMateCases(s: GameState, player: Player, rules: PieceRules)
    ensures s.IsGameOver() && s.result.value.reason == Checkmate ==>
      CheckAndMate(s, player, rules) == (if s.result.value.winner == Some(player) then 0x7fff_ffff else -0x8000_0000)
    ensures s.IsGameOver() && s.result.value.reason != Checkmate ==> CheckAndMate(s, player, rules) == 0
    ensures !s.IsGameOver() ==>
      CheckAndMate(s, player, rules) ==
        (if !(exists k :: 0 <= k < 64 && Attacks(s.board, k, player, rules.canCaptureKing)) then 0
         else if player == s.currentPlayer then 1073741823 else -1073741823)
  {
    InCheckSpec(s.board, player, rules.canCaptureKing);
  }

  // ---------------------------------------------------------------------
  // King safety

  /** Some square in ts holds player's king. */
  predicate KingAmong(g: Grid, player: Player, ts: seq<Square>) {
    exists i :: 0 <= i < |ts| && Selects(OfKind(player, King), At(g, ts[i]))
  }

  /** Cell k holds an opposing piece one of whose pseudo-legal moves lands
      on player's king. */
  predicate Threatens(g: Grid, player: Player, rules: PieceRules, k: nat)
    requires k < 64
  {
    Selects(OfColor(Opponent(player)), g[k])
    && KingAmong(g, player, rules.moves(g[k].value, SquareAt(k), g))
  }

  function KingSafety(g: Grid, player: Player, rules: PieceRules): int {
    if exists k :: 0 <= k < 64 && Threatens(g, player, rules, k) then -10 else 0
  }

  /** Threatens at row r, column c, in the terms the scan uses. */
  lemma ThreatensAt(g: Grid, player: Player, rules: PieceRules, r: nat, c: nat)
    requires r < 8 && c < 8
    ensures Threatens(g, player, rules, 8 * r + c) <==>
      g[8 * r + c].Some? && g[8 * r + c].value.color == Opponent(player)
      && KingAmong(g, player, rules.moves(g[8 * r + c].value, Position(r, c), g))
  {
    SquareAtIndex(Position(r, c));
  }

  /** KingSafetyScore: the scan of the opposing pieces and their moves,
      returning -10 at the first move onto player's king. */
  method KingSafetyScore(s: GameState, player: Player, rules: PieceRules) returns (score: int)
    ensures score == KingSafety(s.board, player, rules)
    ensures score == -10 <==> exists k :: 0 <= k < 64 && Threatens(s.board, player, rules, k)
    ensures score == 0 || score == -10
  {
    var g := s.board;
    for r := 0 to 8
      invariant forall k :: 0 <= k < 8 * r ==> !Threatens(g, player, rules, k)
    {
      for c := 0 to 8
        invariant forall k :: 0 <= k < 8 * r + c ==> !Threatens(g, player, rules, k)
      {
        ThreatensAt(g, player, rules, r, c);
        var piece := g[8 * r + c];
        if piece.Some? && piece.value.color == Opponent(player) {
          var threateningPositions := rules.moves(piece.value, Position(r, c), g);
          for j := 0 to |threateningPositions|
            invariant forall i :: 0 <= i < j ==> !Selects(OfKind(player, King), At(g, threateningPositions[i]))
          {
            var target := At(g, threateningPositions[j]);
            if target.Some? && target.value.kind == King && target.value.color == player {
              assert Selects(OfKind(player, King), At(g, threateningPositions[j]));
              assert Threatens(g, player, rules, 8 * r + c);
              return -10;
            }
          }
        }
      }
    }
    return 0;
  }

  // ---------------------------------------------------------------------
  // The whole evaluation

  /** The ten values EvaluateBoard adds to its score, in order: five
      material terms from the tally of Board.CountPieces, then center
      control, the int MobilityScore returns, development, check and mate,
      and king safety. */
  function Terms(s: GameState, player: Player, rules: PieceRules): seq<int> {
    var counting := Tally(s.board, PiecePositions(s.board));
    [ MaterialAdvantage(counting.WhiteCount(Pawn), counting.BlackCount(Pawn)),
      MaterialAdvantage(counting.WhiteCount(Knight), counting.BlackCount(Knight)),
      MaterialAdvantage(counting.WhiteCount(Bishop), counting.BlackCount(Bishop)),
      MaterialAdvantage(counting.WhiteCount(Rook), counting.BlackCount(Rook)),
      MaterialAdvantage(counting.WhiteCount(Queen), counting.BlackCount(Queen)),
      CenterControl(s.board, player, 64),
      Wrap32(Mobility(s.board, player, rules)),
      Development(s.board, player),
      CheckAndMate(s, player, rules),
      KingSafety(s.board, player, rules) ]
  }

  /** xs[0] + ... + xs[n-1]. */
  function Sum(xs: seq<int>, n: nat): int
    requires n <= |xs|
  {
    if n == 0 then 0 else Sum(xs, n - 1) + xs[n - 1]
  }

  /** `score = 0` followed by one wrapping `score += x` for each of
      xs[0], ..., xs[n-1]. */
  function Accumulate(xs: seq<int>, n: nat): Int32
    requires n <= |xs|
  {
    if n == 0 then 0 else Wrap32(Accumulate(xs, n - 1) + xs[n - 1])
  }

  /** Wrapping at every addition is wrapping the exact sum once. */
  lemma {:induction false} AccumulateIsWrappedSum(xs: seq<int>, n: nat)
    requires n <= |xs|
    ensures Accumulate(xs, n) == Wrap32(Sum(xs, n))
  {
    if n > 0 {
      AccumulateIsWrappedSum(xs, n - 1);
      WrapAdd(Sum(xs, n - 1), xs[n - 1]);
    }
  }

  /** The exact sum of the terms. */
  function Score(s: GameState, player: Player, rules: PieceRules): int {
    Sum(Terms(s, player, rules), 10)
  }

  /** The sum is the material term plus the five positional terms. */
  lemma ScoreSpec(s: GameState, player: Player, rules: PieceRules)
    ensures Score(s, player, rules) ==
      BoardMaterial(s.board)
      + CenterControl(s.board, player, 64)
      + Wrap32(Mobility(s.board, player, rules))
      + Development(s.board, player)
      + CheckAndMate(s, player, rules)
      + KingSafety(s.board, player, rules)
  {
    SumOfTen(Terms(s, player, rules));
  }

  lemma SumOfTen(ts: seq<int>)
    requires |ts| == 10
    ensures Sum(ts, 10) == ts[0] + ts[1] + ts[2] + ts[3] + ts[4] + ts[5] + ts[6] + ts[7] + ts[8] + ts[9]
  {
    assert Sum(ts, 1) == ts[0];
    assert Sum(ts, 2) == Sum(ts, 1) + ts[1];
    assert Sum(ts, 3) == Sum(ts, 2) + ts[2];
    assert Sum(ts, 4) == Sum(ts, 3) + ts[3];
    assert Sum(ts, 5) == Sum(ts, 4) + ts[4];
    assert Sum(ts, 6) == Sum(ts, 5) + ts[5];
    assert Sum(ts, 7) == Sum(ts, 6) + ts[6];
    assert Sum(ts, 8) == Sum(ts, 7) + ts[7];
    assert Sum(ts, 9) == Sum(ts, 8) + ts[8];
  }

  /** EvaluateBoard, as C# computes it: the terms added one by one into an
      int, wrapping modulo 2^32. The result is the exact sum when that fits
      in an int, and otherwise differs from it by a multiple of 2^32:
      nothing saturates a checkmate score. */
  function EvaluateBoard(s: GameState, player: Player, rules: PieceRules): (r: Int32)
    ensures r == Wrap32(Score(s, player, rules))
    ensures IntMin <= Score(s, player, rules) <= IntMax ==> r == Score(s, player, rules)
    ensures (Score(s, player, rules) - r) % Modulus == 0
  {
    AccumulateIsWrappedSum(Terms(s, player, rules), 10);
    Accumulate(Terms(s, player, rules), 10)
  }

  /** The missing overflow guard: when the player has won by checkmate and
      the other terms add up to something positive, EvaluateBoard wraps
      int.MaxValue past the top and reports a large negative score. */
  lemma CheckmateScoreWraps(s: GameState, player: Player, rules: PieceRules)
    requires s.IsGameOver() && s.result.value == Result(Some(player), Checkmate)
    requires 0 < Score(s, player, rules) - IntMax <= IntMax
    ensures EvaluateBoard(s, player, rules) < 0
    ensures EvaluateBoard(s, player, rules) == Score(s, player, rules) - Modulus
  {
    WrapUnique(Score(s, player, rules), Score(s, player, rules) - Modulus, 1);
  }

  // ---------------------------------------------------------------------
  // The chess instance of the search

  /** The search over chess states: legal moves and making a move are
      parameters; the game is over once a result is recorded, and leaves are
      scored by EvaluateBoard. */
  function ChessGame<M>(legalMoves: GameState -> seq<M>, apply: (GameState, M) -> GameState, rules: PieceRules): Game<GameState, M>
  {
    Game(legalMoves, apply, (s: GameState) => s.IsGameOver(), (s: GameState) => s.currentPlayer,
         (s: GameState, p: Player) => EvaluateBoard(s, p, rules))
  }

  /** At depth 0, or once the game has a result, the chess search answers
      null and EvaluateBoard for the state's own player to move, whatever
      the window and whichever side the node maximizes. */
  lemma ChessLeaf<M>(legalMoves: GameState -> seq<M>, apply: (GameState, M) -> GameState, rules: PieceRules,
                     s: GameState, depth: nat, alpha: int, beta: int, maximizing: bool)
    requires depth == 0 || s.IsGameOver()
    ensures AlphaBeta(ChessGame(legalMoves, apply, rules), s, depth, alpha, beta, maximizing) ==
      (None, EvaluateBoard(s, s.currentPlayer, rules))
  {
  }

  /** AI.GetBestMove on a chess state: the first best move of depth-3
      minimax, a legal move when there is one, and null once the game has a
      result. */
  method BestMove<M>(legalMoves: GameState -> seq<M>, apply: (GameState, M) -> GameState, rules: PieceRules,
                     s: GameState) returns (move: Option<M>)
    ensures move == MinimaxChoice(ChessGame(legalMoves, apply, rules), s, MaxDepth).0
    ensures move.Some? ==> move.value in legalMoves(s)
    ensures s.IsGameOver() ==> move == None
  {
    move := GetBestMove(ChessGame(legalMoves, apply, rules), s);
  }
}
