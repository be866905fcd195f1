/** The contents of a board as a value: 64 optional pieces in row-major
    order (cell 8 * row + column), with the queries the board answers about
    them: enumeration of occupied cells, tallies and check detection.
    The board class and the evaluator are both specified in these terms. */
module Layout {
  import opened Pieces

  /** 64 cells, row-major. */
  type Grid = g: seq<Option<Piece>> | |g| == 64 witness EmptyGrid()

  function EmptyGrid(): (g: seq<Option<Piece>>)
    ensures |g| == 64 && forall k :: 0 <= k < 64 ==> g[k] == None
  {
    seq(64, _ => None)
  }

  /** Board.IsInside: both coordinates in 0..7. */
  predicate IsInside(pos: Position)
    ensures IsInside(pos) <==> 0 <= pos.column < 8 && 0 <= 8 * pos.row + pos.column < 64
  {
    pos.row >= 0 && pos.row < 8 && pos.column >= 0 && pos.column < 8
  }

  /** A position on the board. */
  type Square = p: Position | IsInside(p) witness Position(0, 0)

  /** The row-major index of a square. */
  function Index(sq: Square): (k: nat)
    ensures k < 64
    ensures k / 8 == sq.row && k % 8 == sq.column
  {
    8 * sq.row + sq.column
  }

  /** The square of a row-major index; the inverse of Index. */
  function SquareAt(k: nat): (sq: Square)
    requires k < 64
    ensures Index(sq) == k
  {
    Position(k / 8, k % 8)
  }

  lemma SquareAtIndex(sq: Square)
    ensures SquareAt(Index(sq)) == sq
  {
  }

  /** Distinct indices name distinct squares. */
  lemma SquareAtInjective(j: nat, k: nat)
    requires j < 64 && k < 64 && j != k
    ensures SquareAt(j) != SquareAt(k)
  {
    assert Index(SquareAt(j)) == j;
  }

  /** The 64 squares, row-major. */
  function AllSquares(): (s: seq<Square>)
    ensures |s| == 64
    ensures forall k :: 0 <= k < 64 ==> s[k] == SquareAt(k)
  {
    seq(64, k requires 0 <= k < 64 => SquareAt(k))
  }

  /** IsInside holds exactly of the 64 squares of the board. */
  lemma InsideIffOnBoard(pos: Position)
    ensures IsInside(pos) <==> pos in AllSquares()
  {
    if IsInside(pos) {
      var k := Index(pos);
      assert AllSquares()[k] == SquareAt(k) == pos;
    }
  }

  function At(g: Grid, sq: Square): Option<Piece> {
    g[Index(sq)]
  }

  /** What a scan or a tally picks out of a cell. */
  datatype Selector = AnyPiece | OfColor(color: Player) | OfKind(color: Player, kind: PieceType)

  predicate Selects(sel: Selector, cell: Option<Piece>) {
    match sel
    case AnyPiece => cell.Some?
    case OfColor(p) => cell.Some? && cell.value.color == p
    case OfKind(p, t) => cell.Some? && cell.value.color == p && cell.value.kind == t
  }

  /** The number of cells in lo..hi-1 that the selector picks out. */
  function Count(g: Grid, lo: nat, hi: nat, sel: Selector): (n: nat)
    requires lo <= hi <= 64
    ensures n <= hi - lo
    decreases hi - lo
  {
    if lo == hi then 0
    else Count(g, lo, hi - 1, sel) + (if Selects(sel, g[hi - 1]) then 1 else 0)
  }

  lemma {:induction false} CountSplit(g: Grid, lo: nat, mid: nat, hi: nat, sel: Selector)
    requires lo <= mid <= hi <= 64
    ensures Count(g, lo, hi, sel) == Count(g, lo, mid, sel) + Count(g, mid, hi, sel)
    decreases hi - mid
  {
    if hi > mid {
      CountSplit(g, lo, mid, hi - 1, sel);
    }
  }

  /** A count over three adjacent ranges is the sum of the three. */
  lemma CountOfParts(g: Grid, lo: nat, a: nat, b: nat, hi: nat, sel: Selector, x: nat, y: nat, z: nat)
    requires lo <= a <= b <= hi <= 64
    requires Count(g, lo, a, sel) == x && Count(g, a, b, sel) == y && Count(g, b, hi, sel) == z
    ensures Count(g, lo, hi, sel) == x + y + z
  {
    CountSplit(g, lo, a, hi, sel);
    CountSplit(g, a, b, hi, sel);
  }

  /** A range whose every cell is picked out counts its full length. */
  lemma {:induction false} CountAll(g: Grid, lo: nat, hi: nat, sel: Selector)
    requires lo <= hi <= 64
    requires forall k :: lo <= k < hi ==> Selects(sel, g[k])
    ensures Count(g, lo, hi, sel) == hi - lo
    decreases hi - lo
  {
    if hi > lo {
      CountAll(g, lo, hi - 1, sel);
    }
  }

  /** A range with no cell picked out counts zero. */
  lemma {:induction false} CountNone(g: Grid, lo: nat, hi: nat, sel: Selector)
    requires lo <= hi <= 64
    requires forall k :: lo <= k < hi ==> !Selects(sel, g[k])
    ensures Count(g, lo, hi, sel) == 0
    decreases hi - lo
  {
    if hi > lo {
      CountNone(g, lo, hi - 1, sel);
    }
  }

  /** Writing one cell changes a count by what leaves and what enters it. */
  lemma {:induction false} CountUpdate(g: Grid, lo: nat, hi: nat, sel: Selector, k: nat, v: Option<Piece>)
    requires lo <= hi <= 64 && k < 64
    ensures Count(g[k := v], lo, hi, sel) ==
      Count(g, lo, hi, sel)
      - (if lo <= k < hi && Selects(sel, g[k]) then 1 else 0)
      + (if lo <= k < hi && Selects(sel, v) then 1 else 0)
    decreases hi - lo
  {
    if hi > lo {
      CountUpdate(g, lo, hi - 1, sel, k, v);
    }
  }

  /** Board.PiecePositions generalised: the squares of cells 0..n-1 that the
      selector picks out, in row-major order. */
  function Scan(g: Grid, n: nat, sel: Selector): seq<Square>
    requires n <= 64
  {
    if n == 0 then []
    else Scan(g, n - 1, sel) + (if Selects(sel, g[n - 1]) then [SquareAt(n - 1)] else [])
  }

  /** A scan holds as many squares as Count says. */
  lemma {:induction false} ScanLength(g: Grid, n: nat, sel: Selector)
    requires n <= 64
    ensures |Scan(g, n, sel)| == Count(g, 0, n, sel)
  {
    if n > 0 {
      ScanLength(g, n - 1, sel);
    }
  }

  /** Every square a scan lists lies below n and is picked out. */
  lemma {:induction false} ScanSound(g: Grid, n: nat, sel: Selector)
    requires n <= 64
    ensures forall j :: 0 <= j < |Scan(g, n, sel)| ==>
      Index(Scan(g, n, sel)[j]) < n && Selects(sel, At(g, Scan(g, n, sel)[j]))
  {
    if n > 0 {
      ScanSound(g, n - 1, sel);
    }
  }

  /** A scan lists squares in strictly increasing row-major order, so each
      at most once. */
  lemma {:induction false} ScanSorted(g: Grid, n: nat, sel: Selector)
    requires n <= 64
    ensures forall i, j :: 0 <= i < j < |Scan(g, n, sel)| ==>
      Index(Scan(g, n, sel)[i]) < Index(Scan(g, n, sel)[j])
  {
    if n > 0 {
      ScanSorted(g, n - 1, sel);
      ScanSound(g, n - 1, sel);
      var s0 := Scan(g, n - 1, sel);
      var s := Scan(g, n, sel);
      if Selects(sel, g[n - 1]) {
        assert s == s0 + [SquareAt(n - 1)];
        forall i, j | 0 <= i < j < |s|
          ensures Index(s[i]) < Index(s[j])
        {
          if j < |s0| {
            assert s[i] == s0[i] && s[j] == s0[j];
          } else {
            assert s[i] == s0[i] && s[j] == SquareAt(n - 1);
          }
        }
      } else {
        assert s == s0;
      }
    }
  }

  /** Every picked-out cell below n appears in the scan. */
  lemma {:induction false} ScanComplete(g: Grid, n: nat, sel: Selector)
    requires n <= 64
    ensures forall k :: 0 <= k < n && Selects(sel, g[k]) ==> SquareAt(k) in Scan(g, n, sel)
  {
    if n > 0 {
      ScanComplete(g, n - 1, sel);
      var s0 := Scan(g, n - 1, sel);
      var s := Scan(g, n, sel);
      if Selects(sel, g[n - 1]) {
        assert s == s0 + [SquareAt(n - 1)];
        assert s[|s| - 1] == SquareAt(n - 1);
      } else {
        assert s == s0;
      }
    }
  }

  /** A scan lists exactly the picked-out cells, each once, in increasing
      row-major order, and as many as Count says. */
  lemma ScanSpec(g: Grid, n: nat, sel: Selector)
    requires n <= 64
    ensures var s := Scan(g, n, sel);
      && |s| == Count(g, 0, n, sel)
      && (forall j :: 0 <= j < |s| ==> Index(s[j]) < n && Selects(sel, At(g, s[j])))
      && (forall i, j :: 0 <= i < j < |s| ==> Index(s[i]) < Index(s[j]))
      && (forall k :: 0 <= k < n && Selects(sel, g[k]) ==> SquareAt(k) in s)
  {
    ScanLength(g, n, sel);
    ScanSound(g, n, sel);
    ScanSorted(g, n, sel);
    ScanComplete(g, n, sel);
  }

  /** Board.PiecePositions: every occupied square, row-major. */
  function PiecePositions(g: Grid): seq<Square> {
    Scan(g, 64, AnyPiece)
  }

  /** The squares of ps whose cell holds a piece of colour p, order kept
      (the Where filter of Board.PiecePositionsFor). */
  function FilterColor(g: Grid, ps: seq<Square>, p: Player): seq<Square> {
    if ps == [] then []
    else
      var last := ps[|ps| - 1];
      FilterColor(g, ps[..|ps| - 1], p) + (if Selects(OfColor(p), At(g, last)) then [last] else [])
  }

  /** Board.PiecePositionsFor. */
  function PiecePositionsFor(g: Grid, p: Player): seq<Square> {
    FilterColor(g, PiecePositions(g), p)
  }

  lemma {:induction false} FilterOfScan(g: Grid, n: nat, p: Player)
    requires n <= 64
    ensures FilterColor(g, Scan(g, n, AnyPiece), p) == Scan(g, n, OfColor(p))
  {
    if n > 0 {
      FilterOfScan(g, n - 1, p);
      var s0 := Scan(g, n - 1, AnyPiece);
      if g[n - 1].Some? {
        var s := s0 + [SquareAt(n - 1)];
        assert Scan(g, n, AnyPiece) == s;
        assert s[..|s| - 1] == s0;
      } else {
        assert Scan(g, n, AnyPiece) == s0;
      }
    }
  }

  /** PiecePositionsFor(p) is the row-major scan of the cells holding a
      piece of colour p: the occupied squares filtered to p, order kept. */
  lemma PiecePositionsForSpec(g: Grid, p: Player)
    ensures PiecePositionsFor(g, p) == Scan(g, 64, OfColor(p))
    ensures var s := PiecePositionsFor(g, p);
      && (forall j :: 0 <= j < |s| ==> Selects(OfColor(p), At(g, s[j])))
      && (forall i, j :: 0 <= i < j < |s| ==> Index(s[i]) < Index(s[j]))
      && (forall k :: 0 <= k < 64 && Selects(OfColor(p), g[k]) ==> SquareAt(k) in s)
  {
    FilterOfScan(g, 64, p);
    ScanSpec(g, 64, OfColor(p));
  }

  /** The two callbacks of a piece that the board model cannot see: its
      pseudo-legal destinations (Piece.GetMoves, as target squares) and
      whether it attacks the opposing king (Piece.CanCaptureOpponentKing). */
  datatype PieceRules = PieceRules(
    moves: (Piece, Square, Grid) -> seq<Square>,
    canCaptureKing: (Piece, Square, Grid) -> bool)

  /** Cell k holds a piece of p's opponent that can capture p's king. */
  predicate Attacks(g: Grid, k: nat, p: Player, canCapture: (Piece, Square, Grid) -> bool)
    requires k < 64
  {
    Selects(OfColor(Opponent(p)), g[k]) && canCapture(g[k].value, SquareAt(k), g)
  }

  /** Board.IsInCheck: some opposing piece, in scan order, can capture. */
  function InCheck(g: Grid, p: Player, canCapture: (Piece, Square, Grid) -> bool): bool {
    var ps := PiecePositionsFor(g, Opponent(p));
    exists j :: 0 <= j < |ps| && At(g, ps[j]).Some? && canCapture(At(g, ps[j]).value, ps[j], g)
  }

  /** p is in check exactly when some cell holds an opposing piece that can
      capture p's king. */
  lemma InCheckSpec(g: Grid, p: Player, canCapture: (Piece, Square, Grid) -> bool)
    ensures InCheck(g, p, canCapture) <==> exists k :: 0 <= k < 64 && Attacks(g, k, p, canCapture)
  {
    var ps := PiecePositionsFor(g, Opponent(p));
    PiecePositionsForSpec(g, Opponent(p));
    if InCheck(g, p, canCapture) {
      var j :| 0 <= j < |ps| && At(g, ps[j]).Some? && canCapture(At(g, ps[j]).value, ps[j], g);
      var k := Index(ps[j]);
      SquareAtIndex(ps[j]);
      assert Attacks(g, k, p, canCapture);
    }
    if exists k :: 0 <= k < 64 && Attacks(g, k, p, canCapture) {
      var k :| 0 <= k < 64 && Attacks(g, k, p, canCapture);
      assert SquareAt(k) in ps;
      var j :| 0 <= j < |ps| && ps[j] == SquareAt(k);
      assert At(g, ps[j]) == g[k];
    }
  }

  /** The per-colour, per-type tally of pieces plus a total. */
  datatype Counting = Counting(white: map<PieceType, nat>, black: map<PieceType, nat>, totalCount: nat) {

    function CountOf(color: Player, kind: PieceType): nat {
      var m := if color == White then white else black;
      if kind in m then m[kind] else 0
    }

    function WhiteCount(kind: PieceType): nat { CountOf(White, kind) }

    function BlackCount(kind: PieceType): nat { CountOf(Black, kind) }

    /** Counting.Increment: one more piece of this colour and type. */
    function Increment(color: Player, kind: PieceType): (c: Counting)
      ensures c.totalCount == totalCount + 1
      ensures forall p, t :: c.CountOf(p, t) == CountOf(p, t) + (if p == color && t == kind then 1 else 0)
    {
      if color == White then Counting(white[kind := CountOf(White, kind) + 1], black, totalCount + 1)
      else Counting(white, black[kind := CountOf(Black, kind) + 1], totalCount + 1)
    }
  }

  const NoPieces := Counting(map[], map[], 0)

  /** The tally of the pieces standing on the squares ps, in order. */
  function Tally(g: Grid, ps: seq<Square>): Counting {
    if ps == [] then NoPieces
    else
      var c := Tally(g, ps[..|ps| - 1]);
      match At(g, ps[|ps| - 1])
      case Some(piece) => c.Increment(piece.color, piece.kind)
      case None => c
  }

  /** Tallying the occupied squares counts, per colour and type, the cells
      holding such a piece, and in total the occupied cells. */
  lemma {:induction false} TallyOfScan(g: Grid, n: nat)
    requires n <= 64
    ensures Tally(g, Scan(g, n, AnyPiece)).totalCount == Count(g, 0, n, AnyPiece)
    ensures forall p, t :: Tally(g, Scan(g, n, AnyPiece)).CountOf(p, t) == Count(g, 0, n, OfKind(p, t))
  {
    if n > 0 {
      TallyOfScan(g, n - 1);
      var s0 := Scan(g, n - 1, AnyPiece);
      if g[n - 1].Some? {
        var s := s0 + [SquareAt(n - 1)];
        assert Scan(g, n, AnyPiece) == s;
        assert s[..|s| - 1] == s0;
      } else {
        assert Scan(g, n, AnyPiece) == s0;
      }
    }
  }
}
