/** ChessLogic.Board: an 8x8 array of optional pieces written in place.
    Cells() reads the array as a row-major Layout.Grid; every operation is
    specified against it. */
module Boards {
  import opened Pieces
  import opened Layout

  /** The back rank, files a to h, as both colours set it up. */
  function BackRank(c: nat): PieceType
    requires c < 8
  {
    [Rook, Knight, Bishop, Queen, King, Bishop, Knight, Rook][c]
  }

  /** The starting content of row-major cell k: Black's back rank on row 0
      (cells 0-7) and pawns on row 1, White's pawns on row 6 and back rank
      on row 7 (cells 56-63), rows 2 to 5 empty. */
  function StartCell(k: nat): Option<Piece>
    requires k < 64
  {
    if k < 8 then Some(Piece(BackRank(k), Black, false))
    else if k < 16 then Some(Piece(Pawn, Black, false))
    else if k < 48 then None
    else if k < 56 then Some(Piece(Pawn, White, false))
    else Some(Piece(BackRank(k - 56), White, false))
  }

  /** The layout Board.Initial sets up. */
  function StartGrid(): (g: Grid)
    ensures forall k :: 0 <= k < 64 ==> g[k] == StartCell(k)
  {
    seq(64, k requires 0 <= k < 64 => StartCell(k))
  }

  /** Which cells of the starting layout are occupied, by which colour,
      and where the kings stand. */
  lemma StartCellShape(k: nat)
    requires k < 64
    ensures StartCell(k).Some? <==> k < 16 || 48 <= k
    ensures StartCell(k).Some? ==> StartCell(k).value.color == (if k < 16 then Black else White)
    ensures StartCell(k).Some? ==> (StartCell(k).value.kind == King <==> k == 4 || k == 60)
  {
  }

  /** The starting layout holds 32 pieces; rows 2 to 5 are empty. */
  lemma StartGridPieceCount(g: Grid)
    requires forall k :: 0 <= k < 64 ==> g[k] == StartCell(k)
    ensures Count(g, 0, 64, AnyPiece) == 32
    ensures Count(g, 16, 48, AnyPiece) == 0
  {
    forall k | 0 <= k < 64
      ensures g[k].Some? <==> k < 16 || 48 <= k
    {
      StartCellShape(k);
    }
    CountAll(g, 0, 16, AnyPiece);
    CountNone(g, 16, 48, AnyPiece);
    CountAll(g, 48, 64, AnyPiece);
    CountOfParts(g, 0, 16, 48, 64, AnyPiece, 16, 0, 16);
  }

  /** White has 16 pieces, all on rows 6 and 7. */
  lemma StartGridWhiteCount(g: Grid)
    requires forall k :: 0 <= k < 64 ==> g[k] == StartCell(k)
    ensures Count(g, 0, 64, OfColor(White)) == 16
  {
    forall k | 0 <= k < 64
      ensures Selects(OfColor(White), g[k]) <==> 48 <= k
    {
      StartCellShape(k);
    }
    CountNone(g, 0, 48, OfColor(White));
    CountAll(g, 48, 64, OfColor(White));
    CountOfParts(g, 0, 48, 48, 64, OfColor(White), 0, 0, 16);
  }

  /** Black has 16 pieces, all on rows 0 and 1. */
  lemma StartGridBlackCount(g: Grid)
    requires forall k :: 0 <= k < 64 ==> g[k] == StartCell(k)
    ensures Count(g, 0, 64, OfColor(Black)) == 16
  {
    forall k | 0 <= k < 64
      ensures Selects(OfColor(Black), g[k]) <==> k < 16
    {
      StartCellShape(k);
    }
    CountAll(g, 0, 16, OfColor(Black));
    CountNone(g, 16, 64, OfColor(Black));
    CountOfParts(g, 0, 16, 16, 64, OfColor(Black), 16, 0, 0);
  }

  /** Exactly one white king, on cell 60 (row 7, column 4). */
  lemma StartGridWhiteKing(g: Grid)
    requires forall k :: 0 <= k < 64 ==> g[k] == StartCell(k)
    ensures Count(g, 0, 64, OfKind(White, King)) == 1
  {
    forall k | 0 <= k < 64
      ensures Selects(OfKind(White, King), g[k]) <==> k == 60
    {
      StartCellShape(k);
    }
    CountNone(g, 0, 60, OfKind(White, King));
    CountAll(g, 60, 61, OfKind(White, King));
    CountNone(g, 61, 64, OfKind(White, King));
    CountOfParts(g, 0, 60, 61, 64, OfKind(White, King), 0, 1, 0);
  }

  /** Exactly one black king, on cell 4 (row 0, column 4). */
  lemma StartGridBlackKing(g: Grid)
    requires forall k :: 0 <= k < 64 ==> g[k] == StartCell(k)
    ensures Count(g, 0, 64, OfKind(Black, King)) == 1
  {
    forall k | 0 <= k < 64
      ensures Selects(OfKind(Black, King), g[k]) <==> k == 4
    {
      StartCellShape(k);
    }
    CountNone(g, 0, 4, OfKind(Black, King));
    CountAll(g, 4, 5, OfKind(Black, King));
    CountNone(g, 5, 64, OfKind(Black, King));
    CountOfParts(g, 0, 4, 5, 64, OfKind(Black, King), 0, 1, 0);
  }

  class Board {
    var pieces: array2<Option<Piece>>

    ghost predicate Valid()
      reads this
    {
      pieces.Length0 == 8 && pieces.Length1 == 8
    }

    /** The board's contents, row-major. */
    function Cells(): (g: Grid)
      reads this, pieces
      requires Valid()
    {
      var a := pieces;
      seq(64, k requires 0 <= k < 64 && a.Length0 == 8 && a.Length1 == 8 reads a => a[k / 8, k % 8])
    }

    /** new Board(): every cell empty. */
    constructor ()
      ensures Valid() && fresh(pieces)
      ensures Cells() == EmptyGrid()
    {
      pieces := new Option<Piece>[8, 8]((r, c) => None);
    }

    /** The indexer getter; it agrees with the row-major snapshot. */
    function Get(pos: Square): (cell: Option<Piece>)
      reads this, pieces
      requires Valid()
      ensures cell == Cells()[Index(pos)]
    {
      pieces[pos.row, pos.column]
    }

    /** The row/column indexer setter: exactly the addressed cell changes. */
    method Set(row: int, col: int, piece: Option<Piece>)
      requires Valid() && IsInside(Position(row, col))
      modifies pieces
      ensures Valid()
      ensures Cells() == old(Cells())[8 * row + col := piece]
    {
      pieces[row, col] := piece;
      assert forall k :: 0 <= k < 64 && k != 8 * row + col ==> (k / 8, k % 8) != (row, col);
    }

    /** PlacePiece (and the Position indexer setter): exactly the cell at
        pos changes; the other 63 keep their contents. */
    method PlacePiece(pos: Square, piece: Option<Piece>)
      requires Valid()
      modifies pieces
      ensures Valid()
      ensures Cells() == old(Cells())[Index(pos) := piece]
    {
      pieces[pos.row, pos.column] := piece;
      assert forall k :: 0 <= k < 64 && k != Index(pos) ==> SquareAt(k) != pos;
    }

    /** Board.Initial: a fresh board with the starting layout. */
    static method Initial() returns (board: Board)
      ensures fresh(board) && fresh(board.pieces) && board.Valid()
      ensures board.Cells() == StartGrid()
    {
      board := new Board();
      board.AddStartPieces();
    }

    /** AddStartPieces: fills rows 0, 1, 6 and 7 with the starting pieces
        and leaves rows 2 to 5 as they were. */
    method AddStartPieces()
      requires Valid()
      modifies pieces
      ensures Valid()
      ensures forall k :: 0 <= k < 64 ==>
        Cells()[k] == if 16 <= k < 48 then old(Cells())[k] else StartCell(k)
    {
      PlaceBackRank(0, Black);
      PlaceBackRank(7, White);
      ghost var ranks := Cells();
      for c := 0 to 8
        invariant Valid()
        invariant forall k :: 0 <= k < 64 ==>
          Cells()[k] == if (8 <= k < 8 + c) || (48 <= k < 48 + c) then StartCell(k) else ranks[k]
      {
        PlacePiece(Position(1, c), Some(Piece(Pawn, Black, false)));
        PlacePiece(Position(6, c), Some(Piece(Pawn, White, false)));
      }
    }

    /** The eight PlacePiece calls of AddStartPieces for one back rank:
        rook, knight, bishop, queen, king, bishop, knight, rook along the
        row. */
    method PlaceBackRank(row: nat, color: Player)
      requires Valid() && row < 8
      modifies pieces
      ensures Valid()
      ensures forall k :: 0 <= k < 64 ==>
        Cells()[k] == if 8 * row <= k < 8 * row + 8 then Some(Piece(BackRank(k - 8 * row), color, false))
                      else old(Cells())[k]
    {
      for c := 0 to 8
        invariant Valid()
        invariant forall k :: 0 <= k < 64 ==>
          Cells()[k] == if 8 * row <= k < 8 * row + c then Some(Piece(BackRank(k - 8 * row), color, false))
                        else old(Cells())[k]
      {
        PlacePiece(Position(row, c), Some(Piece(BackRank(c), color, false)));
      }
    }

    /** IsEmpty: the cell holds no piece, so PiecePositions skips it. */
    function IsEmpty(pos: Square): (r: bool)
      reads this, pieces
      requires Valid()
      ensures r <==> pos !in Layout.PiecePositions(Cells())
    {
      ScanSpec(Cells(), 64, AnyPiece);
      SquareAtIndex(pos);
      Get(pos) == None
    }

    /** PiecePositions: the occupied squares in row-major order (the
        nested r, c loops of the iterator). */
    method PiecePositions() returns (ps: seq<Square>)
      requires Valid()
      ensures ps == Layout.PiecePositions(Cells())
    {
      ps := [];
      for r := 0 to 8
        invariant ps == Scan(Cells(), 8 * r, AnyPiece)
      {
        for c := 0 to 8
          invariant ps == Scan(Cells(), 8 * r + c, AnyPiece)
        {
          var pos := Position(r, c);
          if Get(pos) != None {
            ps := ps + [pos];
          }
        }
      }
    }

    /** PiecePositionsFor: the occupied squares filtered to colour p, which
        is the row-major scan of p's cells. */
    function PiecePositionsFor(p: Player): (ps: seq<Square>)
      reads this, pieces
      requires Valid()
      ensures ps == Scan(Cells(), 64, OfColor(p))
    {
      PiecePositionsForSpec(Cells(), p);
      Layout.PiecePositionsFor(Cells(), p)
    }

    /** IsInCheck: p is in check exactly when some cell holds an opposing
        piece that can capture p's king. */
    function IsInCheck(p: Player, canCapture: (Piece, Square, Grid) -> bool): (r: bool)
      reads this, pieces
      requires Valid()
      ensures r <==> exists k :: 0 <= k < 64 && Attacks(Cells(), k, p, canCapture)
    {
      InCheckSpec(Cells(), p, canCapture);
      InCheck(Cells(), p, canCapture)
    }

    /** Copy: a fresh board with the same content in every cell, built by
        placing each occupied square's piece on an empty board. */
    method Copy() returns (copy: Board)
      requires Valid()
      ensures fresh(copy) && fresh(copy.pieces) && copy.Valid()
      ensures copy.Cells() == Cells()
    {
      copy := new Board();
      ghost var g := Cells();
      var ps := PiecePositions();
      for i := 0 to |ps|
        invariant fresh(copy) && fresh(copy.pieces) && copy.Valid()
        invariant Cells() == g
        invariant forall j :: 0 <= j < i ==> copy.Cells()[Index(ps[j])] == g[Index(ps[j])]
        invariant forall k :: 0 <= k < 64 ==> copy.Cells()[k] == None || copy.Cells()[k] == g[k]
      {
        copy.PlacePiece(ps[i], Get(ps[i]));
      }
      ScanComplete(g, 64, AnyPiece);
      forall k | 0 <= k < 64 && g[k].Some?
        ensures copy.Cells()[k] == g[k]
      {
        var j :| 0 <= j < |ps| && ps[j] == SquareAt(k);
        assert Index(ps[j]) == k;
      }
    }

    /** A write to a copy leaves the original untouched. */
    method CopyThenPlace(pos: Square, piece: Option<Piece>) returns (copy: Board)
      requires Valid()
      ensures fresh(copy) && copy.Valid()
      ensures Cells() == old(Cells())
      ensures copy.Cells() == old(Cells())[Index(pos) := piece]
    {
      copy := Copy();
      copy.PlacePiece(pos, piece);
    }

    /** CountPieces: the tally per colour and type equals the number of cells
        holding such a piece, and the total the number of occupied cells. */
    method CountPieces() returns (counting: Counting)
      requires Valid()
      ensures forall p, t :: counting.CountOf(p, t) == Count(Cells(), 0, 64, OfKind(p, t))
      ensures counting.totalCount == Count(Cells(), 0, 64, AnyPiece)
    {
      counting := NoPieces;
      var ps := PiecePositions();
      for i := 0 to |ps|
        invariant counting == Tally(Cells(), ps[..i])
      {
        assert ps[..i + 1][..i] == ps[..i];
        match Get(ps[i])
        case Some(piece) => counting := counting.Increment(piece.color, piece.kind);
        case None =>
      }
      assert ps[..|ps|] == ps;
      TallyOfScan(Cells(), 64);
    }

    /** InsufficientMaterial (IsKingVKing of the tally): exactly two pieces
        stand on the board, whatever their kinds. */
    function InsufficientMaterial(): (r: bool)
      reads this, pieces
      requires Valid()
      ensures r <==> Count(Cells(), 0, 64, AnyPiece) == 2
      ensures r <==> |Layout.PiecePositions(Cells())| == 2
    {
      TallyOfScan(Cells(), 64);
      ScanLength(Cells(), 64, AnyPiece);
      Tally(Cells(), Layout.PiecePositions(Cells())).totalCount == 2
    }
  }
}
