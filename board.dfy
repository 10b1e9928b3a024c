module Wrappers {

  datatype Option<T> = None | Some(value: T)
}

/** Pieces and the 8x8 board as the rules engine hands it out: row 0 is
    rank 8, row 7 is rank 1, column 0 is file a. */
module Board {
  import opened Wrappers

  datatype Color = White | Black
  datatype Kind = Pawn | Knight | Bishop | Rook | Queen | King
  datatype Piece = Piece(kind: Kind, color: Color)

  type Grid = seq<seq<Option<Piece>>>

  predicate IsBoard(g: Grid)
  {
    |g| == 8 && forall i :: 0 <= i < 8 ==> |g[i]| == 8
  }

  type Board = g: Grid | IsBoard(g) witness seq(8, _ => seq(8, _ => None))

  /** PIECE_VALUES, in centipawns. Every piece is worth at least a pawn, and
      the king outweighs a whole starting army without it (8 pawns, 2
      knights, 2 bishops, 2 rooks and a queen: 4000). */
  function PieceValue(k: Kind): (v: nat)
    ensures 100 <= v <= 20000
    ensures k == Pawn <==> v == 100
    ensures k != King ==> v <= 900
    ensures k == King ==> v > 8 * 100 + 2 * 320 + 2 * 330 + 2 * 500 + 900
  {
    match k
    case Pawn => 100
    case Knight => 320
    case Bishop => 330
    case Rook => 500
    case Queen => 900
    case King => 20000
  }

  function Opponent(c: Color): (o: Color)
    ensures o != c
  {
    if c == White then Black else White
  }

  /** The same occupant with its colour swapped. */
  function Recolor(sq: Option<Piece>): (r: Option<Piece>)
    ensures r.None? <==> sq.None?
    ensures sq.Some? ==> r.value.kind == sq.value.kind && r.value.color == Opponent(sq.value.color)
  {
    match sq
    case None => None
    case Some(p) => Some(Piece(p.kind, Opponent(p.color)))
  }

  /** A row with every occupant recoloured. */
  function RecolorRow(row: seq<Option<Piece>>): (r: seq<Option<Piece>>)
    ensures |r| == |row|
    ensures forall j :: 0 <= j < |row| ==> r[j] == Recolor(row[j])
  {
    seq(|row|, j requires 0 <= j < |row| => Recolor(row[j]))
  }

  /** The colour-mirrored board: row i of the result is row 7 - i of b
      with every piece's colour swapped; files stay where they are. */
  function Mirror(b: Board): (m: Board)
    ensures forall i, j :: 0 <= i < 8 && 0 <= j < 8 ==> m[i][j] == Recolor(b[7 - i][j])
  {
    var g := seq(8, i requires 0 <= i < 8 => RecolorRow(b[7 - i]));
    assert forall i :: 0 <= i < 8 ==> |g[i]| == 8;
    g
  }

  /** An algebraic square name such as d4. */
  datatype Square = Square(file: char, rank: int)

  predicate OnBoard(s: Square)
  {
    'a' <= s.file <= 'h' && 1 <= s.rank <= 8
  }

  /** The occupant of a named square (game.get). */
  function Get(b: Board, s: Square): Option<Piece>
    requires OnBoard(s)
  {
    b[8 - s.rank][s.file as int - 'a' as int]
  }

  /** Mirroring a board moves the occupant of rank r to rank 9 - r and swaps its colour. */
  lemma GetMirror(b: Board, s: Square)
    requires OnBoard(s)
    ensures Get(Mirror(b), s) == Recolor(Get(b, Square(s.file, 9 - s.rank)))
  {
  }
}
