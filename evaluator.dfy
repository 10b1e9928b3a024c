/** The static evaluator: a score from white's point of view, positive when
    white is better. Terminal positions are scored first; otherwise the score
    sums material with a pawn-advancement bonus, a mobility differential and
    a centre-control bonus. */
module Evaluator {
  import opened Wrappers
  import opened Board
  import opened ChessRules
  import opened Settings

  /** The checkmate sentinel. */
  const Mate: int := 10000000

  /** The four centre squares, in the order they are visited. */
  const CentreSquares: seq<Square> := [Square('d', 4), Square('d', 5), Square('e', 4), Square('e', 5)]

  function Signed(c: Color, v: int): int
  {
    if c == White then v else -v
  }

  /** What the occupant of a square on board row i adds to the material sum:
      its piece value for white and minus it for black, and for a pawn a bonus
      of ten per row advanced from its own back rank. */
  function SquareScore(sq: Option<Piece>, i: int): int
  {
    match sq
    case None => 0
    case Some(pc) =>
      Signed(pc.color, PieceValue(pc.kind)) +
      (if pc.kind != Pawn then 0 else if pc.color == White then (7 - i) * 10 else -(i * 10))
  }

  /** The material sum of one row, board row i, read left to right. */
  function RowScore(row: seq<Option<Piece>>, i: int): int
    decreases |row|
  {
    if row == [] then 0
    else RowScore(row[..|row| - 1], i) + SquareScore(row[|row| - 1], i)
  }

  /** The material sum of the first |rows| rows of a board, row k at index k. */
  function Material(rows: Grid): int
    decreases |rows|
  {
    if rows == [] then 0
    else Material(rows[..|rows| - 1]) + RowScore(rows[|rows| - 1], |rows| - 1)
  }

  /** The dummy move the mobility probe plays to hand the move to the other side. */
  const DummyMove: Move := "e3"

  /** The opponent count of the mobility probe: the legal moves of a fresh
      game set up at p after it tries the dummy move. When the engine
      refuses the move the count is taken with the same side still to move. */
  function ProbeMobility<P>(rules: Rules<P>, p: P): (n: nat)
    ensures Accepted(rules, p, DummyMove).None? ==> n == |rules.moves(p)|
    ensures Accepted(rules, p, DummyMove).Some? ==>
              n == |rules.moves(rules.play(p, Accepted(rules, p, DummyMove).value))|
  {
    match Accepted(rules, p, DummyMove)
    case Some(m) => |rules.moves(rules.play(p, m))|
    case None => |rules.moves(p)|
  }

  /** The mobility differential: legal moves of the side to move against the
      probed count, signed for white and scaled by w. When the dummy move is
      not legal the probe counts the same side twice and the term vanishes. */
  function MobilityTerm<P>(rules: Rules<P>, p: P, w: int): (r: int)
    ensures w <= 0 ==> r == 0
    ensures Accepted(rules, p, DummyMove).None? ==> r == 0
  {
    if w > 0 then
      var current := |rules.moves(p)|;
      var opponent := ProbeMobility(rules, p);
      (if rules.turn(p) == White then current - opponent else opponent - current) * w
    else 0
  }

  /** What one occupied centre square adds: 10 w for white, -10 w for black. */
  function CentreBonus(sq: Option<Piece>, w: int): int
  {
    match sq
    case None => 0
    case Some(pc) => (if pc.color == White then 10 else -10) * w
  }

  predicate AllOnBoard(squares: seq<Square>)
  {
    forall k :: 0 <= k < |squares| ==> OnBoard(squares[k])
  }

  function CentreSum(b: Board, squares: seq<Square>, w: int): int
    requires AllOnBoard(squares)
    decreases |squares|
  {
    if squares == [] then 0
    else CentreSum(b, squares[..|squares| - 1], w) + CentreBonus(Get(b, squares[|squares| - 1]), w)
  }

  function CentreTerm(b: Board, w: int): int
  {
    if w > 0 then CentreSum(b, CentreSquares, w) else 0
  }

  predicate IsDrawn<P>(rules: Rules<P>, p: P)
  {
    rules.inDraw(p) || rules.inStalemate(p) || rules.inThreefold(p)
  }

  /** The score evaluatePosition computes for position p under weights w. */
  function Evaluation<P>(rules: Rules<P>, p: P, w: Weights): (r: int)
    ensures rules.inCheckmate(p) ==> r == (if rules.turn(p) == White then -Mate else Mate)
    ensures !rules.inCheckmate(p) && IsDrawn(rules, p) ==> r == 0
    ensures !rules.inCheckmate(p) && !IsDrawn(rules, p) && w.mobility <= 0 && w.centreControl <= 0 ==>
              r == Material(rules.board(p))
    ensures !rules.inCheckmate(p) && !IsDrawn(rules, p) && Accepted(rules, p, DummyMove).None? ==>
              r == Material(rules.board(p)) + CentreTerm(rules.board(p), w.centreControl)
  {
    if rules.inCheckmate(p) then (if rules.turn(p) == White then -Mate else Mate)
    else if IsDrawn(rules, p) then 0
    else Material(rules.board(p)) + MobilityTerm(rules, p, w.mobility) + CentreTerm(rules.board(p), w.centreControl)
  }

  /** evaluatePosition: checks for the end of the game, then walks the board
      row by row, then adds the mobility and centre terms. */
  method EvaluatePosition<P>(game: Game<P>, w: Weights) returns (score: int)
    requires game.Valid()
    ensures score == Evaluation(game.rules, game.Current(), w)
    ensures game.rules.inCheckmate(game.Current()) ==> score == (if game.Turn() == White then -Mate else Mate)
    ensures !game.rules.inCheckmate(game.Current()) && IsDrawn(game.rules, game.Current()) ==> score == 0
  {
    var rules, p := game.rules, game.Current();
    if rules.inCheckmate(p) {
      return if rules.turn(p) == White then -Mate else Mate;
    }
    if rules.inDraw(p) || rules.inStalemate(p) || rules.inThreefold(p) {
      return 0;
    }

    var board := game.Board();
    score := 0;
    for i := 0 to 8
      invariant score == Material(board[..i])
    {
      for j := 0 to 8
        invariant score == Material(board[..i]) + RowScore(board[i][..j], i)
      {
        var piece := board[i][j];
        if piece.Some? {
          var pieceValue: int := PieceValue(piece.value.kind);
          score := score + (if piece.value.color == White then pieceValue else -pieceValue);
          if piece.value.kind == Pawn {
            if piece.value.color == White {
              score := score + (7 - i) * 10;
            } else {
              score := score - i * 10;
            }
          }
        }
        assert board[i][..j + 1][..j] == board[i][..j];
      }
      assert board[i][..8] == board[i];
      assert board[..i + 1][..i] == board[..i];
    }
    assert board[..8] == board;

    if w.mobility > 0 {
      var whiteToMove := rules.turn(p) == White;
      var currentMobility := |rules.moves(p)|;
      var tempGame := new Game(rules, p);
      var _ := tempGame.TryMove(DummyMove);
      var opponentMobility := |tempGame.Moves()|;
      var mobilityScore := (if whiteToMove then currentMobility - opponentMobility else opponentMobility - currentMobility) * w.mobility;
      score := score + mobilityScore;
    }

    if w.centreControl > 0 {
      ghost var before := score;
      for k := 0 to |CentreSquares|
        invariant score == before + CentreSum(board, CentreSquares[..k], w.centreControl)
      {
        var piece := Get(board, CentreSquares[k]);
        if piece.Some? {
          var value := if piece.value.color == White then 10 else -10;
          score := score + value * w.centreControl;
        }
        assert CentreSquares[..k + 1][..k] == CentreSquares[..k];
      }
      assert CentreSquares[..|CentreSquares|] == CentreSquares;
    }
  }

  // ----- Properties of the evaluation -----

  /** No occupant is worth more than a king in the material sum. */
  lemma SquareScoreBound(sq: Option<Piece>, i: int)
    requires 0 <= i < 8
    ensures -20000 <= SquareScore(sq, i) <= 20000
  {
  }

  lemma {:induction false} RowScoreBound(row: seq<Option<Piece>>, i: int)
    requires 0 <= i < 8
    ensures -20000 * |row| <= RowScore(row, i) <= 20000 * |row|
    decreases |row|
  {
    if row != [] {
      RowScoreBound(row[..|row| - 1], i);
      SquareScoreBound(row[|row| - 1], i);
    }
  }

  /** The material sum of a board never exceeds 64 kings. */
  lemma {:induction false} MaterialBound(rows: Grid)
    requires |rows| <= 8 && forall k :: 0 <= k < |rows| ==> |rows[k]| == 8
    ensures -20000 * 8 * |rows| <= Material(rows) <= 20000 * 8 * |rows|
    decreases |rows|
  {
    if rows != [] {
      MaterialBound(rows[..|rows| - 1]);
      RowScoreBound(rows[|rows| - 1], |rows| - 1);
    }
  }

  /** Recolouring an occupant and moving it to the mirrored row negates what it adds. */
  lemma SquareScoreMirror(sq: Option<Piece>, i: int)
    ensures SquareScore(Recolor(sq), 7 - i) == -SquareScore(sq, i)
  {
  }

  lemma {:induction false} RowScoreMirror(row: seq<Option<Piece>>, mirrored: seq<Option<Piece>>, i: int)
    requires |mirrored| == |row|
    requires forall k :: 0 <= k < |row| ==> mirrored[k] == Recolor(row[k])
    ensures RowScore(mirrored, 7 - i) == -RowScore(row, i)
    decreases |row|
  {
    if row != [] {
      var n := |row| - 1;
      RowScoreMirror(row[..n], mirrored[..n], i);
      SquareScoreMirror(row[n], i);
    }
  }

  lemma MaterialStep(rows: Grid, k: nat)
    requires k < |rows|
    ensures Material(rows[..k + 1]) == Material(rows[..k]) + RowScore(rows[k], k)
  {
    assert rows[..k + 1][..k] == rows[..k];
  }

  /** The material sum of a board is the sum of its eight rows. */
  lemma MaterialRows(b: Board)
    ensures Material(b) == RowScore(b[0], 0) + RowScore(b[1], 1) + RowScore(b[2], 2) + RowScore(b[3], 3)
                         + RowScore(b[4], 4) + RowScore(b[5], 5) + RowScore(b[6], 6) + RowScore(b[7], 7)
  {
    assert b[..0] == [];
    MaterialStep(b, 0);
    MaterialStep(b, 1);
    MaterialStep(b, 2);
    MaterialStep(b, 3);
    MaterialStep(b, 4);
    MaterialStep(b, 5);
    MaterialStep(b, 6);
    MaterialStep(b, 7);
    assert b[..8] == b;
  }

  /** Colour-mirroring the board negates the material and pawn-advancement sum. */
  lemma MaterialMirror(b: Board)
    ensures Material(Mirror(b)) == -Material(b)
  {
    var m := Mirror(b);
    forall i | 0 <= i < 8
      ensures RowScore(m[i], i) == -RowScore(b[7 - i], 7 - i)
    {
      RowScoreMirror(b[7 - i], m[i], 7 - i);
    }
    MaterialRows(b);
    MaterialRows(m);
  }

  lemma CentreBonusMirror(sq: Option<Piece>, w: int)
    ensures CentreBonus(Recolor(sq), w) == -CentreBonus(sq, w)
  {
  }

  lemma CentreStep(b: Board, squares: seq<Square>, k: nat, w: int)
    requires AllOnBoard(squares) && k < |squares|
    ensures CentreSum(b, squares[..k + 1], w) == CentreSum(b, squares[..k], w) + CentreBonus(Get(b, squares[k]), w)
  {
    assert squares[..k + 1][..k] == squares[..k];
  }

  /** The centre sum is the sum of the bonuses of d4, d5, e4 and e5. */
  lemma CentreSquaresSum(b: Board, w: int)
    ensures CentreSum(b, CentreSquares, w)
         == CentreBonus(Get(b, Square('d', 4)), w) + CentreBonus(Get(b, Square('d', 5)), w)
          + CentreBonus(Get(b, Square('e', 4)), w) + CentreBonus(Get(b, Square('e', 5)), w)
  {
    var c := CentreSquares;
    assert c[..0] == [];
    CentreStep(b, c, 0, w);
    CentreStep(b, c, 1, w);
    CentreStep(b, c, 2, w);
    CentreStep(b, c, 3, w);
    assert c[..4] == c;
  }

  /** Colour-mirroring the board negates the centre term: d4 and d5 swap, e4 and e5 swap. */
  lemma CentreMirror(b: Board, w: int)
    ensures CentreTerm(Mirror(b), w) == -CentreTerm(b, w)
  {
    if w > 0 {
      CentreSquaresSum(b, w);
      CentreSquaresSum(Mirror(b), w);
      var d4, d5, e4, e5 := Square('d', 4), Square('d', 5), Square('e', 4), Square('e', 5);
      GetMirror(b, d4);
      GetMirror(b, d5);
      GetMirror(b, e4);
      GetMirror(b, e5);
      CentreBonusMirror(Get(b, d4), w);
      CentreBonusMirror(Get(b, d5), w);
      CentreBonusMirror(Get(b, e4), w);
      CentreBonusMirror(Get(b, e5), w);
    }
  }

  /** The centre term is the weight times the unit-weight centre sum, so it
      vanishes when the weight is zero. */
  lemma {:induction false} CentreSumScales(b: Board, squares: seq<Square>, w: int)
    requires AllOnBoard(squares)
    ensures CentreSum(b, squares, w) == w * CentreSum(b, squares, 1)
    decreases |squares|
  {
    if squares != [] {
      var n := |squares| - 1;
      CentreSumScales(b, squares[..n], w);
      var rest, last := CentreSum(b, squares[..n], 1), CentreBonus(Get(b, squares[n]), 1);
      assert CentreBonus(Get(b, squares[n]), w) == w * last;
      assert w * rest + w * last == w * (rest + last);
    }
  }

  lemma CentreTermScales(b: Board, w: int)
    ensures CentreTerm(b, w) == (if w > 0 then w * CentreTerm(b, 1) else 0)
    ensures -40 <= CentreTerm(b, 1) <= 40
  {
    CentreSumScales(b, CentreSquares, w);
    CentreSquaresSum(b, 1);
  }

  /** Score symmetry: a position and its colour-mirrored counterpart (board
      mirrored, the other side to move, the same end-of-game flags and the
      same move counts) evaluate to negated scores, under any weights. */
  lemma EvaluationMirror<P>(rules: Rules<P>, p: P, q: P, w: Weights)
    requires rules.board(q) == Mirror(rules.board(p))
    requires rules.turn(q) == Opponent(rules.turn(p))
    requires rules.inCheckmate(q) == rules.inCheckmate(p)
    requires IsDrawn(rules, q) == IsDrawn(rules, p)
    requires |rules.moves(q)| == |rules.moves(p)| && ProbeMobility(rules, q) == ProbeMobility(rules, p)
    ensures Evaluation(rules, q, w) == -Evaluation(rules, p, w)
  {
    MaterialMirror(rules.board(p));
    CentreMirror(rules.board(p), w.centreControl);
  }

  /** Without the mobility term the evaluation is colour-symmetric outright:
      a position and its colour mirror with the other side to move and the
      same end-of-game flags score negated, whatever their move lists. */
  lemma EvaluationMirrorNoMobility<P>(rules: Rules<P>, p: P, q: P, w: Weights)
    requires w.mobility <= 0
    requires rules.board(q) == Mirror(rules.board(p))
    requires rules.turn(q) == Opponent(rules.turn(p))
    requires rules.inCheckmate(q) == rules.inCheckmate(p)
    requires IsDrawn(rules, q) == IsDrawn(rules, p)
    ensures Evaluation(rules, q, w) == -Evaluation(rules, p, w)
  {
    MaterialMirror(rules.board(p));
    CentreMirror(rules.board(p), w.centreControl);
  }

  /** Exactly when colour symmetry holds: for mirrored positions with the
      same end-of-game flags, the scores are negated if and only if the game
      is over or the mobility weight is off or both positions have the same
      difference between their own and their probed move counts. */
  lemma EvaluationMirrorExactly<P>(rules: Rules<P>, p: P, q: P, w: Weights)
    requires rules.board(q) == Mirror(rules.board(p))
    requires rules.turn(q) == Opponent(rules.turn(p))
    requires rules.inCheckmate(q) == rules.inCheckmate(p)
    requires IsDrawn(rules, q) == IsDrawn(rules, p)
    ensures Evaluation(rules, q, w) == -Evaluation(rules, p, w) <==>
              (rules.inCheckmate(p) || IsDrawn(rules, p) || w.mobility <= 0 ||
               |rules.moves(q)| - ProbeMobility(rules, q) == |rules.moves(p)| - ProbeMobility(rules, p))
  {
    MaterialMirror(rules.board(p));
    CentreMirror(rules.board(p), w.centreControl);
    if !rules.inCheckmate(p) && !IsDrawn(rules, p) && w.mobility > 0 {
      var dp := |rules.moves(p)| - ProbeMobility(rules, p);
      var dq := |rules.moves(q)| - ProbeMobility(rules, q);
      assert MobilityTerm(rules, p, w.mobility) == Signed(rules.turn(p), dp) * w.mobility;
      assert MobilityTerm(rules, q, w.mobility) == -(Signed(rules.turn(p), dq) * w.mobility);
      if dp != dq {
        assert Signed(rules.turn(p), dp) != Signed(rules.turn(p), dq);
        MulCancel(Signed(rules.turn(p), dp), Signed(rules.turn(p), dq), w.mobility);
      }
    }
  }

  lemma MulCancel(x: int, y: int, w: int)
    requires w > 0 && x != y
    ensures x * w != y * w
  {
    if x < y {
      assert (y - x) * w > 0;
    } else {
      assert (x - y) * w > 0;
    }
  }

  /** The dummy-move probe breaks the symmetry: if the dummy move is legal in
      p and changes the count, but is not legal in p's colour mirror q, then
      with a positive mobility weight q does not score the negation of p. */
  lemma EvaluationAsymmetric<P>(rules: Rules<P>, p: P, q: P, w: Weights)
    requires w.mobility > 0
    requires rules.board(q) == Mirror(rules.board(p))
    requires rules.turn(q) == Opponent(rules.turn(p))
    requires !rules.inCheckmate(p) && !rules.inCheckmate(q) && !IsDrawn(rules, p) && !IsDrawn(rules, q)
    requires Accepted(rules, p, DummyMove).Some? && Accepted(rules, q, DummyMove).None?
    requires ProbeMobility(rules, p) != |rules.moves(p)|
    ensures Evaluation(rules, q, w) != -Evaluation(rules, p, w)
  {
    MaterialMirror(rules.board(p));
    CentreMirror(rules.board(p), w.centreControl);
    var d := |rules.moves(p)| - ProbeMobility(rules, p);
    assert MobilityTerm(rules, p, w.mobility) == Signed(rules.turn(p), d) * w.mobility;
    assert MobilityTerm(rules, q, w.mobility) == 0;
  }

  /** A finished game (game.game_over()) is scored by a sentinel or as a
      draw: only -Mate, 0 and Mate are possible. */
  lemma FinishedGameScore<P>(rules: Rules<P>, p: P, w: Weights)
    requires GameOver(rules, p)
    ensures Evaluation(rules, p, w) in {-Mate, 0, Mate}
  {
  }

  /** The checkmate sentinel dominates every heuristic score: with the
      configured weights and at most 1000 moves on either side, a position
      that is not over scores strictly between -Mate and Mate. */
  lemma SentinelDominates<P>(rules: Rules<P>, p: P)
    requires !rules.inCheckmate(p)
    requires |rules.moves(p)| <= 1000 && ProbeMobility(rules, p) <= 1000
    ensures -Mate < Evaluation(rules, p, Configured) < Mate
  {
    var b := rules.board(p);
    MaterialBound(b);
    CentreTermScales(b, Configured.centreControl);
  }
}
