/** The rules engine the search drives, as an injected capability: legal
    moves, making a move, the game-end flags, the side to move and the
    board are functions of an abstract position type P. The engine keeps one
    mutable game whose moves are made and taken back in LIFO order. */
module ChessRules {
  import opened Wrappers
  import opened Board

  /** A move as the engine lists it (a SAN string such as "Nf3"). */
  type Move = string

  datatype Rules<!P> = Rules(
    moves: P -> seq<Move>,       // game.moves()
    play: (P, Move) -> P,        // the position after game.move(m)
    inCheckmate: P -> bool,      // game.in_checkmate()
    inDraw: P -> bool,           // game.in_draw()
    inStalemate: P -> bool,      // game.in_stalemate()
    inThreefold: P -> bool,      // game.in_threefold_repetition()
    turn: P -> Color,            // game.turn()
    board: P -> Board,           // game.board()
    parse: (P, string) -> Option<Move>  // the move a typed string names, as the engine's SAN reader sees it
  )

  /** What game.move(san) plays: the move the engine reads from the string,
      provided it is legal; None, and no move made, otherwise. A pawn push
      that gives check is listed as "e3+" but still read from "e3". */
  function Accepted<P>(rules: Rules<P>, p: P, san: string): (r: Option<Move>)
    ensures r.Some? ==> r.value in rules.moves(p)
    ensures r.Some? ==> rules.parse(p, san) == r
    ensures rules.parse(p, san).Some? && rules.parse(p, san).value in rules.moves(p) ==> r == rules.parse(p, san)
  {
    match rules.parse(p, san)
    case Some(m) => if m in rules.moves(p) then Some(m) else None
    case None => None
  }

  /** game.game_over(): checkmate or any draw. */
  predicate GameOver<P>(rules: Rules<P>, p: P)
  {
    rules.inCheckmate(p) || rules.inDraw(p)
  }

  /** What holds of real chess: a position without legal moves is over
      (checkmate or stalemate). */
  ghost predicate Consistent<P(!new)>(rules: Rules<P>)
  {
    forall p :: rules.moves(p) == [] ==> GameOver(rules, p)
  }

  /** The mutable game handle. `stack` holds every position since the start,
      the current one last; `history` holds the moves made, one per step. */
  class Game<P> {
    const rules: Rules<P>
    var stack: seq<P>
    var history: seq<Move>

    ghost predicate Valid()
      reads this
    {
      |stack| == |history| + 1 &&
      forall k :: 0 <= k < |history| ==> stack[k + 1] == rules.play(stack[k], history[k])
    }

    constructor (rules: Rules<P>, start: P)
      ensures Valid()
      ensures this.rules == rules && stack == [start] && history == []
    {
      this.rules := rules;
      stack := [start];
      history := [];
    }

    function Current(): P
      reads this
      requires Valid()
    {
      stack[|stack| - 1]
    }

    function Moves(): seq<Move>
      reads this
      requires Valid()
    {
      rules.moves(Current())
    }

    function Turn(): Color
      reads this
      requires Valid()
    {
      rules.turn(Current())
    }

    function Board(): Board
      reads this
      requires Valid()
    {
      rules.board(Current())
    }

    predicate IsOver()
      reads this
      requires Valid()
    {
      GameOver(rules, Current())
    }

    /** game.move(m) with a move taken from game.moves(): pushes m and the
        position it leads to. */
    method Move(m: Move)
      requires Valid() && m in Moves()
      modifies this
      ensures Valid()
      ensures history == old(history) + [m]
      ensures stack == old(stack) + [rules.play(old(Current()), m)]
      ensures Current() == rules.play(old(Current()), m)
    {
      stack := stack + [rules.play(Current(), m)];
      history := history + [m];
    }

    /** game.move(san) with a typed string: plays the move the engine reads
        from it when that move is legal, and otherwise returns None and
        changes nothing. */
    method TryMove(san: string) returns (played: Option<Move>)
      requires Valid()
      modifies this
      ensures Valid()
      ensures played == Accepted(rules, old(Current()), san)
      ensures played.None? ==> stack == old(stack) && history == old(history)
      ensures played.Some? ==> history == old(history) + [played.value]
      ensures played.Some? ==> stack == old(stack) + [rules.play(old(Current()), played.value)]
    {
      played := Accepted(rules, Current(), san);
      if played.Some? {
        Move(played.value);
      }
    }

    /** game.undo(): takes back the last move; does nothing when no move was made. */
    method Undo()
      requires Valid()
      modifies this
      ensures Valid()
      ensures old(history) == [] ==> history == old(history) && stack == old(stack)
      ensures old(history) != [] ==> history == old(history)[..|old(history)| - 1]
      ensures old(history) != [] ==> stack == old(stack)[..|old(stack)| - 1]
    {
      if history != [] {
        stack := stack[..|stack| - 1];
        history := history[..|history| - 1];
      }
    }
  }
}
