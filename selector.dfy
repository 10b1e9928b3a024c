/** getBestMove: difficulty to search depth, and the deliberate random move
    that weakens the two lowest levels. The random draws are passed in. */
module Selector {
  import opened Wrappers
  import opened Board
  import opened ChessRules
  import opened Search
  import Settings

  /** The difficulty-to-depth table. */
  const DepthMap: map<int, nat> := map[1 := 1, 2 := 2, 3 := 3, 4 := 4, 5 := 5]

  /** The depth lookup with its fallback: a level in the table gives its own depth,
      anything else falls back to depth 3. */
  function SearchDepth(difficulty: int): (depth: nat)
    ensures 1 <= difficulty <= 5 ==> depth == difficulty
    ensures !(1 <= difficulty <= 5) ==> depth == 3
    ensures 1 <= depth <= 5
  {
    if difficulty in DepthMap && DepthMap[difficulty] != 0 then DepthMap[difficulty] else 3
  }

  /** A random index into a list of length len, from a draw r in [0, 1). */
  function RandomIndex(r: real, len: nat): (k: nat)
    requires 0.0 <= r < 1.0 && len > 0
    ensures k < len
  {
    var x := r * len as real;
    assert x < len as real by {
      assert (1.0 - r) * len as real > 0.0;
    }
    x.Floor
  }

  /** The move at a random index of the list; None on an empty list. */
  function RandomMove(moves: seq<Move>, r: real): (m: Option<Move>)
    requires 0.0 <= r < 1.0
    ensures m.Some? <==> moves != []
    ensures m.Some? ==> m.value in moves
  {
    if moves == [] then None else Some(moves[RandomIndex(r, |moves|)])
  }

  /** The weakening rule: below level 3, a first draw under 0.3 skips the search. */
  predicate PlaysRandomly(difficulty: int, chance: real)
  {
    difficulty < 3 && chance < 0.3
  }

  /** The default level searches three plies deep and never plays a random move. */
  lemma DefaultLevel(chance: real)
    ensures SearchDepth(Settings.DefaultDifficulty) == 3
    ensures !PlaysRandomly(Settings.DefaultDifficulty, chance)
  {
  }

  /** getBestMove: a random legal move when the weakening rule fires,
      otherwise findBestMove at the depth the difficulty maps to. `chance`
      and `pick` are the two random draws; `shuffled` is the order the
      random sort leaves the moves in. */
  method GetBestMove<P(!new)>(game: Game<P>, difficulty: int, chance: real, pick: real, shuffled: seq<Move>)
    returns (move: Option<Move>)
    requires game.Valid()
    requires 0.0 <= chance < 1.0 && 0.0 <= pick < 1.0
    requires multiset(shuffled) == multiset(game.Moves())
    modifies game
    ensures game.Valid() && game.stack == old(game.stack) && game.history == old(game.history)
    ensures PlaysRandomly(difficulty, chance) ==> move == RandomMove(game.Moves(), pick)
    ensures !PlaysRandomly(difficulty, chance) && |game.Moves()| == 1 ==> move == Some(game.Moves()[0])
    ensures !PlaysRandomly(difficulty, chance) && |game.Moves()| != 1 ==>
              move == Root(game.rules, game.Current(), shuffled, SearchDepth(difficulty) - 1, game.Turn() == White).1
    ensures |game.Moves()| == 1 ==> move == Some(game.Moves()[0])
    ensures move.Some? ==> move.value in game.Moves()
    ensures Consistent(game.rules) && game.Moves() != [] ==> move.Some?
  {
    var depth := SearchDepth(difficulty);
    if difficulty < 3 && chance < 0.3 {
      var moves := game.Moves();
      return RandomMove(moves, pick);
    }
    move := FindBestMove(game, depth, shuffled);
  }
}
