/** The searcher: depth-limited minimax with alpha-beta pruning over the one
    shared game, and the root loop that picks the move to play. Both are
    proved against plain minimax over the same move order. */
module Search {
  import opened Wrappers
  import opened Board
  import opened ChessRules
  import opened Scores
  import opened Evaluator
  import Settings

  // ----- Plain minimax, the specification -----

  /** The bound a node starts from: -Infinity for the maximizing side, +Infinity for the other. */
  function Initial(maximizing: bool): Score
  {
    if maximizing then NegInf else PosInf
  }

  /** x is strictly better than y for the side that is maximizing or minimizing. */
  predicate Better(maximizing: bool, x: Score, y: Score)
  {
    if maximizing then Less(y, x) else Less(x, y)
  }

  /** The depth-limited minimax value of p without pruning: the evaluation at
      depth 0 or at the end of the game, otherwise the best child value. */
  function Value<P>(rules: Rules<P>, p: P, depth: nat, maximizing: bool): Score
    decreases depth, 0
  {
    if depth == 0 || GameOver(rules, p) then Fin(Evaluation(rules, p, Settings.Configured))
    else Children(rules, p, rules.moves(p), depth - 1, maximizing)
  }

  /** The best of the values reached by `moves` from p, folded in list order
      from the initial bound. */
  function Children<P>(rules: Rules<P>, p: P, moves: seq<Move>, depth: nat, maximizing: bool): Score
    decreases depth, 1, |moves|
  {
    if moves == [] then Initial(maximizing)
    else
      var best := Children(rules, p, moves[..|moves| - 1], depth, maximizing);
      var v := Value(rules, rules.play(p, moves[|moves| - 1]), depth, !maximizing);
      if maximizing then Max(best, v) else Min(best, v)
  }

  /** The value of the child that move m leads to. */
  function ChildValue<P>(rules: Rules<P>, p: P, m: Move, depth: nat, maximizing: bool): Score
  {
    Value(rules, rules.play(p, m), depth, !maximizing)
  }

  /** What a fail-soft alpha-beta search promises about its result r when the
      true value is v: exact inside the window, an upper bound no higher than
      alpha below it, a lower bound no lower than beta above it. */
  predicate FailSoft(r: Score, v: Score, alpha: Score, beta: Score)
  {
    (Le(v, alpha) ==> Le(v, r) && Le(r, alpha)) &&
    (Less(alpha, v) && Less(v, beta) ==> r == v) &&
    (Le(beta, v) ==> Le(beta, r) && Le(r, v))
  }

  /** Under the full window the fail-soft bound is an equality. */
  lemma FullWindow(r: Score, v: Score)
    requires FailSoft(r, v, NegInf, PosInf)
    ensures r == v
  {
  }

  // ----- The loop invariants of one node, and how a child result advances them -----

  /** A maximizing node: alpha has been raised to maxEval where that is higher,
      maxEval bounds the plain value m of the children seen so far from above,
      and equals it once it rises above the original alpha. */
  predicate MaxProgress(maxEval: Score, a: Score, alpha: Score, m: Score)
  {
    a == Max(alpha, maxEval) && Le(m, maxEval) && (Less(alpha, maxEval) ==> maxEval == m)
  }

  predicate MinProgress(minEval: Score, b: Score, beta: Score, m: Score)
  {
    b == Min(beta, minEval) && Le(minEval, m) && (Less(minEval, beta) ==> minEval == m)
  }

  lemma MaxStep(alpha: Score, beta: Score, a: Score, maxEval: Score, m: Score, v: Score, e: Score)
    requires MaxProgress(maxEval, a, alpha, m) && Less(a, beta)
    requires FailSoft(e, v, a, beta)
    ensures Less(Max(a, e), beta) ==> MaxProgress(Max(maxEval, e), Max(a, e), alpha, Max(m, v))
    ensures Le(beta, Max(a, e)) ==> Le(beta, Max(maxEval, e)) && Le(Max(maxEval, e), Max(m, v))
  {
  }

  lemma MinStep(alpha: Score, beta: Score, b: Score, minEval: Score, m: Score, v: Score, e: Score)
    requires MinProgress(minEval, b, beta, m) && Less(alpha, b)
    requires FailSoft(e, v, alpha, b)
    ensures Less(alpha, Min(b, e)) ==> MinProgress(Min(minEval, e), Min(b, e), beta, Min(m, v))
    ensures Le(Min(b, e), alpha) ==> Le(Min(minEval, e), alpha) && Le(Min(m, v), Min(minEval, e))
  {
  }

  /** A maximizing node that saw every child without a cutoff returns a fail-soft bound. */
  lemma MaxDone(alpha: Score, beta: Score, a: Score, maxEval: Score, v: Score)
    requires MaxProgress(maxEval, a, alpha, v) && Less(a, beta)
    ensures FailSoft(maxEval, v, alpha, beta)
  {
  }

  /** A maximizing node cut off at or above beta, below the true value, returns a fail-soft bound. */
  lemma MaxCutoff(alpha: Score, beta: Score, maxEval: Score, m: Score, v: Score)
    requires Less(alpha, beta) && Le(beta, maxEval) && Le(maxEval, m) && Le(m, v)
    ensures FailSoft(maxEval, v, alpha, beta)
  {
    LeTrans(maxEval, m, v);
    LeTrans(beta, maxEval, v);
  }

  lemma MinDone(alpha: Score, beta: Score, b: Score, minEval: Score, v: Score)
    requires MinProgress(minEval, b, beta, v) && Less(alpha, b)
    ensures FailSoft(minEval, v, alpha, beta)
  {
  }

  lemma MinCutoff(alpha: Score, beta: Score, minEval: Score, m: Score, v: Score)
    requires Less(alpha, beta) && Le(minEval, alpha) && Le(m, minEval) && Le(v, m)
    ensures FailSoft(minEval, v, alpha, beta)
  {
    LeTrans(v, m, minEval);
    LeTrans(v, minEval, alpha);
  }

  /** Seeing more children can only raise the maximum and lower the minimum. */
  lemma {:induction false} PrefixBound<P>(rules: Rules<P>, p: P, moves: seq<Move>, k: nat, depth: nat, maximizing: bool)
    requires k <= |moves|
    ensures maximizing ==> Le(Children(rules, p, moves[..k], depth, maximizing), Children(rules, p, moves, depth, maximizing))
    ensures !maximizing ==> Le(Children(rules, p, moves, depth, maximizing), Children(rules, p, moves[..k], depth, maximizing))
    decreases |moves| - k
  {
    if k == |moves| {
      assert moves[..k] == moves;
    } else {
      PrefixBound(rules, p, moves, k + 1, depth, maximizing);
      assert moves[..k + 1][..k] == moves[..k];
      var here := Children(rules, p, moves[..k], depth, maximizing);
      var next := Children(rules, p, moves[..k + 1], depth, maximizing);
      var all := Children(rules, p, moves, depth, maximizing);
      if maximizing {
        LeTrans(here, next, all);
      } else {
        LeTrans(all, next, here);
      }
    }
  }

  /** One pass of the maximizing loop: the child's fail-soft result either
      keeps the loop invariant for one more move or, at a beta cutoff, already
      gives a fail-soft bound for the whole node. */
  lemma MaxIteration<P>(rules: Rules<P>, p: P, moves: seq<Move>, i: nat, depth: nat,
                        alpha: Score, beta: Score, a: Score, maxEval: Score, e: Score)
    requires i < |moves|
    requires MaxProgress(maxEval, a, alpha, Children(rules, p, moves[..i], depth, true)) && Less(a, beta)
    requires FailSoft(e, ChildValue(rules, p, moves[i], depth, true), a, beta)
    ensures Less(Max(a, e), beta) ==>
              MaxProgress(Max(maxEval, e), Max(a, e), alpha, Children(rules, p, moves[..i + 1], depth, true))
    ensures Le(beta, Max(a, e)) ==> FailSoft(Max(maxEval, e), Children(rules, p, moves, depth, true), alpha, beta)
  {
    var m := Children(rules, p, moves[..i], depth, true);
    var child := ChildValue(rules, p, moves[i], depth, true);
    assert moves[..i + 1][..i] == moves[..i];
    assert Children(rules, p, moves[..i + 1], depth, true) == Max(m, child);
    MaxStep(alpha, beta, a, maxEval, m, child, e);
    if Le(beta, Max(a, e)) {
      PrefixBound(rules, p, moves, i + 1, depth, true);
      MaxCutoff(alpha, beta, Max(maxEval, e), Max(m, child), Children(rules, p, moves, depth, true));
    }
  }

  /** One pass of the minimizing loop, symmetric to MaxIteration. */
  lemma MinIteration<P>(rules: Rules<P>, p: P, moves: seq<Move>, i: nat, depth: nat,
                        alpha: Score, beta: Score, b: Score, minEval: Score, e: Score)
    requires i < |moves|
    requires MinProgress(minEval, b, beta, Children(rules, p, moves[..i], depth, false)) && Less(alpha, b)
    requires FailSoft(e, ChildValue(rules, p, moves[i], depth, false), alpha, b)
    ensures Less(alpha, Min(b, e)) ==>
              MinProgress(Min(minEval, e), Min(b, e), beta, Children(rules, p, moves[..i + 1], depth, false))
    ensures Le(Min(b, e), alpha) ==> FailSoft(Min(minEval, e), Children(rules, p, moves, depth, false), alpha, beta)
  {
    var m := Children(rules, p, moves[..i], depth, false);
    var child := ChildValue(rules, p, moves[i], depth, false);
    assert moves[..i + 1][..i] == moves[..i];
    assert Children(rules, p, moves[..i + 1], depth, false) == Min(m, child);
    MinStep(alpha, beta, b, minEval, m, child, e);
    if Le(Min(b, e), alpha) {
      PrefixBound(rules, p, moves, i + 1, depth, false);
      MinCutoff(alpha, beta, Min(minEval, e), Min(m, child), Children(rules, p, moves, depth, false));
    }
  }

  // ----- The search -----

  /** minimax: alpha-beta search of the game's current position to the given
      depth. Every move it makes is taken back before the next is tried, so
      the game is left as it was found. */
  method Minimax<P>(game: Game<P>, depth: nat, alpha: Score, beta: Score, maximizing: bool) returns (r: Score)
    requires game.Valid() && Less(alpha, beta)
    modifies game
    ensures game.Valid() && game.stack == old(game.stack) && game.history == old(game.history)
    ensures FailSoft(r, Value(game.rules, game.Current(), depth, maximizing), alpha, beta)
    ensures alpha == NegInf && beta == PosInf ==> r == Value(game.rules, game.Current(), depth, maximizing)
    ensures depth == 0 || GameOver(game.rules, game.Current()) ==>
              r == Fin(Evaluation(game.rules, game.Current(), Settings.Configured))
    decreases depth, 2
  {
    if depth == 0 || game.IsOver() {
      var e := EvaluatePosition(game, Settings.Configured);
      return Fin(e);
    }
    if maximizing {
      r := MaxNode(game, depth, alpha, beta);
    } else {
      r := MinNode(game, depth, alpha, beta);
    }
    if alpha == NegInf && beta == PosInf {
      FullWindow(r, Value(game.rules, game.Current(), depth, maximizing));
    }
  }

  /** The maximizing branch of minimax: children in move order, alpha raised
      by each result, a beta cutoff once beta <= alpha. */
  method MaxNode<P>(game: Game<P>, depth: nat, alpha: Score, beta: Score) returns (maxEval: Score)
    requires game.Valid() && Less(alpha, beta) && depth > 0
    modifies game
    ensures game.Valid() && game.stack == old(game.stack) && game.history == old(game.history)
    ensures FailSoft(maxEval, Children(game.rules, game.Current(), game.Moves(), depth - 1, true), alpha, beta)
    decreases depth, 1
  {
    var rules, p := game.rules, game.Current();
    var moves := rules.moves(p);
    assert moves[..0] == [];
    var a := alpha;
    maxEval := NegInf;
    var i := 0;
    while i < |moves|
      invariant 0 <= i <= |moves|
      invariant game.Valid() && game.stack == old(game.stack) && game.history == old(game.history)
      invariant MaxProgress(maxEval, a, alpha, Children(rules, p, moves[..i], depth - 1, true))
      invariant Less(a, beta)
    {
      var evaluation := Explore(game, moves[i], depth - 1, a, beta, false);
      MaxIteration(rules, p, moves, i, depth - 1, alpha, beta, a, maxEval, evaluation);
      maxEval := Max(maxEval, evaluation);
      a := Max(a, evaluation);
      if Le(beta, a) {
        break;  // beta cutoff
      }
      i := i + 1;
    }
    if i == |moves| {
      assert moves[..i] == moves;
      MaxDone(alpha, beta, a, maxEval, Children(rules, p, moves, depth - 1, true));
    }
  }

  /** The minimizing branch of minimax: children in move order, beta lowered
      by each result, an alpha cutoff once beta <= alpha. */
  method MinNode<P>(game: Game<P>, depth: nat, alpha: Score, beta: Score) returns (minEval: Score)
    requires game.Valid() && Less(alpha, beta) && depth > 0
    modifies game
    ensures game.Valid() && game.stack == old(game.stack) && game.history == old(game.history)
    ensures FailSoft(minEval, Children(game.rules, game.Current(), game.Moves(), depth - 1, false), alpha, beta)
    decreases depth, 1
  {
    var rules, p := game.rules, game.Current();
    var moves := rules.moves(p);
    assert moves[..0] == [];
    var b := beta;
    minEval := PosInf;
    var i := 0;
    while i < |moves|
      invariant 0 <= i <= |moves|
      invariant game.Valid() && game.stack == old(game.stack) && game.history == old(game.history)
      invariant MinProgress(minEval, b, beta, Children(rules, p, moves[..i], depth - 1, false))
      invariant Less(alpha, b)
    {
      var evaluation := Explore(game, moves[i], depth - 1, alpha, b, true);
      MinIteration(rules, p, moves, i, depth - 1, alpha, beta, b, minEval, evaluation);
      minEval := Min(minEval, evaluation);
      b := Min(b, evaluation);
      if Le(b, alpha) {
        break;  // alpha cutoff
      }
      i := i + 1;
    }
    if i == |moves| {
      assert moves[..i] == moves;
      MinDone(alpha, beta, b, minEval, Children(rules, p, moves, depth - 1, false));
    }
  }

  /** One child of a node: game.move(m), the search below it, then game.undo(). */
  method Explore<P>(game: Game<P>, m: Move, depth: nat, alpha: Score, beta: Score, maximizing: bool) returns (e: Score)
    requires game.Valid() && m in game.Moves() && Less(alpha, beta)
    modifies game
    ensures game.Valid() && game.stack == old(game.stack) && game.history == old(game.history)
    ensures FailSoft(e, Value(game.rules, game.rules.play(game.Current(), m), depth, maximizing), alpha, beta)
    decreases depth + 1, 0
  {
    game.Move(m);
    e := Minimax(game, depth, alpha, beta, maximizing);
    game.Undo();
  }

  // ----- Properties of the plain minimax values -----

  /** In a consistent rules engine every minimax value is finite: a search
      only returns an infinity from a node with no moves that is not over. */
  lemma {:induction false} ValueFinite<P(!new)>(rules: Rules<P>, p: P, depth: nat, maximizing: bool)
    requires Consistent(rules)
    ensures Value(rules, p, depth, maximizing).Fin?
    decreases depth, 0
  {
    if !(depth == 0 || GameOver(rules, p)) {
      assert rules.moves(p) != [];
      ChildrenFinite(rules, p, rules.moves(p), depth - 1, maximizing);
    }
  }

  lemma {:induction false} ChildrenFinite<P(!new)>(rules: Rules<P>, p: P, moves: seq<Move>, depth: nat, maximizing: bool)
    requires Consistent(rules) && moves != []
    ensures Children(rules, p, moves, depth, maximizing).Fin?
    decreases depth, 1, |moves|
  {
    var n := |moves| - 1;
    ValueFinite(rules, rules.play(p, moves[n]), depth, !maximizing);
    if n > 0 {
      ChildrenFinite(rules, p, moves[..n], depth, maximizing);
    }
  }

  /** The folded best is the best of the initial bound and of every child:
      nothing beats it, and it is the initial bound or some child's value. */
  lemma {:induction false} ChildrenIsBest<P>(rules: Rules<P>, p: P, moves: seq<Move>, depth: nat, maximizing: bool)
    ensures var c := Children(rules, p, moves, depth, maximizing);
      !Better(maximizing, Initial(maximizing), c) &&
      (forall j :: 0 <= j < |moves| ==> !Better(maximizing, ChildValue(rules, p, moves[j], depth, maximizing), c)) &&
      (c == Initial(maximizing) || exists j :: 0 <= j < |moves| && c == ChildValue(rules, p, moves[j], depth, maximizing))
    decreases |moves|
  {
    if moves != [] {
      var n := |moves| - 1;
      var pre := moves[..n];
      ChildrenIsBest(rules, p, pre, depth, maximizing);
      var b := Children(rules, p, pre, depth, maximizing);
      var v := ChildValue(rules, p, moves[n], depth, maximizing);
      var c := Children(rules, p, moves, depth, maximizing);
      assert c == if maximizing then Max(b, v) else Min(b, v);
      forall j | 0 <= j < |moves|
        ensures !Better(maximizing, ChildValue(rules, p, moves[j], depth, maximizing), c)
      {
        if j < n {
          assert moves[j] == pre[j];
          var w := ChildValue(rules, p, moves[j], depth, maximizing);
          if maximizing { LeTrans(w, b, c); } else { LeTrans(c, b, w); }
        }
      }
      if c != Initial(maximizing) {
        if c == v {
          assert c == ChildValue(rules, p, moves[n], depth, maximizing);
        } else {
          assert c == b;
          var j :| 0 <= j < |pre| && b == ChildValue(rules, p, pre[j], depth, maximizing);
          assert pre[j] == moves[j];
        }
      }
      if maximizing { LeTrans(Initial(maximizing), b, c); } else { LeTrans(c, b, Initial(maximizing)); }
    }
  }

  /** The folded best does not depend on the order of the moves: any
      permutation of the moves gives the same minimax value. */
  lemma ChildrenPermutation<P>(rules: Rules<P>, p: P, s: seq<Move>, t: seq<Move>, depth: nat, maximizing: bool)
    requires multiset(s) == multiset(t)
    ensures Children(rules, p, s, depth, maximizing) == Children(rules, p, t, depth, maximizing)
  {
    var cs, ct := Children(rules, p, s, depth, maximizing), Children(rules, p, t, depth, maximizing);
    ChildrenIsBest(rules, p, s, depth, maximizing);
    ChildrenIsBest(rules, p, t, depth, maximizing);
    // cs is not better than ct, and ct is not better than cs
    if cs != Initial(maximizing) {
      var j :| 0 <= j < |s| && cs == ChildValue(rules, p, s[j], depth, maximizing);
      assert s[j] in multiset(t);
      var k :| 0 <= k < |t| && t[k] == s[j];
    }
    if ct != Initial(maximizing) {
      var j :| 0 <= j < |t| && ct == ChildValue(rules, p, t[j], depth, maximizing);
      assert t[j] in multiset(s);
      var k :| 0 <= k < |s| && s[k] == t[j];
    }
    LeTotal(cs, ct);
  }

  // ----- Root move selection -----

  /** The state of findBestMove's loop after visiting `order`: the best score
      so far and the move that first reached it. */
  function Root<P>(rules: Rules<P>, p: P, order: seq<Move>, depth: nat, maximizing: bool): (Score, Option<Move>)
    decreases |order|
  {
    if order == [] then (Initial(maximizing), None)
    else
      var (bestEval, bestMove) := Root(rules, p, order[..|order| - 1], depth, maximizing);
      var m := order[|order| - 1];
      var e := ChildValue(rules, p, m, depth, maximizing);
      if Better(maximizing, e, bestEval) then (e, Some(m)) else (bestEval, bestMove)
  }

  /** Move k of `order` is the first strictly best one: its value beats the
      initial bound and every earlier move, and no later move beats it. */
  predicate FirstBest<P>(rules: Rules<P>, p: P, order: seq<Move>, depth: nat, maximizing: bool, k: nat)
    requires k < |order|
  {
    var vk := ChildValue(rules, p, order[k], depth, maximizing);
    Better(maximizing, vk, Initial(maximizing)) &&
    (forall j :: 0 <= j < k ==> Better(maximizing, vk, ChildValue(rules, p, order[j], depth, maximizing))) &&
    (forall j :: k < j < |order| ==> !Better(maximizing, ChildValue(rules, p, order[j], depth, maximizing), vk))
  }

  lemma BetterTrans(maximizing: bool, x: Score, y: Score, z: Score)
    requires !Better(maximizing, x, y) && Better(maximizing, z, y)
    ensures Better(maximizing, z, x)
  {
  }

  /** findBestMove's selection rule: the loop ends holding the first move in
      the order whose value is strictly best, together with that value; it
      holds no move exactly when no child beats the initial bound. */
  lemma {:induction false} RootChoice<P>(rules: Rules<P>, p: P, order: seq<Move>, depth: nat, maximizing: bool)
    ensures var (bestEval, bestMove) := Root(rules, p, order, depth, maximizing);
      (forall j :: 0 <= j < |order| ==> !Better(maximizing, ChildValue(rules, p, order[j], depth, maximizing), bestEval)) &&
      (bestMove.None? ==> bestEval == Initial(maximizing)) &&
      (bestMove.Some? ==> exists k :: 0 <= k < |order| && order[k] == bestMove.value &&
                            bestEval == ChildValue(rules, p, order[k], depth, maximizing) &&
                            FirstBest(rules, p, order, depth, maximizing, k))
    decreases |order|
  {
    if order != [] {
      var n := |order| - 1;
      var pre := order[..n];
      RootChoice(rules, p, pre, depth, maximizing);
      var (b0, m0) := Root(rules, p, pre, depth, maximizing);
      var e := ChildValue(rules, p, order[n], depth, maximizing);
      assert forall j :: 0 <= j < n ==> pre[j] == order[j];
      if Better(maximizing, e, b0) {
        assert Root(rules, p, order, depth, maximizing) == (e, Some(order[n]));
        forall j | 0 <= j < n
          ensures Better(maximizing, e, ChildValue(rules, p, order[j], depth, maximizing))
        {
          BetterTrans(maximizing, ChildValue(rules, p, pre[j], depth, maximizing), b0, e);
        }
        if m0.Some? {
          var k :| 0 <= k < |pre| && pre[k] == m0.value && b0 == ChildValue(rules, p, pre[k], depth, maximizing) &&
                   FirstBest(rules, p, pre, depth, maximizing, k);
        }
        assert FirstBest(rules, p, order, depth, maximizing, n);
      } else {
        assert Root(rules, p, order, depth, maximizing) == (b0, m0);
        if m0.Some? {
          var k :| 0 <= k < |pre| && pre[k] == m0.value && b0 == ChildValue(rules, p, pre[k], depth, maximizing) &&
                   FirstBest(rules, p, pre, depth, maximizing, k);
          assert order[k] == m0.value;
          assert FirstBest(rules, p, order, depth, maximizing, k);
        }
      }
    }
  }

  /** The best score findBestMove keeps is the plain minimax fold of the
      children in the order it visits them. */
  lemma {:induction false} RootScore<P>(rules: Rules<P>, p: P, order: seq<Move>, depth: nat, maximizing: bool)
    ensures Root(rules, p, order, depth, maximizing).0 == Children(rules, p, order, depth, maximizing)
    decreases |order|
  {
    if order != [] {
      var n := |order| - 1;
      RootScore(rules, p, order[..n], depth, maximizing);
      LeTotal(Root(rules, p, order[..n], depth, maximizing).0, ChildValue(rules, p, order[n], depth, maximizing));
    }
  }

  /** The move findBestMove settles on is optimal: in a position that is not
      over, its value is the minimax value of the position itself, whatever
      permutation of the legal moves was searched. */
  lemma ChosenMoveIsOptimal<P>(rules: Rules<P>, p: P, order: seq<Move>, depth: nat, maximizing: bool)
    requires depth >= 1 && !GameOver(rules, p)
    requires multiset(order) == multiset(rules.moves(p))
    requires Root(rules, p, order, depth - 1, maximizing).1.Some?
    ensures var m := Root(rules, p, order, depth - 1, maximizing).1.value;
      m in rules.moves(p) && ChildValue(rules, p, m, depth - 1, maximizing) == Value(rules, p, depth, maximizing)
  {
    RootChoice(rules, p, order, depth - 1, maximizing);
    RootScore(rules, p, order, depth - 1, maximizing);
    ChildrenPermutation(rules, p, order, rules.moves(p), depth - 1, maximizing);
    var m := Root(rules, p, order, depth - 1, maximizing).1.value;
    assert m in multiset(order);
  }

  /** findBestMove: the only legal move when there is one; otherwise each
      move of the shuffled order is searched with the full window and the
      first strictly best is kept (highest for white, lowest for black). */
  method FindBestMove<P(!new)>(game: Game<P>, depth: nat, shuffled: seq<Move>) returns (bestMove: Option<Move>)
    requires game.Valid() && depth >= 1
    requires multiset(shuffled) == multiset(game.Moves())
    modifies game
    ensures game.Valid() && game.stack == old(game.stack) && game.history == old(game.history)
    ensures |game.Moves()| == 1 ==> bestMove == Some(game.Moves()[0])
    ensures |game.Moves()| != 1 ==>
              bestMove == Root(game.rules, game.Current(), shuffled, depth - 1, game.Turn() == White).1
    ensures bestMove.Some? ==> bestMove.value in game.Moves()
    ensures Consistent(game.rules) && game.Moves() != [] ==> bestMove.Some?
  {
    var rules, p := game.rules, game.Current();
    var isMaximizing := game.Turn() == White;
    bestMove := None;
    var bestEval := if isMaximizing then NegInf else PosInf;
    var moves := game.Moves();
    if |moves| == 1 {
      return Some(moves[0]);
    }

    moves := shuffled;  // the random sort of the move list
    assert moves[..0] == [];
    for i := 0 to |moves|
      invariant game.Valid() && game.stack == old(game.stack) && game.history == old(game.history)
      invariant (bestEval, bestMove) == Root(rules, p, moves[..i], depth - 1, isMaximizing)
    {
      assert moves[i] in multiset(game.Moves());
      var evaluation := Explore(game, moves[i], depth - 1, NegInf, PosInf, !isMaximizing);
      FullWindow(evaluation, ChildValue(rules, p, moves[i], depth - 1, isMaximizing));
      if isMaximizing {
        if Less(bestEval, evaluation) {
          bestEval := evaluation;
          bestMove := Some(moves[i]);
        }
      } else {
        if Less(evaluation, bestEval) {
          bestEval := evaluation;
          bestMove := Some(moves[i]);
        }
      }
      assert moves[..i + 1][..i] == moves[..i];
    }
    assert moves[..|moves|] == moves;

    RootChoice(rules, p, moves, depth - 1, isMaximizing);
    if bestMove.Some? {
      assert bestMove.value in multiset(moves);
    }
    if Consistent(rules) && moves != [] {
      ValueFinite(rules, rules.play(p, moves[0]), depth - 1, !isMaximizing);
    }
  }
}
