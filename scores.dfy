/** Search scores: the integers extended with the two infinities that the
    search uses as the initial bests and as the root window. */
module Scores {

  datatype Score = NegInf | Fin(n: int) | PosInf

  /** The total order on scores. */
  predicate Le(a: Score, b: Score)
  {
    match (a, b)
    case (NegInf, _) => true
    case (_, PosInf) => true
    case (Fin(x), Fin(y)) => x <= y
    case _ => false
  }

  predicate Less(a: Score, b: Score)
  {
    !Le(b, a)
  }

  /** Math.max on two scores. */
  function Max(a: Score, b: Score): (r: Score)
    ensures Le(a, r) && Le(b, r)
    ensures r == a || r == b
  {
    if Le(a, b) then b else a
  }

  /** Math.min on two scores. */
  function Min(a: Score, b: Score): (r: Score)
    ensures Le(r, a) && Le(r, b)
    ensures r == a || r == b
  {
    if Le(a, b) then a else b
  }

  lemma LeTotal(a: Score, b: Score)
    ensures Le(a, b) || Le(b, a)
    ensures Le(a, b) && Le(b, a) ==> a == b
  {
  }

  lemma LeTrans(a: Score, b: Score, c: Score)
    requires Le(a, b) && Le(b, c)
    ensures Le(a, c)
  {
  }
}
