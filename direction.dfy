/**
 * The vocabulary every cursor speaks: the two terms (start and end of data)
 * and the two directions of travel, with the terms that belong to each
 * direction (src/common/preiterable/private/direction.ts).
 */
module Direction {

  /** 'SOD' (start of data) and 'EOD' (end of data). */
  datatype Term = SOD | EOD

  /** 'next' walks toward EOD, 'previous' toward SOD. */
  datatype Direction = Next | Previous

  /** The terms of a direction: where a walk in it starts, and what it returns once exhausted. */
  datatype Terms = Terms(start: Term, done: Term)

  function Opposite(d: Direction): Direction
  {
    if d == Next then Previous else Next
  }

  /** The edge of the data that a walk in direction `d` runs into. */
  function Edge(d: Direction): Term
  {
    match d
    case Next => EOD
    case Previous => SOD
  }

  function TermsOf(d: Direction): (r: Terms)
    ensures r.done == Edge(d)
    ensures r.start == Edge(Opposite(d))
    ensures r.start != r.done
  {
    if d == Next then Terms(SOD, EOD) else Terms(EOD, SOD)
  }

  /** `startOf`: where a walk in `d` begins; `next` starts at `SOD`. */
  function StartOf(d: Direction): (t: Term)
    ensures t != Edge(d)
    ensures t == SOD <==> d == Next
  {
    TermsOf(d).start
  }

  /** `endOf`: what a walk in `d` returns once exhausted; `next` ends at `EOD`. */
  function EndOf(d: Direction): (t: Term)
    ensures t == Edge(d)
    ensures t == EOD <==> d == Next
  {
    TermsOf(d).done
  }

  /** A walk in one direction starts where a walk in the other ends. */
  lemma StartIsOppositeEnd(d: Direction)
    ensures StartOf(d) == EndOf(Opposite(d))
    ensures EndOf(d) == StartOf(Opposite(d))
    ensures StartOf(Next) == SOD && EndOf(Next) == EOD
    ensures StartOf(Previous) == EOD && EndOf(Previous) == SOD
  {
  }
}
