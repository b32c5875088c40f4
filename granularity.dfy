/**
  The `gran_` table: the accepted granularity tokens and the bucket interval each stands for,
  given as its length in seconds (the interval strings themselves are SQL text).
*/
module Granularity {
  import opened Common

  datatype Gran = Hour | TwoHours | SixHours | TwelveHours | Day | Week

  function Token(g: Gran): string {
    match g
    case Hour => "H"
    case TwoHours => "2H"
    case SixHours => "6H"
    case TwelveHours => "12H"
    case Day => "D"
    case Week => "W"
  }

  /** The table lookup `gran_[granularity]`; a token outside the table has no interval. */
  function Parse(token: string): (g: Option<Gran>)
    ensures g.Some? <==> token in {"H", "2H", "6H", "12H", "D", "W"}
    ensures g.Some? ==> Token(g.value) == token
  {
    if token == "H" then Some(Hour)
    else if token == "2H" then Some(TwoHours)
    else if token == "6H" then Some(SixHours)
    else if token == "12H" then Some(TwelveHours)
    else if token == "D" then Some(Day)
    else if token == "W" then Some(Week)
    else None
  }

  /** The length of the interval in seconds: a whole number of hours. */
  function Width(g: Gran): (w: int)
    ensures w > 0 && w % 3600 == 0
  {
    match g
    case Hour => 3600
    case TwoHours => 2 * 3600
    case SixHours => 6 * 3600
    case TwelveHours => 12 * 3600
    case Day => 24 * 3600
    case Week => 7 * 24 * 3600
  }

  /** Every granularity is reached from its own token, and from no other. */
  lemma {:induction false} ParseToken(g: Gran)
    ensures Parse(Token(g)) == Some(g)
  {
    match g
    case Hour =>
    case TwoHours =>
    case SixHours =>
    case TwelveHours =>
    case Day =>
    case Week =>
  }

  /** Distinct tokens mean distinct bucket widths. */
  lemma WidthInjective(g1: Gran, g2: Gran)
    requires Width(g1) == Width(g2)
    ensures g1 == g2
  {
  }
}
