/**
 * The piece kinds of src/headers/PieceType.hpp and their display names.
 *
 * The program has no colour attribute: a kind's colour is read off the first
 * character of its name ('W' or 'B'), so the name table is what defines
 * colour. `ColourOf` is an independent statement of that colour, and the
 * lemmas below tie the table to it.
 */
module PieceTypes {

  datatype Option<T> = None | Some(value: T)

  /** The kinds, in the enum's declaration order; `EMPTY` marks no piece. */
  datatype PieceType = BP | BR | BB | BN | BQ | BK | WP | WR | WB | WN | WQ | WK | EMPTY

  /** The side a kind belongs to; `EMPTY` belongs to neither. */
  datatype Colour = White | Black | Neither

  /** The colour of each kind, from the chess meaning of the enum names. */
  function ColourOf(t: PieceType): Colour
  {
    match t
    case BP | BR | BB | BN | BQ | BK => Black
    case WP | WR | WB | WN | WQ | WK => White
    case EMPTY => Neither
  }

  /** The character a name of that colour starts with. */
  function Initial(c: Colour): char
  {
    match c
    case White => 'W'
    case Black => 'B'
    case Neither => 'E'
  }

  /** The static name table of `pieceTypeToString`. */
  const PieceTypeNames: map<PieceType, string> := map[
    BP := "Black Pawn",
    BR := "Black Rook",
    BB := "Black Bishop",
    BN := "Black Knight",
    BQ := "Black Queen",
    BK := "Black King",
    WP := "White Pawn",
    WR := "White Rook",
    WB := "White Bishop",
    WN := "White Knight",
    WQ := "White Queen",
    WK := "White King",
    EMPTY := "Empty"
  ]

  /** The name the program prints for a kind, with the table lookup's fallback. */
  function PieceTypeToString(t: PieceType): (name: string)
    ensures |name| > 0 && name[0] == Initial(ColourOf(t))
    ensures name != "Unknown PieceType"
  {
    if t in PieceTypeNames then PieceTypeNames[t] else "Unknown PieceType"
  }

  /** Every kind has an entry, so the fallback is never taken. */
  lemma TableTotal(t: PieceType)
    ensures t in PieceTypeNames
  {
  }

  /** Names start with 'W' exactly for white kinds and 'B' exactly for black kinds. */
  lemma NameGivesColour(t: PieceType)
    ensures PieceTypeToString(t)[0] == 'W' <==> ColourOf(t) == White
    ensures PieceTypeToString(t)[0] == 'B' <==> ColourOf(t) == Black
    ensures PieceTypeToString(t)[0] == 'E' <==> t == EMPTY
  {
  }

  /** `EMPTY` is named "Empty", which starts with neither colour's letter. */
  lemma EmptyName()
    ensures PieceTypeToString(EMPTY) == "Empty"
    ensures PieceTypeToString(EMPTY)[0] != 'W' && PieceTypeToString(EMPTY)[0] != 'B'
  {
  }

  /** Different colours give different initials. */
  lemma InitialInjective(c: Colour, d: Colour)
    ensures Initial(c) == Initial(d) <==> c == d
  {
  }

  /** The kind a name belongs to: the table read backwards. */
  function KindNamed(name: string): (t: Option<PieceType>)
  {
    if name == "Black Pawn" then Some(BP)
    else if name == "Black Rook" then Some(BR)
    else if name == "Black Bishop" then Some(BB)
    else if name == "Black Knight" then Some(BN)
    else if name == "Black Queen" then Some(BQ)
    else if name == "Black King" then Some(BK)
    else if name == "White Pawn" then Some(WP)
    else if name == "White Rook" then Some(WR)
    else if name == "White Bishop" then Some(WB)
    else if name == "White Knight" then Some(WN)
    else if name == "White Queen" then Some(WQ)
    else if name == "White King" then Some(WK)
    else if name == "Empty" then Some(EMPTY)
    else None
  }

  /** Every name leads back to its kind. */
  lemma NameRoundTrip(t: PieceType)
    ensures KindNamed(PieceTypeToString(t)) == Some(t)
  {
    match t
    case BP => case BR => case BB => case BN => case BQ => case BK =>
    case WP => case WR => case WB => case WN => case WQ => case WK =>
    case EMPTY =>
  }

  /** Thirteen kinds, thirteen distinct names. */
  lemma NamesInjective(s: PieceType, t: PieceType)
    requires s != t
    ensures PieceTypeToString(s) != PieceTypeToString(t)
  {
    NameRoundTrip(s);
    NameRoundTrip(t);
  }
}
