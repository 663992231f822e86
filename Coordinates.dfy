/** Algebraic squares of the 20x20 Gess board and their translation to grid indices.
    A square is written as a column letter 'a'..'t' followed by a row number 1..20;
    row 20 is the top grid row (index 0) and row 1 the bottom one (index 19). */
module Coordinates {

  datatype Option<T> = None | Some(value: T)

  /** A grid position: row and column indices, 0 at the top-left corner. */
  datatype Square = Square(row: int, col: int)

  /** The position lies on the 20x20 grid. */
  predicate OnGrid(sq: Square) {
    0 <= sq.row <= 19 && 0 <= sq.col <= 19
  }

  /** The position may be the centre of a piece: both indices in 1..18. */
  predicate InBounds(sq: Square) {
    1 <= sq.row <= 18 && 1 <= sq.col <= 18
  }

  predicate IsColumnLetter(ch: char) { 'a' <= ch <= 't' }

  predicate IsDigit(ch: char) { '0' <= ch <= '9' }

  function DigitValue(ch: char): int { ch as int - '0' as int }

  /** The row number written after the column letter: one digit 1..9, or 10..20. */
  function RowNumber(s: string): (r: Option<int>)
    ensures r.Some? ==> 1 <= r.value <= 20
  {
    if |s| == 1 && '1' <= s[0] <= '9' then Some(DigitValue(s[0]))
    else if |s| == 2 && ((s[0] == '1' && IsDigit(s[1])) || (s[0] == '2' && s[1] == '0')) then
      Some(10 * DigitValue(s[0]) + DigitValue(s[1]))
    else None
  }

  /** Translates "o18" and the like to a grid position; None where
      `convert_string`'s dictionary lookups would fail. */
  function Parse(s: string): (r: Option<Square>)
    ensures r.Some? ==> OnGrid(r.value) && (|s| == 2 || |s| == 3)
  {
    if |s| < 2 || !IsColumnLetter(s[0]) then None
    else
      match RowNumber(s[1..])
      case None => None
      case Some(n) => Some(Square(20 - n, s[0] as int - 'a' as int))
  }

  function DigitChar(d: int): char
    requires 0 <= d <= 9
  {
    ('0' as int + d) as char
  }

  /** The algebraic name of a grid position: the inverse of Parse. */
  function Format(sq: Square): string
    requires OnGrid(sq)
  {
    var n := 20 - sq.row;
    [('a' as int + sq.col) as char] + (if n < 10 then [DigitChar(n)] else [DigitChar(n / 10), DigitChar(n % 10)])
  }

  /** Every grid position has a name that parses back to it. */
  lemma ParseFormat(sq: Square)
    requires OnGrid(sq)
    ensures Parse(Format(sq)) == Some(sq)
  {
    var s := Format(sq);
    var n := 20 - sq.row;
    if n < 10 {
      assert s[1..] == [DigitChar(n)];
    } else {
      assert s[1..] == [DigitChar(n / 10), DigitChar(n % 10)];
    }
  }

  /** Every string that parses is the name of the position it parses to. */
  lemma FormatParse(s: string)
    requires Parse(s).Some?
    ensures Format(Parse(s).value) == s
  {
    var t := Format(Parse(s).value);
    if |s| == 2 {
      assert t == [s[0], s[1]];
    } else {
      assert t == [s[0], s[1], s[2]];
    }
  }

  /** Two strings that parse to the same position are the same string, so comparing
      the texts of a move's endpoints is the same as comparing their positions. */
  lemma ParseInjective(s: string, t: string)
    requires Parse(s).Some? && Parse(t).Some?
    ensures Parse(s) == Parse(t) <==> s == t
  {
    FormatParse(s);
    FormatParse(t);
  }

  /** A parsed square may be a piece centre exactly when its letter is 'b'..'s' and its
      row number is 2..19. */
  lemma ParsedInBounds(s: string)
    requires Parse(s).Some?
    ensures InBounds(Parse(s).value) <==> 'b' <= s[0] <= 's' && 2 <= RowNumber(s[1..]).value <= 19
  {
  }
}
