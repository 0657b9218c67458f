/**
 * Lexical definitions shared by the Rison decoder and encoder: the
 * identifier character classes, the whitespace set and the three
 * encoding/decoding modes.
 */
module Lexical {

  /** One byte of Rison text. Each `char` here stands for one byte of the Go `[]byte`. */
  type byte = c: char | c as int < 256 witness '\0'

  type bytes = seq<byte>

  /** Appending to a buffer in two steps appends the two pieces together. */
  lemma AppendAssoc(a: bytes, b: bytes, c: bytes)
    ensures a + b + c == a + (b + c)
  {
  }

  /** Bytes that may not appear in a bare identifier (`notIDChar`, which is also `NOT_IDCHAR`). */
  const NotIdChar: bytes := " '!:(),*@$"

  /** Bytes that may not begin a bare identifier (`notIDStart`). */
  const NotIdStart: bytes := NotIdChar + "0123456789-"

  /** Bytes the parser may skip between tokens (`parserWhitespace`, which is also `PARSER_WHITESPACE`). */
  const ParserWhitespace: bytes := " \t\n\r\U{C}"

  predicate IsDigit(c: byte) {
    '0' <= c <= '9'
  }

  /** A reserved byte: one of `NotIdChar`, as `NotIdCharSet` below proves. */
  predicate IsNotIdChar(c: byte) {
    c == ' ' || c == '\'' || c == '!' || c == ':' || c == '(' ||
    c == ')' || c == ',' || c == '*' || c == '@' || c == '$'
  }

  /** A byte that may not begin an identifier: one of `NotIdStart`. */
  predicate IsNotIdStart(c: byte) {
    IsNotIdChar(c) || IsDigit(c) || c == '-'
  }

  /** A byte the parser may skip: one of `ParserWhitespace`. */
  predicate IsWhitespace(c: byte) {
    c == ' ' || c == '\t' || c == '\n' || c == '\r' || c == '\U{C}'
  }

  /** A byte that may occur in the text the number scanner consumes. */
  predicate IsNumberByte(c: byte) {
    IsDigit(c) || c == '-' || c == '.' || c == 'e'
  }

  /** The reserved bytes are exactly those of `NotIdChar`. */
  lemma NotIdCharSet(c: byte)
    ensures IsNotIdChar(c) <==> c in NotIdChar
  {
  }

  /** The bytes that may not begin an identifier are exactly those of `NotIdStart`. */
  lemma NotIdStartSet(c: byte)
    ensures IsNotIdStart(c) <==> c in NotIdStart
  {
  }

  /** The bytes the parser skips are exactly those of `ParserWhitespace`. */
  lemma WhitespaceSet(c: byte)
    ensures IsWhitespace(c) <==> c in ParserWhitespace
  {
  }

  /** The variation of Rison to encode or decode. */
  datatype Mode = Rison | ORison | ARison

  /** The integer each mode stands for in the Go enum. */
  function ModeValue(m: Mode): (n: int)
    ensures 0 <= n < 3
  {
    match m
    case Rison => 0
    case ORison => 1
    case ARison => 2
  }

  /** The mode a Go enum value stands for. */
  function ModeOfValue(n: int): Mode
    requires 0 <= n < 3
  {
    if n == 0 then Rison else if n == 1 then ORison else ARison
  }

  /** Exactly three modes, numbered 0, 1, 2 without gaps or repeats. */
  lemma ModeValuesAreExactlyThree(m: Mode, n: int)
    ensures ModeOfValue(ModeValue(m)) == m
    ensures 0 <= n < 3 ==> ModeValue(ModeOfValue(n)) == n
  {
  }
}

/** Success-or-failure values, as the source's `(value, error)` returns. */
module Results {

  datatype Option<+T> = None | Some(value: T)

  datatype Result<+T, +E> = Ok(value: T) | Err(error: E)
}
