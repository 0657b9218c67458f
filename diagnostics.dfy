/**
 * Decode errors: the kind of failure, the byte offset it is reported at,
 * and the context window around that offset with the phrase chosen to
 * show it (`substr` and `error` in decoder.go).
 */
module Diagnostics {
  import opened Lexical

  /** What went wrong; the arguments are those the message is formatted with. */
  datatype ErrorKind =
    | EmptyExpression
    | ExtraCharacterAfterValue(c: byte)
    | BangAtEnd
    | UnknownLiteral(c: byte)
    | Unmatched(opener: bytes)
    | MissingComma
    | ExtraComma
    | KeyNotString
    | MissingColon
    | InvalidStringEscape(c: byte)
    | MissingCharacterAfterEscape
    | LoneMinus
    | InvalidNumber(text: bytes)
    | InvalidCharacter(c: byte)

  /** The phrase that shows where the error is, with the context it quotes. */
  datatype Locus =
    | Near(at: int, left: bytes, center: bytes, right: bytes)
    | FirstCharacter(center: bytes, right: bytes)
    | EndOfString(left: bytes)
    | LastCharacter(left: bytes, center: bytes)

  /**
   * A decode error: its kind and the byte offset it is reported at. The
   * context the message quotes is a function of the input and the offset,
   * `Describe` below.
   */
  datatype ParseError = ParseError(kind: ErrorKind, pos: int)

  function Max(a: int, b: int): int { if a < b then b else a }

  function Min(a: int, b: int): int { if a < b then a else b }

  /** A position the decoder may report: inside the input, or 0 for an empty input. */
  predicate ValidPos(s: bytes, o: int) {
    0 <= o && (o < |s| || o == 0)
  }

  /**
   * The bytes of `s` at positions `o .. o + n - 1` that exist: the window
   * is clamped at both ends of the input.
   */
  function Substr(s: bytes, o: int, n: nat): (r: bytes)
    requires 0 <= o + n
    requires |s| > 0 ==> o <= |s|
    ensures |r| == if |s| == 0 then 0 else Min(o + n, |s|) - Max(o, 0)
    ensures forall k :: 0 <= k < |r| ==> r[k] == s[Max(o, 0) + k]
  {
    if |s| == 0 then [] else s[Max(o, 0)..Min(o + n, |s|)]
  }

  /** The absolute offset of `error(offset, ...)`: a negative offset is relative to the cursor. */
  function Position(index: int, offset: int): int {
    if offset < 0 then index + offset else offset
  }

  /** The five bytes before `o`, the byte at `o` and the five after it, and the phrase chosen from them. */
  function Locate(s: bytes, o: int): Locus
    requires ValidPos(s, o)
  {
    var l := Substr(s, o - 5, 5);
    var c := Substr(s, o, 1);
    var r := Substr(s, o + 1, 5);
    if l == [] then FirstCharacter(c, r)
    else if c == [] then EndOfString(l)
    else if r == [] then LastCharacter(l, c)
    else Near(o, l, c, r)
  }

  /** The error the parser reports with cursor `index` (`p.error(offset, ...)`). */
  function Error(s: bytes, index: int, offset: int, kind: ErrorKind): (e: ParseError)
    requires ValidPos(s, Position(index, offset))
    ensures e.kind == kind && ValidPos(s, e.pos)
    ensures offset >= 0 ==> e.pos == offset
    ensures offset < 0 ==> e.pos == index + offset
  {
    ParseError(kind, Position(index, offset))
  }

  /** The phrase and context the message of error `e` on input `s` shows. */
  function Describe(s: bytes, e: ParseError): Locus
    requires ValidPos(s, e.pos)
  {
    Locate(s, e.pos)
  }

  /**
   * The phrase depends only on where the offset lies: the first byte, the
   * last byte, or a byte in between. The end-of-string phrase is never
   * chosen, because every reported offset names a byte of the input.
   */
  lemma {:induction false} LocusByPosition(s: bytes, o: int)
    requires ValidPos(s, o)
    ensures Locate(s, o).FirstCharacter? <==> o == 0
    ensures !Locate(s, o).EndOfString?
    ensures Locate(s, o).LastCharacter? <==> 0 < o && o == |s| - 1
    ensures Locate(s, o).Near? <==> 0 < o < |s| - 1
  {
    var l := Substr(s, o - 5, 5);
    var c := Substr(s, o, 1);
    var r := Substr(s, o + 1, 5);
    assert l == [] <==> (|s| == 0 || o == 0);
    assert |s| > 0 ==> |c| == 1;
    assert |s| > 0 ==> (r == [] <==> o == |s| - 1);
  }

  /**
   * The quoted context: up to five bytes before the offset, the byte at it
   * and up to five bytes after it, each clamped to the input. Every
   * phrase but the first-character one quotes the bytes before, and every
   * phrase but the last-character one quotes the bytes after.
   */
  lemma {:induction false} LocusWindows(s: bytes, o: int)
    requires ValidPos(s, o) && o < |s|
    ensures !Locate(s, o).EndOfString?
    ensures Locate(s, o).center == [s[o]]
    ensures !Locate(s, o).FirstCharacter? ==> Locate(s, o).left == s[Max(o - 5, 0)..o]
    ensures !Locate(s, o).LastCharacter? ==> Locate(s, o).right == s[o + 1..Min(o + 6, |s|)]
  {
    var c := Substr(s, o, 1);
    assert c == [s[o]];
  }
}
