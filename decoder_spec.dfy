/**
 * The Rison decoder as functions of the input and the cursor position.
 * Each function is the meaning of one parsing routine of decoder.go: it
 * returns the value read and the cursor after it, or the error reported.
 * The `Parser` class in decoding.dfy runs the same rules on a mutable
 * cursor and is proved to agree with these functions.
 */
module DecoderSpec {
  import opened Lexical
  import opened Results
  import opened Values
  import opened Numbers
  import opened Diagnostics

  /** A value read, and the cursor just after it. */
  datatype Parsed = Parsed(value: Value, next: nat)

  type ParseResult = Result<Parsed, ParseError>

  /** What `next` reads: a byte and the cursor after it, or the end of the input. */
  datatype Token = EndOfInput | Byte(c: byte, next: nat)

  /**
   * The next byte at or after `i`, skipping whitespace when `skip` is set,
   * with the cursor after it; `None` when the input runs out (`next`).
   */
  function Next(s: bytes, i: nat, skip: bool): (r: Token)
    requires i <= |s|
    ensures r.Byte? ==> i < r.next <= |s| && r.c == s[r.next - 1]
    ensures r.Byte? ==> !skip || !IsWhitespace(r.c)
    decreases |s| - i
  {
    if i == |s| then EndOfInput
    else if !skip || !IsWhitespace(s[i]) then Byte(s[i], i + 1)
    else Next(s, i + 1, skip)
  }

  /**
   * `next` passes over whitespace only, and only when asked to: without
   * skipping it returns the very next byte, and it runs out only when the
   * rest of the input is whitespace being skipped.
   */
  lemma {:induction false} NextSkipsOnlyWhitespace(s: bytes, i: nat, skip: bool)
    requires i <= |s|
    ensures !skip && i < |s| ==> Next(s, i, skip) == Byte(s[i], i + 1)
    ensures Next(s, i, skip).Byte? ==>
      forall k :: i <= k < Next(s, i, skip).next - 1 ==> skip && IsWhitespace(s[k])
    ensures Next(s, i, skip).EndOfInput? <==> forall k :: i <= k < |s| ==> skip && IsWhitespace(s[k])
    decreases |s| - i
  {
    if i < |s| && skip && IsWhitespace(s[i]) {
      NextSkipsOnlyWhitespace(s, i + 1, skip);
    }
  }

  /**
   * The end of the longest run of bytes outside the reserved set that
   * starts at `i` (the tail of the identifier pattern `IDRX`).
   */
  function IdentifierEnd(s: bytes, i: nat): (r: nat)
    requires i <= |s|
    ensures i <= r <= |s|
    ensures r < |s| ==> IsNotIdChar(s[r])
    decreases |s| - i
  {
    if i < |s| && !IsNotIdChar(s[i]) then IdentifierEnd(s, i + 1) else i
  }

  /** The identifier run holds no reserved byte, and it stops at one or at the end. */
  lemma {:induction false} IdentifierRun(s: bytes, i: nat)
    requires i <= |s|
    ensures forall k :: i <= k < IdentifierEnd(s, i) ==> !IsNotIdChar(s[k])
    decreases |s| - i
  {
    if i < |s| && !IsNotIdChar(s[i]) {
      IdentifierRun(s, i + 1);
    }
  }

  /** One value, chosen by its first byte (`readValue`). */
  function ReadValue(s: bytes, i: nat, skip: bool): (r: ParseResult)
    requires i <= |s|
    ensures r.Ok? ==> i < r.value.next <= |s|
    ensures r.Err? ==> ValidPos(s, r.error.pos)
    decreases |s| - i, 0, 1
  {
    match Next(s, i, skip)
    case EndOfInput => Err(Error(s, |s|, 0, EmptyExpression))
    case Byte(c, j) => ValueAt(s, c, j, skip)
  }

  /**
   * The value whose first byte `c` was just read, the cursor being `j`:
   * the dispatch table of `readValue`, then its identifier pattern.
   */
  function ValueAt(s: bytes, c: byte, j: nat, skip: bool): (r: ParseResult)
    requires 1 <= j <= |s| && s[j - 1] == c
    ensures r.Ok? ==> j <= r.value.next <= |s|
    ensures r.Err? ==> ValidPos(s, r.error.pos)
    decreases |s| - j + 1, 0, 0
  {
    if c == '!' then ParseSpecial(s, j, skip)
    else if c == '(' then ParseObject(s, j, skip, map[])
    else if c == '\'' then ParseQuotedString(s, j)
    else if c == '-' || IsDigit(c) then ParseNumber(s, j)
    else if !IsNotIdStart(c) then
      var e := IdentifierEnd(s, j);
      Ok(Parsed(String(s[j - 1..e]), e))
    else Err(Error(s, j, -1, InvalidCharacter(c)))
  }

  /** The byte after `!`: a literal or the start of an array (`parseSpecial`). */
  function ParseSpecial(s: bytes, i: nat, skip: bool): (r: ParseResult)
    requires 1 <= i <= |s|
    ensures r.Ok? ==> i < r.value.next <= |s|
    ensures r.Err? ==> ValidPos(s, r.error.pos)
    decreases |s| - i, 2, 0
  {
    if |s| <= i then Err(Error(s, i, -1, BangAtEnd))
    else
      var c := s[i];
      if c == 't' then Ok(Parsed(Bool(true), i + 1))
      else if c == 'f' then Ok(Parsed(Bool(false), i + 1))
      else if c == 'n' then Ok(Parsed(Null, i + 1))
      else if c == '(' then ParseArray(s, i + 1, skip, [])
      else Err(Error(s, i + 1, -1, UnknownLiteral(c)))
  }

  /**
   * The rest of an array after `!(`, with `items` read so far (one turn of
   * the loop of `parseArray` per call).
   */
  function ParseArray(s: bytes, i: nat, skip: bool, items: seq<Value>): (r: ParseResult)
    requires i <= |s|
    ensures r.Ok? ==> i < r.value.next <= |s| && r.value.value.Array?
    ensures r.Err? ==> ValidPos(s, r.error.pos)
    decreases |s| - i, 1, 1
  {
    match Next(s, i, skip)
    case EndOfInput => Err(Error(s, |s|, 0, Unmatched("!(")))
    case Byte(c, j) =>
      if c == ')' then Ok(Parsed(Array(items), j))
      else if 0 < |items| && c != ',' then Err(Error(s, j, -1, MissingComma))
      else if |items| == 0 && c == ',' then Err(Error(s, j, -1, ExtraComma))
      else
        match ReadValue(s, if |items| == 0 then j - 1 else j, skip)
        case Err(e) => Err(e)
        case Ok(Parsed(v, k)) => ParseArray(s, k, skip, items + [v])
  }

  /** One turn of the loop of `parseArray` that reads an element. */
  lemma ArrayTurn(s: bytes, i: nat, skip: bool, items: seq<Value>, c: byte, j: nat)
    requires i <= |s| && Next(s, i, skip) == Byte(c, j) && c != ')'
    requires !(0 < |items| && c != ',') && !(|items| == 0 && c == ',')
    ensures var v := ReadValue(s, if |items| == 0 then j - 1 else j, skip);
      ParseArray(s, i, skip, items) ==
        if v.Err? then Err(v.error) else ParseArray(s, v.value.next, skip, items + [v.value.value])
  {
  }

  /**
   * The rest of an object after `(`, with the `fields` read so far (one
   * turn of the loop of `parseObject` per call).
   */
  function ParseObject(s: bytes, i: nat, skip: bool, fields: map<Key, Value>): (r: ParseResult)
    requires i <= |s|
    ensures r.Ok? ==> i < r.value.next <= |s| && r.value.value.Object?
    ensures r.Err? ==> ValidPos(s, r.error.pos)
    decreases |s| - i, 1, 1
  {
    match Next(s, i, skip)
    case EndOfInput => Err(Error(s, |s|, 0, Unmatched("(")))
    case Byte(c, j) =>
      if c == ')' then Ok(Parsed(Object(fields), j))
      else if 0 < |fields| && c != ',' then Err(Error(s, j, -1, MissingComma))
      else if |fields| == 0 && c == ',' then Err(Error(s, j, -1, ExtraComma))
      else
        match ObjectMember(s, if |fields| == 0 then j - 1 else j, skip)
        case Err(e) => Err(e)
        case Ok(m) => ParseObject(s, m.next, skip, fields[StringKey(m.key) := m.value])
  }

  /** One turn of the loop of `parseObject` that reads a member. */
  lemma ObjectTurn(s: bytes, i: nat, skip: bool, fields: map<Key, Value>, c: byte, j: nat)
    requires i <= |s| && Next(s, i, skip) == Byte(c, j) && c != ')'
    requires !(0 < |fields| && c != ',') && !(|fields| == 0 && c == ',')
    ensures var m := ObjectMember(s, if |fields| == 0 then j - 1 else j, skip);
      ParseObject(s, i, skip, fields) ==
        if m.Err? then Err(m.error)
        else ParseObject(s, m.value.next, skip, fields[StringKey(m.value.key) := m.value.value])
  {
    var at := if |fields| == 0 then j - 1 else j;
    match ObjectMember(s, at, skip)
    case Err(e) => ObjectTurnFails(s, i, skip, fields, c, j, e);
    case Ok(m) => ObjectTurnReads(s, i, skip, fields, c, j, m);
  }

  /** A turn whose member fails ends the object with that failure. */
  lemma ObjectTurnFails(s: bytes, i: nat, skip: bool, fields: map<Key, Value>, c: byte, j: nat, e: ParseError)
    requires i <= |s| && Next(s, i, skip) == Byte(c, j) && c != ')'
    requires !(0 < |fields| && c != ',') && !(|fields| == 0 && c == ',')
    requires ObjectMember(s, if |fields| == 0 then j - 1 else j, skip) == Err(e)
    ensures ParseObject(s, i, skip, fields) == Err(e)
  {
  }

  /** A turn whose member is read goes on with it added. */
  lemma ObjectTurnReads(s: bytes, i: nat, skip: bool, fields: map<Key, Value>, c: byte, j: nat, m: Member)
    requires i <= |s| && Next(s, i, skip) == Byte(c, j) && c != ')'
    requires !(0 < |fields| && c != ',') && !(|fields| == 0 && c == ',')
    requires ObjectMember(s, if |fields| == 0 then j - 1 else j, skip) == Ok(m)
    ensures ParseObject(s, i, skip, fields) == ParseObject(s, m.next, skip, fields[StringKey(m.key) := m.value])
  {
  }

  /**
   * A comma after an element must be followed by another element: `,)`
   * in an array is rejected, at the `)`, which no value can begin.
   */
  lemma ArrayTrailingComma(s: bytes, i: nat, skip: bool, items: seq<Value>, j: nat, k: nat)
    requires i <= |s| && 0 < |items|
    requires Next(s, i, skip) == Byte(',', j) && Next(s, j, skip) == Byte(')', k)
    ensures ParseArray(s, i, skip, items) == Err(ParseError(InvalidCharacter(')'), k - 1))
  {
    ArrayTurn(s, i, skip, items, ',', j);
  }

  /** The same for objects: `,)` after a member is rejected at the `)`. */
  lemma ObjectTrailingComma(s: bytes, i: nat, skip: bool, fields: map<Key, Value>, j: nat, k: nat)
    requires i <= |s| && 0 < |fields|
    requires Next(s, i, skip) == Byte(',', j) && Next(s, j, skip) == Byte(')', k)
    ensures ParseObject(s, i, skip, fields) == Err(ParseError(InvalidCharacter(')'), k - 1))
  {
    ObjectTurn(s, i, skip, fields, ',', j);
    assert ReadValue(s, j, skip) == Err(ParseError(InvalidCharacter(')'), k - 1));
    assert ObjectMember(s, j, skip) == Err(ParseError(InvalidCharacter(')'), k - 1));
  }

  /**
   * Elements are separated by `,`: after an element any other byte but
   * `)` is a missing comma, and a `,` before the first element is an
   * extra one; either is reported at that byte.
   */
  lemma ArraySeparator(s: bytes, i: nat, skip: bool, items: seq<Value>, c: byte, j: nat)
    requires i <= |s| && Next(s, i, skip) == Byte(c, j) && c != ')'
    ensures 0 < |items| && c != ',' ==> ParseArray(s, i, skip, items) == Err(ParseError(MissingComma, j - 1))
    ensures |items| == 0 && c == ',' ==> ParseArray(s, i, skip, items) == Err(ParseError(ExtraComma, j - 1))
  {
  }

  /** The same separator rules for the members of an object. */
  lemma ObjectSeparator(s: bytes, i: nat, skip: bool, fields: map<Key, Value>, c: byte, j: nat)
    requires i <= |s| && Next(s, i, skip) == Byte(c, j) && c != ')'
    ensures 0 < |fields| && c != ',' ==> ParseObject(s, i, skip, fields) == Err(ParseError(MissingComma, j - 1))
    ensures |fields| == 0 && c == ',' ==> ParseObject(s, i, skip, fields) == Err(ParseError(ExtraComma, j - 1))
  {
  }

  /** A member of an object: a key, then `:`, then the member's value. */
  datatype Member = Member(key: bytes, value: Value, next: nat)

  /** The `key:value` read from `i` by one turn of the loop of `parseObject`. */
  function ObjectMember(s: bytes, i: nat, skip: bool): (r: Result<Member, ParseError>)
    requires i <= |s|
    ensures r.Ok? ==> i < r.value.next <= |s|
    ensures r.Err? ==> ValidPos(s, r.error.pos)
    decreases |s| - i, 1, 0
  {
    match ReadValue(s, i, skip)
    case Err(e) => Err(e)
    case Ok(Parsed(k, m)) =>
      if !k.String? then Err(Error(s, m, -1, KeyNotString))
      else
        match Next(s, m, skip)
        case EndOfInput => Err(Error(s, |s|, -1, MissingColon))
        case Byte(colon, n) =>
          if colon != ':' then Err(Error(s, n, -1, MissingColon))
          else
            match ReadValue(s, n, skip)
            case Err(e) => Err(e)
            case Ok(Parsed(v, q)) => Ok(Member(k.s, v, q))
  }

  /** A quoted string whose opening `'` is just before `i` (`parseQuotedString`). */
  function ParseQuotedString(s: bytes, i: nat): (r: ParseResult)
    requires 1 <= i <= |s|
    ensures r.Ok? ==> i < r.value.next <= |s| && r.value.value.String?
    ensures r.Err? ==> ValidPos(s, r.error.pos)
  {
    QuotedLoop(s, i, i, i, [])
  }

  /**
   * The loop of `parseQuotedString`: `open` is the cursor after the
   * opening quote, `i` the scan position, `acc` the unescaped text so far
   * and `s[start..i]` plain bytes not yet copied into it.
   */
  function QuotedLoop(s: bytes, open: nat, i: nat, start: nat, acc: bytes): (r: ParseResult)
    requires 1 <= open <= start <= i <= |s|
    ensures r.Ok? ==> i < r.value.next <= |s| && r.value.value.String?
    ensures r.Err? ==> ValidPos(s, r.error.pos)
    decreases |s| - i
  {
    if |s| <= i then Err(Error(s, open, 0, Unmatched("'")))
    else if s[i] == '\'' then Ok(Parsed(String(acc + s[start..i]), i + 1))
    else if s[i] == '!' then
      if |s| <= i + 1 then Err(Error(s, open, -1, MissingCharacterAfterEscape))
      else if s[i + 1] == '!' || s[i + 1] == '\'' then
        QuotedLoop(s, open, i + 2, i + 2, acc + s[start..i] + [s[i + 1]])
      else Err(Error(s, open, -1, InvalidStringEscape(s[i + 1])))
    else QuotedLoop(s, open, i + 1, start, acc)
  }

  /** The states of the number scanner (`numberParserState`). */
  datatype NumberState = EndState | IntState | FracState | ExpState

  /**
   * Where the number scanner stops, from position `i` in `state`; `signOk`
   * says whether a `-` is still permitted. Only digits, `-`, `.` and `e`
   * are consumed.
   */
  function ScanNumber(s: bytes, i: nat, state: NumberState, signOk: bool): (r: nat)
    requires i <= |s| && state != EndState
    ensures i <= r <= |s|
    decreases |s| - i
  {
    if i == |s| then |s|
    else
      var c := s[i];
      if IsDigit(c) then ScanNumber(s, i + 1, state, signOk)
      else if signOk && c == '-' then ScanNumber(s, i + 1, state, false)
      else
        match state
        case IntState =>
          if c == '.' then ScanNumber(s, i + 1, FracState, signOk)
          else if c == 'e' then ScanNumber(s, i + 1, ExpState, true)
          else i
        case FracState =>
          if c == 'e' then ScanNumber(s, i + 1, ExpState, true)
          else i
        case _ => i
  }

  /** The number scanner consumes only digits, `-`, `.` and `e`. */
  lemma {:induction false} ScanNumberBytes(s: bytes, i: nat, state: NumberState, signOk: bool)
    requires i <= |s| && state != EndState
    ensures forall k :: i <= k < ScanNumber(s, i, state, signOk) ==> IsNumberByte(s[k])
    decreases |s| - i
  {
    if i < |s| {
      var c := s[i];
      if IsDigit(c) {
        ScanNumberBytes(s, i + 1, state, signOk);
      } else if signOk && c == '-' {
        ScanNumberBytes(s, i + 1, state, false);
      } else if state == IntState && c == '.' {
        ScanNumberBytes(s, i + 1, FracState, signOk);
      } else if (state == IntState || state == FracState) && c == 'e' {
        ScanNumberBytes(s, i + 1, ExpState, true);
      }
    }
  }

  /**
   * A number whose first byte (`-` or a digit) is just before `i`
   * (`parseNumber`): the text the scanner consumed, if it is a JSON number.
   */
  function ParseNumber(s: bytes, i: nat): (r: ParseResult)
    requires 1 <= i <= |s|
    ensures r.Ok? ==> i <= r.value.next <= |s| && r.value.value == Number(s[i - 1..r.value.next])
    ensures r.Err? ==> ValidPos(s, r.error.pos)
  {
    var e := ScanNumber(s, i, IntState, true);
    var t := s[i - 1..e];
    if t == "-" then Err(Error(s, e, -1, LoneMinus))
    else if !IsJsonNumber(t) then Err(Error(s, e, -1, InvalidNumber(t)))
    else Ok(Parsed(Number(t), e))
  }

  /**
   * A number read is the exact text consumed, and that text is a JSON
   * number in which neither `+` nor `E` occurs.
   */
  lemma NumberReadIsRison(s: bytes, i: nat)
    requires 1 <= i <= |s|
    ensures var r := ParseNumber(s, i);
      r.Ok? ==> IsRisonNumber(s[i - 1..r.value.next]) && r.value.next == ScanNumber(s, i, IntState, true)
  {
    var e := ScanNumber(s, i, IntState, true);
    var t := s[i - 1..e];
    ScanNumberBytes(s, i, IntState, true);
    if IsJsonNumber(t) {
      JsonNumberStart(t);
      assert forall k :: 1 <= k < |t| ==> t[k] == s[i - 1 + k];
    }
  }

  /** A whole input holding exactly one value (`parse`). */
  function Parse(s: bytes, skip: bool): (r: Result<Value, ParseError>)
    ensures r.Err? ==> ValidPos(s, r.error.pos)
  {
    match ReadValue(s, 0, skip)
    case Err(e) => Err(e)
    case Ok(Parsed(v, j)) =>
      if j < |s| then Err(Error(s, j, 0, ExtraCharacterAfterValue(s[j]))) else Ok(v)
  }

  /** `Decode`: a parser that does not skip whitespace. */
  function Decode(r: bytes): Result<Value, ParseError> {
    Parse(r, false)
  }
}
