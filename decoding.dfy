/**
 * The Rison decoder as decoder.go writes it: a parser object holding the
 * input and a cursor that every rule advances. Each method is proved to
 * return what the corresponding function of `DecoderSpec` describes and
 * to leave the cursor where that function says the value ends.
 */
module Decoding {
  import opened Lexical
  import opened Results
  import opened Values
  import opened Numbers
  import opened Diagnostics
  import D = DecoderSpec

  /**
   * A method's outcome `r` and the cursor `index` it leaves are those
   * `spec` describes; after an error the cursor is not specified.
   */
  ghost predicate Agrees(r: Result<Value, ParseError>, index: nat, spec: D.ParseResult) {
    match spec
    case Ok(p) => r == Ok(p.value) && index == p.next
    case Err(e) => r == Err(e)
  }

  /**
   * The length of the match of the identifier pattern `IDRX` at the start
   * of `s[i..]`, or 0 when it does not match (`nextId.FindSubmatch`): a
   * byte outside the start set, then the longest run outside the reserved set.
   */
  method MatchIdentifier(s: bytes, i: nat) returns (n: nat)
    requires i <= |s|
    ensures n == 0 <==> i == |s| || IsNotIdStart(s[i])
    ensures 0 < n ==> i + n == D.IdentifierEnd(s, i + 1)
  {
    if i == |s| || IsNotIdStart(s[i]) {
      return 0;
    }
    var e := i + 1;
    while e < |s| && !IsNotIdChar(s[e])
      invariant i < e <= |s|
      invariant D.IdentifierEnd(s, e) == D.IdentifierEnd(s, i + 1)
      decreases |s| - e
    {
      e := e + 1;
    }
    n := e - i;
  }

  class Parser {
    var skipWhitespaces: bool
    var input: bytes
    var index: nat

    /** A fresh parser (`&parser{}`): whitespace is significant. */
    constructor ()
      ensures !skipWhitespaces && input == [] && index == 0
    {
      skipWhitespaces := false;
      input := [];
      index := 0;
    }


    /** `next`: the next byte, skipping whitespace when asked to. */
    method Next() returns (c: byte, ok: bool)
      requires index <= |input|
      modifies this`index
      ensures index <= |input|
      ensures ok ==> D.Next(input, old(index), skipWhitespaces) == D.Byte(c, index)
      ensures !ok ==> D.Next(input, old(index), skipWhitespaces) == D.EndOfInput && index == |input|
    {
      while index < |input|
        invariant old(index) <= index <= |input|
        invariant D.Next(input, index, skipWhitespaces) == D.Next(input, old(index), skipWhitespaces)
        decreases |input| - index
      {
        var b := input[index];
        index := index + 1;
        if !skipWhitespaces || !IsWhitespace(b) {
          return b, true;
        }
      }
      return '\0', false;
    }

    /** `readValue`: one value, chosen by its first byte. */
    method ReadValue() returns (r: Result<Value, ParseError>)
      requires index <= |input|
      modifies this`index
      ensures index <= |input|
      ensures Agrees(r, index, D.ReadValue(input, old(index), skipWhitespaces))
      decreases |input| - index, 0, 1
    {
      var c, ok := Next();
      if !ok {
        return Err(Error(input, index, 0, EmptyExpression));
      }
      r := ValueAt(c);
    }

    /** The switch of `readValue` on the byte `c` just read, then the identifier pattern. */
    method ValueAt(c: byte) returns (r: Result<Value, ParseError>)
      requires 1 <= index <= |input| && input[index - 1] == c
      modifies this`index
      ensures index <= |input|
      ensures Agrees(r, index, D.ValueAt(input, c, old(index), skipWhitespaces))
      decreases |input| - index + 1, 0, 0
    {
      if c == '!' {
        r := ParseSpecial();
      } else if c == '(' {
        r := ParseObject();
      } else if c == '\'' {
        r := ParseQuotedString();
      } else if c == '-' || IsDigit(c) {
        r := ParseNumber();
      } else {
        // fell through the table: the identifier pattern, matched at the byte just read
        var i := index - 1;
        var n := MatchIdentifier(input, i);
        if 0 < n {
          index := i + n;
          r := Ok(String(input[i..i + n]));
        } else {
          r := Err(Error(input, index, -1, InvalidCharacter(c)));
        }
      }
    }

    /** `parseSpecial`: the byte after `!`. */
    method ParseSpecial() returns (r: Result<Value, ParseError>)
      requires 1 <= index <= |input|
      modifies this`index
      ensures index <= |input|
      ensures Agrees(r, index, D.ParseSpecial(input, old(index), skipWhitespaces))
      decreases |input| - index, 2, 0
    {
      if |input| <= index {
        return Err(Error(input, index, -1, BangAtEnd));
      }
      var c := input[index];
      index := index + 1;
      if c == 't' {
        r := Ok(Bool(true));
      } else if c == 'f' {
        r := Ok(Bool(false));
      } else if c == 'n' {
        r := Ok(Null);
      } else if c == '(' {
        r := ParseArray();
      } else {
        r := Err(Error(input, index, -1, UnknownLiteral(c)));
      }
    }

    /** `parseArray`: the elements after `!(` up to the matching `)`. */
    method ParseArray() returns (r: Result<Value, ParseError>)
      requires index <= |input|
      modifies this`index
      ensures index <= |input|
      ensures Agrees(r, index, D.ParseArray(input, old(index), skipWhitespaces, []))
      decreases |input| - index, 1, 1
    {
      var ar: seq<Value> := [];
      while true
        invariant index <= |input|
        invariant D.ParseArray(input, index, skipWhitespaces, ar) ==
                  D.ParseArray(input, old(index), skipWhitespaces, [])
        decreases |input| - index
      {
        var done, more;
        done, r, more := ArrayStep(ar);
        if done {
          return;
        }
        ar := more;
      }
    }

    /**
     * One turn of the loop of `parseArray`, with the elements `items` read
     * so far: it ends the array (`done`, with outcome `r`) or reads one more
     * element, giving `more`.
     */
    method ArrayStep(items: seq<Value>) returns (done: bool, r: Result<Value, ParseError>, more: seq<Value>)
      requires index <= |input|
      modifies this`index
      ensures index <= |input|
      ensures done ==> Agrees(r, index, D.ParseArray(input, old(index), skipWhitespaces, items))
      ensures !done ==> old(index) < index
      ensures !done ==> D.ParseArray(input, index, skipWhitespaces, more) == D.ParseArray(input, old(index), skipWhitespaces, items)
      decreases |input| - index, 1, 0
    {
      ghost var turnAt := index;
      var c, ok := Next();
      if !ok {
        return true, Err(Error(input, index, 0, Unmatched("!("))), items;
      }
      ghost var afterNext := index;
      if c == ')' {
        return true, Ok(Array(items)), items;
      }
      if 0 < |items| {
        if c != ',' {
          return true, Err(Error(input, index, -1, MissingComma)), items;
        }
      } else if c == ',' {
        return true, Err(Error(input, index, -1, ExtraComma)), items;
      } else {
        index := index - 1;
      }
      D.ArrayTurn(input, turnAt, skipWhitespaces, items, c, afterNext);
      var v := ReadValue();
      if v.Err? {
        return true, v, items;
      }
      return false, v, items + [v.value];
    }

    /** `parseObject`: the `key:value` pairs after `(` up to the matching `)`. */
    method ParseObject() returns (r: Result<Value, ParseError>)
      requires index <= |input|
      modifies this`index
      ensures index <= |input|
      ensures Agrees(r, index, D.ParseObject(input, old(index), skipWhitespaces, map[]))
      decreases |input| - index, 1, 2
    {
      var o: map<Key, Value> := map[];
      while true
        invariant index <= |input|
        invariant D.ParseObject(input, index, skipWhitespaces, o) ==
                  D.ParseObject(input, old(index), skipWhitespaces, map[])
        decreases |input| - index
      {
        var done, more;
        done, r, more := ObjectStep(o);
        if done {
          return;
        }
        o := more;
      }
    }

    /**
     * One turn of the loop of `parseObject`, with the members `fields` read
     * so far: it ends the object (`done`, with outcome `r`) or reads one
     * more member into `more`.
     */
    method ObjectStep(fields: map<Key, Value>) returns (done: bool, r: Result<Value, ParseError>, more: map<Key, Value>)
      requires index <= |input|
      modifies this`index
      ensures index <= |input|
      ensures done ==> Agrees(r, index, D.ParseObject(input, old(index), skipWhitespaces, fields))
      ensures !done ==> old(index) < index
      ensures !done ==> D.ParseObject(input, index, skipWhitespaces, more) == D.ParseObject(input, old(index), skipWhitespaces, fields)
      decreases |input| - index, 1, 1
    {
      ghost var turnAt := index;
      var c, ok := Next();
      if !ok {
        return true, Err(Error(input, index, 0, Unmatched("("))), fields;
      }
      ghost var afterNext := index;
      if c == ')' {
        return true, Ok(Object(fields)), fields;
      }
      if 0 < |fields| {
        if c != ',' {
          return true, Err(Error(input, index, -1, MissingComma)), fields;
        }
      } else if c == ',' {
        return true, Err(Error(input, index, -1, ExtraComma)), fields;
      } else {
        index := index - 1;
      }
      D.ObjectTurn(input, turnAt, skipWhitespaces, fields, c, afterNext);
      var m := ReadMember();
      if m.Err? {
        return true, Err(m.error), fields;
      }
      return false, Ok(Object(fields)), fields[StringKey(m.value.key) := m.value.value];
    }

    /**
     * The body of the loop of `parseObject` after the separator: a key that
     * must be a string, then `:`, then the member's value.
     */
    method ReadMember() returns (r: Result<D.Member, ParseError>)
      requires index <= |input|
      modifies this`index
      ensures index <= |input|
      ensures r == D.ObjectMember(input, old(index), skipWhitespaces)
      ensures r.Ok? ==> index == r.value.next
      decreases |input| - index, 1, 0
    {
      var k := ReadValue();
      if k.Err? {
        return Err(k.error);
      }
      if !k.value.String? {
        return Err(Error(input, index, -1, KeyNotString));
      }
      var colon, found := Next();
      if !(found && colon == ':') {
        return Err(Error(input, index, -1, MissingColon));
      }
      var v := ReadValue();
      if v.Err? {
        return Err(v.error);
      }
      return Ok(D.Member(k.value.s, v.value, index));
    }

    /**
     * `parseQuotedString`: the text after an opening `'`, unescaped. The
     * scan runs on local cursors; the parser's cursor moves only when the
     * closing quote is found. A `!` that ends the input is reported as a
     * missing character after the escape (see the findings module for the
     * read past the end that decoder.go performs instead).
     */
    method ParseQuotedString() returns (r: Result<Value, ParseError>)
      requires 1 <= index <= |input|
      modifies this`index
      ensures index <= |input|
      ensures Agrees(r, index, D.ParseQuotedString(input, old(index)))
    {
      var s := input;
      var i := index;
      var start := i;
      var result: bytes := [];
      while true
        invariant index == old(index) && index <= start <= i <= |s|
        invariant D.QuotedLoop(s, index, i, start, result) == D.QuotedLoop(s, index, index, index, [])
        decreases |s| - i
      {
        if |s| <= i {
          return Err(Error(s, index, 0, Unmatched("'")));
        }
        var c := s[i];
        i := i + 1;
        if c == '\'' {
          break;
        }
        if c == '!' {
          ghost var before := result;
          if start < i - 1 {
            result := result + s[start..i - 1];
          }
          assert result == before + s[start..i - 1];
          if |s| <= i {
            return Err(Error(s, index, -1, MissingCharacterAfterEscape));
          }
          c := s[i];
          i := i + 1;
          if c == '!' || c == '\'' {
            result := result + [c];
          } else {
            return Err(Error(s, index, -1, InvalidStringEscape(c)));
          }
          start := i;
        }
      }
      ghost var before := result;
      if start < i - 1 {
        result := result + s[start..i - 1];
      }
      assert result == before + s[start..i - 1];
      index := i;
      return Ok(String(result));
    }

    /**
     * `parseNumber`: the number scanner's state machine, then the check of
     * the consumed text against the JSON number grammar.
     */
    method ParseNumber() returns (r: Result<Value, ParseError>)
      requires 1 <= index <= |input|
      modifies this`index
      ensures index <= |input|
      ensures Agrees(r, index, D.ParseNumber(input, old(index)))
    {
      var s := input;
      var i := index;
      var start := i - 1;
      var state := D.IntState;
      var permittedSigns: bytes := "-";
      ghost var stop := D.ScanNumber(s, index, D.IntState, true);
      while state != D.EndState
        invariant index <= i <= |s| + 1
        invariant permittedSigns == "-" || permittedSigns == []
        invariant state != D.EndState ==>
          i <= |s| && D.ScanNumber(s, i, state, permittedSigns == "-") == stop
        invariant state == D.EndState ==> i - 1 == stop
        decreases |s| + 1 - i
      {
        if |s| <= i {
          i := i + 1;
          break;
        }
        var c := s[i];
        i := i + 1;
        if IsDigit(c) {
          continue;
        }
        if c in permittedSigns {
          permittedSigns := [];
          continue;
        }
        match state
        case IntState =>
          if c == '.' {
            state := D.FracState;
          } else if c == 'e' {
            state := D.ExpState;
            permittedSigns := "-";
          } else {
            state := D.EndState;
          }
        case FracState =>
          if c == 'e' {
            state := D.ExpState;
            permittedSigns := "-";
          } else {
            state := D.EndState;
          }
        case _ =>
          state := D.EndState;
      }
      i := i - 1;
      index := i;
      var t := s[start..i];
      if t == "-" {
        return Err(Error(s, index, -1, LoneMinus));
      }
      if !IsJsonNumber(t) {
        return Err(Error(s, index, -1, InvalidNumber(t)));
      }
      return Ok(Number(t));
    }

    /**
     * `parse`: one value that must use up the whole input. A successful
     * parse leaves the cursor at the end of the input.
     */
    method Parse(str: bytes) returns (r: Result<Value, ParseError>)
      modifies this`input, this`index
      ensures input == str
      ensures r == D.Parse(str, skipWhitespaces)
      ensures r.Ok? ==> index == |input|
    {
      input := str;
      index := 0;
      r := ReadValue();
      if r.Err? {
        return;
      }
      if index < |input| {
        r := Err(Error(input, index, 0, ExtraCharacterAfterValue(input[index])));
      }
    }
  }

  /** `Decode`: the value a whole Rison text stands for. */
  method Decode(r: bytes) returns (res: Result<Value, ParseError>)
    ensures res == D.Decode(r)
  {
    var p := new Parser();
    res := p.Parse(r);
  }

  /** `DecodeObject`: O-Rison, the fields of an object without its parentheses. */
  method DecodeObject(r: bytes) returns (res: Result<Value, ParseError>)
    ensures res == D.Decode("(" + r + ")")
  {
    var wrapped := ['('] + r;
    wrapped := wrapped + [')'];
    var p := new Parser();
    res := p.Parse(wrapped);
  }

  /** `DecodeArray`: A-Rison, the elements of an array without `!(` and `)`. */
  method DecodeArray(r: bytes) returns (res: Result<Value, ParseError>)
    ensures res == D.Decode("!(" + r + ")")
  {
    var wrapped := ['!', '('] + r;
    wrapped := wrapped + [')'];
    var p := new Parser();
    res := p.Parse(wrapped);
  }
}
