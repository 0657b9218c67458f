/**
 * Concrete inputs from the tables of cases of the decoder and the
 * encoder: what they encode or decode to, and which of them are rejected
 * and with what error.
 */
module Cases {
  import opened Lexical
  import opened Results
  import opened Values
  import opened Diagnostics
  import opened DecoderSpec
  import opened KeyOrder
  import opened RoundTrip
  import Numbers
  import E = EncoderSpec

  lemma EscapeQuote()
    ensures E.Escape("can't") == "can!'t"
  {
    var x: bytes := "can't";
    assert x[1..] == "an't" && x[2..] == "n't" && x[3..] == "'t" && x[4..] == "t" && x[5..] == [];
    assert E.Escape(x[4..]) == "t";
    assert E.Escape(x[3..]) == "!'t";
    assert E.Escape(x[2..]) == "n!'t";
    assert E.Escape(x[1..]) == "an!'t";
  }

  lemma QuoteIsQuoted()
    ensures E.StringText("can't") == "'can!'t'"
  {
    var x: bytes := "can't";
    assert !E.IsIdentifier(x) by { assert 1 <= 3 < |x| && IsNotIdChar(x[3]); }
    EscapeQuote();
    assert E.StringText(x) == ['\''] + E.Escape(x) + ['\''];
  }

  /** A string with a `'` is quoted, with the `'` escaped. */
  lemma QuotedEscape()
    ensures E.Encode(String("can't"), Rison) == Ok("'can!'t'")
  {
    QuoteIsQuoted();
    assert E.EncodeValue([], String("can't")) == E.Output("'can!'t'", None);
  }

  /** ... and the quoted text reads back as the string. */
  lemma QuotedDecodes()
    ensures Decode("'can!'t'") == Ok(String("can't"))
  {
    QuotedEscape();
    RisonRoundTrip(String("can't"));
  }

  /** A string that starts with `-` cannot be bare: `-` starts a number. */
  lemma LeadingMinus()
    ensures E.Encode(String("-ing"), Rison) == Ok("'-ing'")
  {
    var x: bytes := "-ing";
    assert IsNotIdStart(x[0]);
    assert x[1..] == "ing" && x[2..] == "ng" && x[3..] == "g" && x[4..] == [];
    assert E.Escape(x[3..]) == "g";
    assert E.Escape(x[2..]) == "ng";
    assert E.Escape(x[1..]) == "ing";
    assert E.Escape(x) == "-ing";
    assert E.StringText(x) == "'-ing'";
    assert E.EncodeValue([], String(x)) == E.Output("'-ing'", None);
  }

  lemma SortedSingle(a: Key)
    ensures Sorted({a}) == [a]
  {
    assert IsLeast(a, {a});
    assert Least({a}) == a;
    assert {a} - {a} == {};
  }

  /** O-Rison drops the parentheses of a one-member map. */
  lemma OneMember()
    ensures E.Encode(Object(map[StringKey("a") := String("b")]), ORison) == Ok("a:b")
  {
    var a := StringKey("a");
    var fields := map[a := String("b")];
    assert fields.Keys == {a};
    SortedSingle(a);
    assert E.IsIdentifier("a") && E.IsIdentifier("b");
    assert E.EncodeValue(E.MemberPath([], "a"), String("b")) == E.Output("b", None);
    assert E.EncodePairs([], fields, [a], 1) == E.Output([], None);
    assert E.EncodePairs([], fields, [a], 0) == E.Output("a:b", None);
    assert E.EncodeMap([], fields) == E.Output("(a:b)", None);
    assert E.EncodeValue([], Object(fields)) == E.Output("(a:b)", None);
  }

  /** A number may not run into a bare word. */
  lemma NumberThenWord()
    ensures Decode("4abc") == Err(ParseError(ExtraCharacterAfterValue('a'), 0))
  {
  }

  /** `+` is not part of Rison's number syntax. */
  lemma PlusInExponent()
    ensures Decode("1.5e+2").Err?
  {
  }

  lemma DoubleMinus()
    ensures Decode("--1").Err?
  {
  }

  /** A value followed by more text is rejected; the offset reported is 0. */
  lemma ExtraParenthesis()
    ensures Decode("())") == Err(ParseError(ExtraCharacterAfterValue(')'), 0))
  {
  }

  lemma LeadingComma()
    ensures Decode("(,)") == Err(ParseError(ExtraComma, 1))
  {
  }

  lemma UnterminatedQuote()
    ensures Decode("'abc") == Err(ParseError(Unmatched("'"), 0))
  {
  }

  /** `!` must be followed by a literal or an array. */
  lemma BangAlone()
    ensures Decode("!") == Err(ParseError(BangAtEnd, 0))
  {
  }

  lemma BangUnknown()
    ensures Decode("!z") == Err(ParseError(UnknownLiteral('z'), 1))
  {
  }

  lemma EmptyInput()
    ensures Decode("") == Err(ParseError(EmptyExpression, 0))
  {
  }

  /** Digits and `-` may appear inside an identifier but may not begin one. */
  lemma IdentifierClasses()
    ensures E.IsIdentifier("a-z")
    ensures !E.IsIdentifier("0a") && !E.IsIdentifier("-h") && !E.IsIdentifier("")
  {
    var a: bytes := "a-z";
    assert !IsNotIdChar(a[1]) && !IsNotIdChar(a[2]);
  }

  /** The literals after `!`. */
  lemma Literals()
    ensures Decode("!t") == Ok(Bool(true))
    ensures Decode("!f") == Ok(Bool(false))
    ensures Decode("!n") == Ok(Null)
    ensures Decode("!()") == Ok(Array([]))
  {
  }

  /** Inside quotes only `!!` and `!'` are escapes; the error names the opening quote. */
  lemma BadEscape()
    ensures Decode("'a!b'") == Err(ParseError(InvalidStringEscape('b'), 0))
  {
    var s: bytes := "'a!b'";
    assert QuotedLoop(s, 1, 2, 1, []) == Err(ParseError(InvalidStringEscape('b'), 0));
  }

  lemma TrailingComma()
    ensures Decode("!(1,)").Err?
  {
  }

  lemma MissingCommaInArray()
    ensures Decode("!(a b)") == Err(ParseError(MissingComma, 3))
  {
  }

  lemma KeyMustBeString()
    ensures Decode("(1:2)") == Err(ParseError(KeyNotString, 1))
  {
    var s: bytes := "(1:2)";
    var one: bytes := "1";
    assert ScanNumber(s, 2, IntState, true) == 2;
    assert s[1..2] == one;
    assert Numbers.IsJsonNumber(one);
    assert ReadValue(s, 1, false) == Ok(Parsed(Number(one), 2));
  }

  lemma ColonAfterKey()
    ensures Decode("(a,b)") == Err(ParseError(MissingColon, 2))
  {
  }

  lemma UnmatchedArray()
    ensures Decode("!(a") == Err(ParseError(Unmatched("!("), 0))
  {
  }
}
