/**
 * What the encoder writes, the decoder reads back: the value tree comes
 * back unchanged, and the O-Rison and A-Rison forms come back through
 * `DecodeObject` and `DecodeArray`.
 */
module RoundTrip {
  import opened Lexical
  import opened Results
  import opened Values
  import opened Numbers
  import opened KeyOrder
  import opened DecoderSpec
  import E = EncoderSpec

  /** The encoder can write `v`: no kind without a Rison form, no map key that is not a string. */
  predicate Encodable(v: Value)
    decreases v, 0
  {
    match v
    case Unsupported(_) => false
    case Array(items) => forall k :: 0 <= k < |items| ==> Encodable(items[k])
    case Object(fields) => forall key :: key in fields ==> key.StringKey? && Encodable(fields[key])
    case _ => true
  }

  /**
   * `v` is encodable and every number in it is written the way the
   * encoder writes numbers (what `json.Marshal` gives for a float64 has
   * no `+` and no `E`).
   */
  predicate Supported(v: Value)
    decreases v, 0
  {
    match v
    case Unsupported(_) => false
    case Number(t) => IsRisonNumber(t)
    case Array(items) => forall k :: 0 <= k < |items| ==> Supported(items[k])
    case Object(fields) => forall key :: key in fields ==> key.StringKey? && Supported(fields[key])
    case _ => true
  }

  lemma {:induction false} SupportedIsEncodable(v: Value)
    requires Supported(v)
    ensures Encodable(v)
    decreases v
  {
    match v
    case Array(items) =>
      forall k | 0 <= k < |items| ensures Encodable(items[k]) {
        SupportedIsEncodable(items[k]);
      }
    case Object(fields) =>
      forall key | key in fields ensures Encodable(fields[key]) {
        SupportedIsEncodable(fields[key]);
      }
    case _ =>
  }

  /** The keys `keys[k..]` are strings whose values are encodable. */
  predicate PairsEncodable(fields: map<Key, Value>, keys: seq<Key>, k: nat)
    requires k <= |keys| && forall key :: key in keys ==> key in fields
  {
    forall j :: k <= j < |keys| ==> keys[j].StringKey? && Encodable(fields[keys[j]])
  }

  /** Encoding fails exactly when the value holds a kind without a Rison form or a non-string map key. */
  lemma {:induction false} EncodableIff(path: bytes, v: Value)
    ensures E.EncodeValue(path, v).failure.None? <==> Encodable(v)
    decreases v, 2, 0
  {
    match v
    case Object(fields) =>
      var keys := Sorted(fields.Keys);
      SortedIsAscendingPermutation(fields.Keys);
      PairsEncodableIff(path, fields, keys, 0);
    case Array(items) =>
      ElementsEncodableIff(path, items, 0);
    case _ =>
  }

  lemma {:induction false} PairsEncodableIff(path: bytes, fields: map<Key, Value>, keys: seq<Key>, k: nat)
    requires k <= |keys| && forall key :: key in keys ==> key in fields
    ensures E.EncodePairs(path, fields, keys, k).failure.None? <==> PairsEncodable(fields, keys, k)
    decreases Object(fields), 1, |keys| - k
  {
    if k < |keys| {
      var key := keys[k];
      if key.StringKey? {
        EncodableIff(E.MemberPath(path, key.name), fields[key]);
        PairsEncodableIff(path, fields, keys, k + 1);
      }
    }
  }

  lemma {:induction false} ElementsEncodableIff(path: bytes, items: seq<Value>, k: nat)
    requires k <= |items|
    ensures E.EncodeElements(path, items, k).failure.None? <==>
      forall j :: k <= j < |items| ==> Encodable(items[j])
    decreases Array(items), 1, |items| - k
  {
    if k < |items| {
      EncodableIff(E.ElementPath(path, k), items[k]);
      ElementsEncodableIff(path, items, k + 1);
    }
  }

  // Reading an encoded text back. The text `t` sits in the input `s` at
  // position `i`; what follows it must end an identifier or a number.

  /** `s` holds `t` at position `i`. */
  predicate Holds(s: bytes, i: nat, t: bytes)
    decreases |t|
  {
    if |t| == 0 then i <= |s| else i < |s| && s[i] == t[0] && Holds(s, i + 1, t[1..])
  }

  /** At `e` the input ends or a reserved byte stops a bare word. */
  predicate Delimited(s: bytes, e: nat) {
    e <= |s| && (e == |s| || IsNotIdChar(s[e]))
  }

  lemma {:induction false} HoldsSplit(s: bytes, i: nat, a: bytes, b: bytes)
    requires Holds(s, i, a + b)
    ensures Holds(s, i, a) && Holds(s, i + |a|, b)
    decreases |a|
  {
    if |a| == 0 {
      assert a + b == b;
    } else {
      assert (a + b)[1..] == a[1..] + b;
      HoldsSplit(s, i + 1, a[1..], b);
    }
  }

  lemma {:induction false} HoldsAt(s: bytes, i: nat, t: bytes, k: nat)
    requires Holds(s, i, t) && k < |t|
    ensures i + k < |s| && s[i + k] == t[k]
    decreases k
  {
    if k > 0 {
      HoldsAt(s, i + 1, t[1..], k - 1);
    }
  }

  lemma {:induction false} HoldsEnd(s: bytes, i: nat, t: bytes)
    requires Holds(s, i, t)
    ensures i + |t| <= |s|
    decreases |t|
  {
    if |t| != 0 {
      HoldsEnd(s, i + 1, t[1..]);
    }
  }

  lemma {:induction false} HoldsSlice(s: bytes, i: nat, t: bytes)
    requires Holds(s, i, t)
    ensures i + |t| <= |s| && s[i..i + |t|] == t
  {
    HoldsEnd(s, i, t);
    forall k | 0 <= k < |t| ensures s[i..i + |t|][k] == t[k] {
      HoldsAt(s, i, t, k);
    }
  }

  lemma SliceSnoc(s: bytes, a: nat, b: nat)
    requires a <= b < |s|
    ensures s[a..b + 1] == s[a..b] + [s[b]]
  {
  }

  /** The reserved bytes of an identifier run end it where `t` ends. */
  lemma {:induction false} IdentifierEndAt(s: bytes, j: nat, e: nat)
    requires j <= e && Delimited(s, e)
    requires forall k :: j <= k < e ==> !IsNotIdChar(s[k])
    ensures IdentifierEnd(s, j) == e
    decreases e - j
  {
    if j < e {
      IdentifierEndAt(s, j + 1, e);
    }
  }

  /** A string written bare reads back as the same string. */
  lemma IdentifierReadsBack(s: bytes, i: nat, t: bytes, skip: bool)
    requires E.IsIdentifier(t) && Holds(s, i, t) && Delimited(s, i + |t|)
    ensures ValueAt(s, t[0], i + 1, skip) == Ok(Parsed(String(t), i + |t|))
  {
    HoldsSlice(s, i, t);
    HoldsAt(s, i, t, 0);
    forall k | i + 1 <= k < i + |t| ensures !IsNotIdChar(s[k]) {
      HoldsAt(s, i, t, k - i);
    }
    IdentifierEndAt(s, i + 1, i + |t|);
  }

  /** One turn of the loop of `parseQuotedString` on an escaped `'` or `!`. */
  lemma QuotedEscapeTurn(s: bytes, open: nat, i: nat, start: nat, acc: bytes)
    requires 1 <= open <= start <= i && i + 1 < |s| && s[i] == '!' && (s[i + 1] == '\'' || s[i + 1] == '!')
    ensures QuotedLoop(s, open, i, start, acc) == QuotedLoop(s, open, i + 2, i + 2, acc + s[start..i] + [s[i + 1]])
  {
  }

  /** One turn of the loop of `parseQuotedString` on a plain byte. */
  lemma QuotedPlainTurn(s: bytes, open: nat, i: nat, start: nat, acc: bytes)
    requires 1 <= open <= start <= i < |s| && s[i] != '!' && s[i] != '\''
    ensures QuotedLoop(s, open, i, start, acc) == QuotedLoop(s, open, i + 1, start, acc)
  {
  }

  /**
   * The loop of `parseQuotedString` over the escape of `y` and the closing
   * quote adds `y` to what it has collected, and stops after the quote.
   */
  lemma {:induction false} QuotedReadsBack(s: bytes, open: nat, i: nat, start: nat, acc: bytes, y: bytes)
    requires 1 <= open <= start <= i
    requires Holds(s, i, E.Escape(y) + ['\''])
    ensures QuotedLoop(s, open, i, start, acc) == Ok(Parsed(String(acc + s[start..i] + y), i + |E.Escape(y)| + 1))
    decreases |y|, 1
  {
    if |y| == 0 {
      HoldsAt(s, i, E.Escape(y) + ['\''], 0);
      assert acc + s[start..i] + y == acc + s[start..i];
    } else if y[0] == '\'' || y[0] == '!' {
      EscapedReadsBack(s, open, i, start, acc, y);
    } else {
      PlainReadsBack(s, open, i, start, acc, y);
    }
  }

  /** `QuotedReadsBack` when `y` begins with a byte written after `!`. */
  lemma {:induction false} EscapedReadsBack(s: bytes, open: nat, i: nat, start: nat, acc: bytes, y: bytes)
    requires 1 <= open <= start <= i && |y| != 0 && (y[0] == '\'' || y[0] == '!')
    requires Holds(s, i, E.Escape(y) + ['\''])
    ensures QuotedLoop(s, open, i, start, acc) == Ok(Parsed(String(acc + s[start..i] + y), i + |E.Escape(y)| + 1))
    decreases |y|, 0
  {
    var c := y[0];
    var head := E.EscapeByte(c);
    var tail := E.Escape(y[1..]) + ['\''];
    assert E.Escape(y) == head + E.Escape(y[1..]);
    AppendAssoc(head, E.Escape(y[1..]), ['\'']);
    assert |head| == 2 && head[0] == '!' && head[1] == c;
    HoldsSplit(s, i, head, tail);
    HoldsAt(s, i, head, 0);
    HoldsAt(s, i, head, 1);
    QuotedEscapeTurn(s, open, i, start, acc);
    assert Holds(s, i + 2, tail);
    var acc' := acc + s[start..i] + [c];
    QuotedReadsBack(s, open, i + 2, i + 2, acc', y[1..]);
    assert acc' + s[i + 2..i + 2] == acc';
    assert y == [c] + y[1..];
    AppendAssoc(acc + s[start..i], [c], y[1..]);
  }

  /** `QuotedReadsBack` when `y` begins with a byte written as it is. */
  lemma {:induction false} PlainReadsBack(s: bytes, open: nat, i: nat, start: nat, acc: bytes, y: bytes)
    requires 1 <= open <= start <= i && |y| != 0 && y[0] != '\'' && y[0] != '!'
    requires Holds(s, i, E.Escape(y) + ['\''])
    ensures QuotedLoop(s, open, i, start, acc) == Ok(Parsed(String(acc + s[start..i] + y), i + |E.Escape(y)| + 1))
    decreases |y|, 0
  {
    var c := y[0];
    var rest := E.Escape(y[1..]);
    assert E.Escape(y) + ['\''] == [c] + (rest + ['\'']);
    HoldsSplit(s, i, [c], rest + ['\'']);
    HoldsAt(s, i, [c], 0);
    QuotedPlainTurn(s, open, i, start, acc);
    QuotedReadsBack(s, open, i + 1, start, acc, y[1..]);
    SliceSnoc(s, start, i);
    assert y == [c] + y[1..];
    AppendAssoc(acc, s[start..i], [c]);
    AppendAssoc(acc + s[start..i], [c], y[1..]);
  }

  lemma ParseQuotedStringIsLoop(s: bytes, j: nat)
    requires 1 <= j <= |s|
    ensures ParseQuotedString(s, j) == QuotedLoop(s, j, j, j, [])
  {
  }

  /**
   * The loop of `parseQuotedString` accepts only escaped text: if the
   * bytes read so far are the escape of what was collected plus the plain
   * bytes pending, then a string the loop returns is the unescaping of the
   * bytes up to a closing `'`. So `!` followed by anything but `!` or `'`
   * is never part of an accepted string.
   */
  lemma {:induction false} QuotedLoopIsEscaped(s: bytes, open: nat, i: nat, start: nat, acc: bytes)
    requires 1 <= open <= start <= i <= |s|
    requires s[open..i] == E.Escape(acc + s[start..i])
    ensures ReturnsEscaped(s, open, QuotedLoop(s, open, i, start, acc))
    decreases |s| - i, 1
  {
    if i + 1 < |s| && s[i] == '!' && (s[i + 1] == '!' || s[i + 1] == '\'') {
      EscapedIsEscaped(s, open, i, start, acc);
    } else if i < |s| && s[i] != '!' && s[i] != '\'' {
      PlainIsEscaped(s, open, i, start, acc);
    } else {
      StopIsEscaped(s, open, i, start, acc);
    }
  }

  /** The escape-pair turn of `QuotedLoopIsEscaped`. */
  lemma {:induction false} EscapedIsEscaped(s: bytes, open: nat, i: nat, start: nat, acc: bytes)
    requires 1 <= open <= start <= i && i + 1 < |s| && s[i] == '!' && (s[i + 1] == '!' || s[i + 1] == '\'')
    requires s[open..i] == E.Escape(acc + s[start..i])
    ensures ReturnsEscaped(s, open, QuotedLoop(s, open, i, start, acc))
    decreases |s| - i, 0
  {
    var acc' := EscapedStep(s, open, i, start, acc);
    QuotedEscapeTurn(s, open, i, start, acc);
    assert QuotedLoop(s, open, i, start, acc) == QuotedLoop(s, open, i + 2, i + 2, acc');
    QuotedLoopIsEscaped(s, open, i + 2, i + 2, acc');
  }

  /** The plain-byte turn of `QuotedLoopIsEscaped`. */
  lemma {:induction false} PlainIsEscaped(s: bytes, open: nat, i: nat, start: nat, acc: bytes)
    requires 1 <= open <= start <= i < |s| && s[i] != '!' && s[i] != '\''
    requires s[open..i] == E.Escape(acc + s[start..i])
    ensures ReturnsEscaped(s, open, QuotedLoop(s, open, i, start, acc))
    decreases |s| - i, 0
  {
    PlainStep(s, open, i, start, acc);
    QuotedPlainTurn(s, open, i, start, acc);
    QuotedLoopIsEscaped(s, open, i + 1, start, acc);
  }

  /** Where the loop stops: at the closing quote it returns what it collected, otherwise an error. */
  lemma StopIsEscaped(s: bytes, open: nat, i: nat, start: nat, acc: bytes)
    requires 1 <= open <= start <= i <= |s|
    requires !(i + 1 < |s| && s[i] == '!' && (s[i + 1] == '!' || s[i + 1] == '\''))
    requires !(i < |s| && s[i] != '!' && s[i] != '\'')
    requires s[open..i] == E.Escape(acc + s[start..i])
    ensures ReturnsEscaped(s, open, QuotedLoop(s, open, i, start, acc))
  {
    if i < |s| && s[i] == '\'' {
      assert QuotedLoop(s, open, i, start, acc) == Ok(Parsed(String(acc + s[start..i]), i + 1));
    }
  }

  /** `s[open..e]` is the escape of `x` followed by a closing `'`. */
  ghost predicate EscapedUpTo(s: bytes, open: nat, x: bytes, e: nat) {
    open < e <= |s| && s[open..e - 1] == E.Escape(x) && s[e - 1] == '\''
  }

  /** A string result `r` of the loop is the escape of its value followed by a closing `'`. */
  ghost predicate ReturnsEscaped(s: bytes, open: nat, r: ParseResult) {
    r.Ok? && r.value.value.String? ==> EscapedUpTo(s, open, r.value.value.s, r.value.next)
  }

  /** After an escape pair, the bytes read are still the escape of what was collected. */
  lemma EscapedStep(s: bytes, open: nat, i: nat, start: nat, acc: bytes) returns (acc': bytes)
    requires 1 <= open <= start <= i && i + 1 < |s| && s[i] == '!' && (s[i + 1] == '!' || s[i + 1] == '\'')
    requires s[open..i] == E.Escape(acc + s[start..i])
    ensures acc' == acc + s[start..i] + [s[i + 1]]
    ensures s[open..i + 2] == E.Escape(acc' + s[i + 2..i + 2])
  {
    acc' := acc + s[start..i] + [s[i + 1]];
    E.EscapeSnoc(acc + s[start..i], s[i + 1]);
    assert s[open..i + 2] == s[open..i] + ['!', s[i + 1]];
    assert acc' + s[i + 2..i + 2] == acc';
  }

  /** After a plain byte, the bytes read are still the escape of what was collected and pending. */
  lemma PlainStep(s: bytes, open: nat, i: nat, start: nat, acc: bytes)
    requires 1 <= open <= start <= i < |s| && s[i] != '!' && s[i] != '\''
    requires s[open..i] == E.Escape(acc + s[start..i])
    ensures s[open..i + 1] == E.Escape(acc + s[start..i + 1])
  {
    var pending := acc + s[start..i];
    E.EscapeSnoc(pending, s[i]);
    assert E.EscapeByte(s[i]) == [s[i]];
    SliceSnoc(s, start, i);
    assert acc + s[start..i + 1] == pending + [s[i]];
    SliceSnoc(s, open, i);
  }

  /**
   * Every string `parseQuotedString` accepts is the unescaping of the
   * bytes between its quotes: those bytes are exactly the escape of the
   * value, and the last byte read is the closing `'`.
   */
  lemma QuotedStringIsEscaped(s: bytes, i: nat, x: bytes, e: nat)
    requires 1 <= i <= |s|
    ensures ParseQuotedString(s, i) == Ok(Parsed(String(x), e)) ==>
      i < e && s[i..e - 1] == E.Escape(x) && s[e - 1] == '\''
  {
    var empty: bytes := [];
    assert empty + s[i..i] == [];
    QuotedLoopIsEscaped(s, i, i, i, empty);
    ParseQuotedStringIsLoop(s, i);
  }

  /** A quoted string reads back as the string whose escape it holds. */
  lemma QuotedStringReadsBack(s: bytes, i: nat, x: bytes, e: nat)
    requires e == i + |E.Escape(x)| + 2 && Holds(s, i + 1, E.Escape(x) + ['\''])
    ensures ParseQuotedString(s, i + 1) == Ok(Parsed(String(x), e))
  {
    var empty: bytes := [];
    QuotedReadsBack(s, i + 1, i + 1, i + 1, empty, x);
    ParseQuotedStringIsLoop(s, i + 1);
    assert empty + s[i + 1..i + 1] + x == x;
  }

  /** Every string the encoder writes reads back as the same string, bare or quoted. */
  lemma StringReadsBack(s: bytes, i: nat, x: bytes, e: nat)
    requires e == i + |E.StringText(x)| && Holds(s, i, E.StringText(x)) && Delimited(s, e)
    ensures ReadValue(s, i, false) == Ok(Parsed(String(x), e))
  {
    if E.IsIdentifier(x) {
      HoldsAt(s, i, x, 0);
      ReadValueAt(s, i);
      IdentifierReadsBack(s, i, x, false);
    } else {
      QuotedTextReadsBack(s, i, x, e);
    }
  }

  /** A string written between quotes reads back as the same string. */
  lemma QuotedTextReadsBack(s: bytes, i: nat, x: bytes, e: nat)
    requires !E.IsIdentifier(x) && e == i + |E.StringText(x)| && Holds(s, i, E.StringText(x))
    ensures ReadValue(s, i, false) == Ok(Parsed(String(x), e))
  {
    assert E.StringText(x) == ['\''] + E.Escape(x) + ['\''];
    AppendAssoc(['\''], E.Escape(x), ['\'']);
    HoldsSplit(s, i, ['\''], E.Escape(x) + ['\'']);
    HoldsAt(s, i, ['\''], 0);
    ReadValueAt(s, i);
    assert ValueAt(s, '\'', i + 1, false) == ParseQuotedString(s, i + 1);
    QuotedStringReadsBack(s, i, x, e);
  }

  /** The scanner state of `parseNumber` that goes with a state of the JSON number syntax. */
  predicate ScanAgrees(st: NumberScan, state: NumberState, signOk: bool) {
    match st
    case Minus => state == IntState
    case Zero => state == IntState
    case IntDigits => state == IntState
    case Dot => state == FracState
    case FracDigits => state == FracState
    case Exp => state == ExpState && signOk
    case ExpSign => state == ExpState
    case ExpDigits => state == ExpState
    case Begin => false
  }

  /**
   * On the rest of a Rison number followed by a reserved byte or the end,
   * the number scanner of `parseNumber` stops exactly at the number's end.
   */
  lemma {:induction false} ScanStopsAtEnd(s: bytes, i: nat, t: bytes, k: nat, st: NumberScan, state: NumberState, signOk: bool)
    requires IsRisonNumber(t) && Holds(s, i, t) && Delimited(s, i + |t|)
    requires 1 <= k <= |t| && Accepts(t, k, st) && ScanAgrees(st, state, signOk)
    ensures i + k <= |s| && ScanNumber(s, i + k, state, signOk) == i + |t|
    decreases |t| - k
  {
    HoldsEnd(s, i, t);
    if k < |t| {
      var next, state', signOk' := ScanTurn(s, i, t, k, st, state, signOk);
      ScanStopsAtEnd(s, i, t, k + 1, next, state', signOk');
    }
  }

  /** One byte of a Rison number: the scanner takes it and stays in step with the number syntax. */
  lemma ScanTurn(s: bytes, i: nat, t: bytes, k: nat, st: NumberScan, state: NumberState, signOk: bool)
    returns (next: NumberScan, state': NumberState, signOk': bool)
    requires IsRisonNumber(t) && Holds(s, i, t)
    requires 1 <= k < |t| && Accepts(t, k, st) && ScanAgrees(st, state, signOk)
    ensures Accepts(t, k + 1, next) && ScanAgrees(next, state', signOk') && state' != EndState
    ensures i + k < |s| && ScanNumber(s, i + k, state, signOk) == ScanNumber(s, i + k + 1, state', signOk')
  {
    var c := t[k];
    HoldsAt(s, i, t, k);
    assert c != '+' && c != 'E';
    next := Step(st, c).value;
    if IsDigit(c) {
      state', signOk' := state, signOk;
    } else if c == '-' {
      state', signOk' := state, false;
    } else if c == '.' {
      state', signOk' := FracState, signOk;
    } else {
      state', signOk' := ExpState, true;
    }
  }

  /** `parseNumber` reads a Rison number back as the same text. */
  lemma NumberParses(s: bytes, i: nat, t: bytes)
    requires IsRisonNumber(t) && Holds(s, i, t) && Delimited(s, i + |t|)
    ensures ParseNumber(s, i + 1) == Ok(Parsed(Number(t), i + |t|))
  {
    JsonNumberStart(t);
    HoldsSlice(s, i, t);
    var first := Step(Begin, t[0]).value;
    ScanStopsAtEnd(s, i, t, 1, first, IntState, true);
    assert t != "-";
  }

  // The dispatch of `readValue` on the first byte, without whitespace skipping.

  lemma ReadValueAt(s: bytes, i: nat)
    requires i < |s|
    ensures ReadValue(s, i, false) == ValueAt(s, s[i], i + 1, false)
  {
  }

  lemma ValueAtBang(s: bytes, j: nat)
    requires 1 <= j <= |s| && s[j - 1] == '!'
    ensures ValueAt(s, '!', j, false) == ParseSpecial(s, j, false)
  {
  }

  lemma ValueAtParen(s: bytes, j: nat)
    requires 1 <= j <= |s| && s[j - 1] == '('
    ensures ValueAt(s, '(', j, false) == ParseObject(s, j, false, map[])
  {
  }

  lemma ValueAtNumber(s: bytes, j: nat)
    requires 1 <= j <= |s| && (s[j - 1] == '-' || IsDigit(s[j - 1]))
    ensures ValueAt(s, s[j - 1], j, false) == ParseNumber(s, j)
  {
  }

  /** `!t`, `!f` and `!n` read back as `true`, `false` and `null`. */
  lemma LiteralReadsBack(s: bytes, i: nat, c: byte)
    requires Holds(s, i, ['!', c]) && (c == 't' || c == 'f' || c == 'n')
    ensures ReadValue(s, i, false) ==
      Ok(Parsed(if c == 't' then Bool(true) else if c == 'f' then Bool(false) else Null, i + 2))
  {
    HoldsAt(s, i, ['!', c], 0);
    HoldsAt(s, i, ['!', c], 1);
    ReadValueAt(s, i);
    ValueAtBang(s, i + 1);
  }

  /** The text of a supported value is not empty and does not begin with `,` or `)`. */
  lemma TextStart(path: bytes, v: Value)
    requires Supported(v)
    ensures var t := E.EncodeValue(path, v).text;
      |t| != 0 && t[0] != ',' && t[0] != ')'
  {
    match v
    case Number(t) =>
      JsonNumberStart(t);
      E.RemovePlusSpec(t);
    case String(x) =>
    case Object(fields) =>
      var keys := Sorted(fields.Keys);
      SortedIsAscendingPermutation(fields.Keys);
      var o := E.EncodePairs(path, fields, keys, 0);
      assert E.EncodeMap(path, fields).text[0] == '(';
    case Array(items) =>
      var o := E.EncodeElements(path, items, 0);
      assert E.EncodeArray(path, items).text[0] == '!';
    case _ =>
  }

  // The value tree read back, by induction on the value.

  /** The members of `fields` whose keys are among the first `k` of `keys`. */
  ghost function Built(fields: map<Key, Value>, keys: seq<Key>, k: nat): map<Key, Value>
    requires k <= |keys|
  {
    if k == 0 then map[]
    else if keys[k - 1] in fields then Built(fields, keys, k - 1)[keys[k - 1] := fields[keys[k - 1]]]
    else Built(fields, keys, k - 1)
  }

  /** `Built(fields, keys, k)` holds the members of `fields` whose keys are among `keys[..k]`. */
  lemma {:induction false} BuiltHolds(fields: map<Key, Value>, keys: seq<Key>, k: nat)
    requires k <= |keys|
    ensures forall key :: key in Built(fields, keys, k) <==> key in fields && key in keys[..k]
    ensures forall key :: key in Built(fields, keys, k) ==> Built(fields, keys, k)[key] == fields[key]
  {
    if 0 < k {
      BuiltHolds(fields, keys, k - 1);
      assert keys[..k] == keys[..k - 1] + [keys[k - 1]];
    }
  }

  lemma BuiltStep(fields: map<Key, Value>, keys: seq<Key>, k: nat)
    requires k < |keys| && forall key :: key in keys ==> key in fields
    ensures Built(fields, keys, k)[keys[k] := fields[keys[k]]] == Built(fields, keys, k + 1)
    ensures 0 < k ==> |Built(fields, keys, k)| != 0
  {
    if 0 < k {
      assert keys[k - 1] in Built(fields, keys, k);
    }
  }

  lemma BuiltEnds(fields: map<Key, Value>, keys: seq<Key>)
    requires forall key :: key in keys <==> key in fields
    ensures Built(fields, keys, 0) == map[]
    ensures Built(fields, keys, |keys|) == fields
  {
    BuiltHolds(fields, keys, |keys|);
    assert keys[..|keys|] == keys;
  }

  /** Splits a text that `s` holds, followed by `)`, into three consecutive pieces. */
  lemma HoldsThree(s: bytes, j: nat, a: bytes, b: bytes, c: bytes)
    requires Holds(s, j, a + b + c + [')'])
    ensures Holds(s, j, a) && Holds(s, j + |a|, b) && Holds(s, j + |a| + |b|, c + [')'])
    ensures j + |a| + |b| < |s| && s[j + |a| + |b|] == (c + [')'])[0]
  {
    assert a + b + c + [')'] == a + (b + (c + [')']));
    HoldsSplit(s, j, a, b + (c + [')']));
    HoldsSplit(s, j + |a|, b, c + [')']);
    HoldsAt(s, j + |a| + |b|, c + [')'], 0);
  }

  /** `)` ends the loops of `parseArray` and `parseObject` with what they have read. */
  lemma ArrayClose(s: bytes, j: nat, items: seq<Value>)
    requires j < |s| && s[j] == ')'
    ensures ParseArray(s, j, false, items) == Ok(Parsed(Array(items), j + 1))
  {
  }

  lemma ObjectClose(s: bytes, j: nat, fields: map<Key, Value>)
    requires j < |s| && s[j] == ')'
    ensures ParseObject(s, j, false, fields) == Ok(Parsed(Object(fields), j + 1))
  {
  }

  /** The text `encodeValue` writes for an encodable array. */
  lemma ArrayText(path: bytes, items: seq<Value>)
    requires Encodable(Array(items))
    ensures E.EncodeValue(path, Array(items)).text == ['!', '('] + E.EncodeElements(path, items, 0).text + [')']
  {
    ElementsEncodableIff(path, items, 0);
  }

  /** The text of the elements from `k` on: a separator, element `k`, the rest. */
  lemma ElementsText(path: bytes, items: seq<Value>, k: nat)
    requires k < |items| && Encodable(items[k])
    ensures E.EncodeElements(path, items, k).text ==
      (if 0 < k then [','] else []) + E.EncodeValue(E.ElementPath(path, k), items[k]).text + E.EncodeElements(path, items, k + 1).text
    ensures E.EncodeElements(path, items, k + 1).text == [] || E.EncodeElements(path, items, k + 1).text[0] == ','
  {
    EncodableIff(E.ElementPath(path, k), items[k]);
  }

  /** The text `encodeValue` writes for an encodable map; `keys` are its keys in ascending order. */
  lemma ObjectText(path: bytes, fields: map<Key, Value>, keys: seq<Key>)
    requires Encodable(Object(fields)) && keys == Sorted(fields.Keys)
    requires forall key :: key in keys <==> key in fields
    ensures E.EncodeValue(path, Object(fields)).text == ['('] + E.EncodePairs(path, fields, keys, 0).text + [')']
  {
    PairsEncodableIff(path, fields, keys, 0);
  }

  /** The text of the members from `k` on: a separator, member `k`, the rest. */
  lemma PairsText(path: bytes, fields: map<Key, Value>, keys: seq<Key>, k: nat)
    requires k < |keys| && (forall key :: key in keys ==> key in fields)
    requires keys[k].StringKey? && Encodable(fields[keys[k]])
    ensures E.EncodePairs(path, fields, keys, k).text ==
      (if 0 < k then [','] else []) + MemberText(path, fields, keys[k]) + E.EncodePairs(path, fields, keys, k + 1).text
    ensures E.EncodePairs(path, fields, keys, k + 1).text == [] || E.EncodePairs(path, fields, keys, k + 1).text[0] == ','
  {
    EncodableIff(E.MemberPath(path, keys[k].name), fields[keys[k]]);
    PairsStart(path, fields, keys, k + 1);
  }

  /** The members after the first begin with `,`. */
  lemma PairsStart(path: bytes, fields: map<Key, Value>, keys: seq<Key>, j: nat)
    requires 0 < j <= |keys| && (forall key :: key in keys ==> key in fields)
    ensures E.EncodePairs(path, fields, keys, j).text == [] || E.EncodePairs(path, fields, keys, j).text[0] == ','
  {
  }

  /** The text `encodeMap` writes for one member: the key, `:`, the value. */
  ghost function MemberText(path: bytes, fields: map<Key, Value>, key: Key): bytes
    requires key in fields && key.StringKey?
  {
    E.StringText(key.name) + [':'] + E.EncodeValue(E.MemberPath(path, key.name), fields[key]).text
  }

  /**
   * A supported value, written by `encodeValue` and followed by a reserved
   * byte or the end of the input, reads back as the same value, and the
   * cursor ends just after its text.
   */
  lemma {:induction false} ValueReadsBack(s: bytes, i: nat, path: bytes, v: Value, e: nat)
    requires Supported(v) && e == i + |E.EncodeValue(path, v).text|
    requires Holds(s, i, E.EncodeValue(path, v).text) && Delimited(s, e)
    ensures ReadValue(s, i, false) == Ok(Parsed(v, e))
    decreases v, 3, 0, 0
  {
    match v
    case Array(items) =>
      SupportedIsEncodable(v);
      ArrayText(path, items);
      ArrayReadsBack(s, i, path, items, e);
    case Object(fields) =>
      SupportedIsEncodable(v);
      var keys := Sorted(fields.Keys);
      SortedIsAscendingPermutation(fields.Keys);
      ObjectText(path, fields, keys);
      ObjectReadsBack(s, i, path, fields, keys, e);
    case _ =>
      ScalarReadsBack(s, i, path, v, e);
  }

  /** The round trip for a value that holds no other value. */
  lemma ScalarReadsBack(s: bytes, i: nat, path: bytes, v: Value, e: nat)
    requires Supported(v) && !v.Array? && !v.Object? && e == i + |E.EncodeValue(path, v).text|
    requires Holds(s, i, E.EncodeValue(path, v).text) && Delimited(s, e)
    ensures ReadValue(s, i, false) == Ok(Parsed(v, e))
  {
    match v
    case Null =>
      LiteralReadsBack(s, i, 'n');
    case Bool(b) =>
      LiteralReadsBack(s, i, if b then 't' else 'f');
    case Number(t) =>
      E.RemovePlusSpec(t);
      NumberReadsBack(s, i, t);
    case String(x) =>
      StringReadsBack(s, i, x, e);
  }

  lemma NumberReadsBack(s: bytes, i: nat, t: bytes)
    requires IsRisonNumber(t) && Holds(s, i, t) && Delimited(s, i + |t|)
    ensures ReadValue(s, i, false) == Ok(Parsed(Number(t), i + |t|))
  {
    JsonNumberStart(t);
    HoldsAt(s, i, t, 0);
    ReadValueAt(s, i);
    ValueAtNumber(s, i + 1);
    NumberParses(s, i, t);
  }

  lemma {:induction false} ArrayReadsBack(s: bytes, i: nat, path: bytes, items: seq<Value>, e: nat)
    requires Supported(Array(items)) && e == i + |E.EncodeElements(path, items, 0).text| + 3
    requires Holds(s, i, ['!', '('] + E.EncodeElements(path, items, 0).text + [')'])
    ensures ReadValue(s, i, false) == Ok(Parsed(Array(items), e))
    decreases Array(items), 2, 0, 0
  {
    var inner := E.EncodeElements(path, items, 0).text;
    assert ['!', '('] + inner + [')'] == ['!', '('] + (inner + [')']);
    HoldsSplit(s, i, ['!', '('], inner + [')']);
    HoldsAt(s, i, ['!', '('], 0);
    HoldsAt(s, i, ['!', '('], 1);
    ReadValueAt(s, i);
    ValueAtBang(s, i + 1);
    assert ParseSpecial(s, i + 1, false) == ParseArray(s, i + 2, false, []);
    assert items[..0] == [];
    ElementsReadBack(s, i + 2, path, items, 0, e);
  }

  /** The input holds, from `j`, the text of the elements from `k` on, then `)`. */
  ghost predicate ElementsAhead(s: bytes, j: nat, path: bytes, items: seq<Value>, k: nat) {
    k <= |items| && Supported(Array(items)) && Holds(s, j, E.EncodeElements(path, items, k).text + [')'])
  }

  /** The input holds, from `j`, the text of the members from `k` on, then `)`. */
  ghost predicate PairsAhead(s: bytes, j: nat, path: bytes, fields: map<Key, Value>, keys: seq<Key>, k: nat) {
    k <= |keys| && (forall key :: key in keys <==> key in fields) && Supported(Object(fields))
    && Holds(s, j, E.EncodePairs(path, fields, keys, k).text + [')'])
  }

  /** The loop of `parseArray` over the elements from `k` on reads back the whole array. */
  lemma {:induction false} ElementsReadBack(s: bytes, j: nat, path: bytes, items: seq<Value>, k: nat, e: nat)
    requires ElementsAhead(s, j, path, items, k)
    requires e == j + |E.EncodeElements(path, items, k).text| + 1
    ensures ParseArray(s, j, false, items[..k]) == Ok(Parsed(Array(items), e))
    decreases Array(items), 1, |items| - k, 1
  {
    if k == |items| {
      ElementsEnd(s, j, path, items, k, e);
    } else {
      var j' := ElementTurn(s, j, path, items, k);
      ElementsReadBack(s, j', path, items, k + 1, e);
    }
  }

  /** `)` after the last element ends the loop of `parseArray` with the whole array. */
  lemma ElementsEnd(s: bytes, j: nat, path: bytes, items: seq<Value>, k: nat, e: nat)
    requires k == |items| && Holds(s, j, E.EncodeElements(path, items, k).text + [')'])
    requires e == j + |E.EncodeElements(path, items, k).text| + 1
    ensures ParseArray(s, j, false, items[..k]) == Ok(Parsed(Array(items), e))
  {
    assert E.EncodeElements(path, items, |items|).text + [')'] == [')'];
    HoldsAt(s, j, [')'], 0);
    assert items[..|items|] == items;
    ArrayClose(s, j, items);
  }

  /** One turn of the loop of `parseArray`: the separator and element `k`. */
  lemma {:induction false} ElementTurn(s: bytes, j: nat, path: bytes, items: seq<Value>, k: nat) returns (j': nat)
    requires ElementsAhead(s, j, path, items, k) && k < |items|
    ensures ElementsAhead(s, j', path, items, k + 1)
    ensures j' + |E.EncodeElements(path, items, k + 1).text| == j + |E.EncodeElements(path, items, k).text|
    ensures ParseArray(s, j, false, items[..k]) == ParseArray(s, j', false, items[..k + 1])
    decreases Array(items), 1, |items| - k, 0
  {
    var v := items[k];
    var j0;
    j0, j' := ElementLayout(s, j, path, items, k);
    ValueReadsBack(s, j0, E.ElementPath(path, k), v, j');
    ArrayTurn(s, j, false, items[..k], s[j], j + 1);
    Snoc(items, k);
  }

  lemma Snoc(items: seq<Value>, k: nat)
    requires k < |items|
    ensures items[..k] + [items[k]] == items[..k + 1]
  {
  }

  /**
   * Where the pieces of one turn of the array text lie: the separator at
   * `j`, element `k` from `j0` to `j'`, then the rest of the elements.
   */
  lemma ElementLayout(s: bytes, j: nat, path: bytes, items: seq<Value>, k: nat) returns (j0: nat, j': nat)
    requires k < |items| && Supported(items[k])
    requires Holds(s, j, E.EncodeElements(path, items, k).text + [')'])
    ensures j < |s| && (if k == 0 then j0 == j && s[j] != ',' && s[j] != ')' else j0 == j + 1 && s[j] == ',')
    ensures j' == j0 + |E.EncodeValue(E.ElementPath(path, k), items[k]).text|
    ensures Holds(s, j0, E.EncodeValue(E.ElementPath(path, k), items[k]).text) && Delimited(s, j')
    ensures Holds(s, j', E.EncodeElements(path, items, k + 1).text + [')'])
    ensures j' + |E.EncodeElements(path, items, k + 1).text| == j + |E.EncodeElements(path, items, k).text|
  {
    var v := items[k];
    SupportedIsEncodable(v);
    var sep: bytes := if 0 < k then [','] else [];
    var o := E.EncodeValue(E.ElementPath(path, k), v).text;
    var rest := E.EncodeElements(path, items, k + 1).text;
    ElementsText(path, items, k);
    HoldsThree(s, j, sep, o, rest);
    TextStart(E.ElementPath(path, k), v);
    HoldsAt(s, j + |sep|, o, 0);
    if 0 < k {
      HoldsAt(s, j, sep, 0);
    }
    j0, j' := j + |sep|, j + |sep| + |o|;
  }

  lemma {:induction false} ObjectReadsBack(s: bytes, i: nat, path: bytes, fields: map<Key, Value>, keys: seq<Key>, e: nat)
    requires Supported(Object(fields)) && (forall key :: key in keys <==> key in fields)
    requires e == i + |E.EncodePairs(path, fields, keys, 0).text| + 2
    requires Holds(s, i, ['('] + E.EncodePairs(path, fields, keys, 0).text + [')'])
    ensures ReadValue(s, i, false) == Ok(Parsed(Object(fields), e))
    decreases Object(fields), 2, 0, 0
  {
    var inner := E.EncodePairs(path, fields, keys, 0).text;
    assert ['('] + inner + [')'] == ['('] + (inner + [')']);
    HoldsSplit(s, i, ['('], inner + [')']);
    HoldsAt(s, i, ['('], 0);
    ReadValueAt(s, i);
    ValueAtParen(s, i + 1);
    BuiltEnds(fields, keys);
    PairsReadBack(s, i + 1, path, fields, keys, 0, map[], e);
  }

  /** The loop of `parseObject` over the members from `k` on reads back the whole map. */
  lemma {:induction false} PairsReadBack(s: bytes, j: nat, path: bytes, fields: map<Key, Value>, keys: seq<Key>, k: nat, m: map<Key, Value>, e: nat)
    requires PairsAhead(s, j, path, fields, keys, k) && m == Built(fields, keys, k)
    requires e == j + |E.EncodePairs(path, fields, keys, k).text| + 1
    ensures ParseObject(s, j, false, m) == Ok(Parsed(Object(fields), e))
    decreases Object(fields), 1, |keys| - k, 1
  {
    if k == |keys| {
      PairsEnd(s, j, path, fields, keys, k, e);
    } else {
      var j', m' := PairTurn(s, j, path, fields, keys, k, m);
      PairsReadBack(s, j', path, fields, keys, k + 1, m', e);
    }
  }

  /** `)` after the last member ends the loop of `parseObject` with the whole map. */
  lemma PairsEnd(s: bytes, j: nat, path: bytes, fields: map<Key, Value>, keys: seq<Key>, k: nat, e: nat)
    requires k == |keys| && forall key :: key in keys <==> key in fields
    requires Holds(s, j, E.EncodePairs(path, fields, keys, k).text + [')'])
    requires e == j + |E.EncodePairs(path, fields, keys, k).text| + 1
    ensures ParseObject(s, j, false, Built(fields, keys, k)) == Ok(Parsed(Object(fields), e))
  {
    assert E.EncodePairs(path, fields, keys, |keys|).text == [];
    assert E.EncodePairs(path, fields, keys, |keys|).text + [')'] == [')'];
    HoldsAt(s, j, [')'], 0);
    BuiltEnds(fields, keys);
    ObjectClose(s, j, fields);
  }

  /** One turn of the loop of `parseObject`: the separator and member `k`. */
  lemma {:induction false} PairTurn(s: bytes, j: nat, path: bytes, fields: map<Key, Value>, keys: seq<Key>, k: nat, m: map<Key, Value>)
    returns (j': nat, m': map<Key, Value>)
    requires PairsAhead(s, j, path, fields, keys, k) && k < |keys| && m == Built(fields, keys, k)
    ensures m' == Built(fields, keys, k + 1)
    ensures PairsAhead(s, j', path, fields, keys, k + 1)
    ensures j' + |E.EncodePairs(path, fields, keys, k + 1).text| == j + |E.EncodePairs(path, fields, keys, k).text|
    ensures ParseObject(s, j, false, m) == ParseObject(s, j', false, m')
    decreases Object(fields), 1, |keys| - k, 0
  {
    var key := keys[k];
    var j0;
    j0, j' := PairLayout(s, j, path, fields, keys, k);
    MemberReadsBack(s, j0, path, fields, key, j');
    BuiltStep(fields, keys, k);
    ObjectTurn(s, j, false, m, s[j], j + 1);
    m' := m[key := fields[key]];
  }

  /**
   * Where the pieces of one turn of the map text lie: the separator at
   * `j`, member `k` from `j0` to `j'`, then the rest of the members.
   */
  lemma PairLayout(s: bytes, j: nat, path: bytes, fields: map<Key, Value>, keys: seq<Key>, k: nat)
    returns (j0: nat, j': nat)
    requires k < |keys| && (forall key :: key in keys ==> key in fields)
    requires keys[k].StringKey? && Supported(fields[keys[k]])
    requires Holds(s, j, E.EncodePairs(path, fields, keys, k).text + [')'])
    ensures j < |s| && (if k == 0 then j0 == j && s[j] != ',' && s[j] != ')' else j0 == j + 1 && s[j] == ',')
    ensures j' == j0 + |MemberText(path, fields, keys[k])|
    ensures Holds(s, j0, MemberText(path, fields, keys[k])) && Delimited(s, j')
    ensures Holds(s, j', E.EncodePairs(path, fields, keys, k + 1).text + [')'])
    ensures j' + |E.EncodePairs(path, fields, keys, k + 1).text| == j + |E.EncodePairs(path, fields, keys, k).text|
  {
    var key := keys[k];
    SupportedIsEncodable(fields[key]);
    var sep: bytes := if 0 < k then [','] else [];
    var member := MemberText(path, fields, key);
    var rest := E.EncodePairs(path, fields, keys, k + 1).text;
    PairsText(path, fields, keys, k);
    HoldsThree(s, j, sep, member, rest);
    if k == 0 {
      HoldsAt(s, j, member, 0);
      MemberStart(path, fields, key);
    } else {
      HoldsAt(s, j, sep, 0);
    }
    j0, j' := j + |sep|, j + |sep| + |member|;
  }

  /** A member's text begins with its key's first byte, never `,` or `)`. */
  lemma MemberStart(path: bytes, fields: map<Key, Value>, key: Key)
    requires key in fields && key.StringKey?
    ensures var t := MemberText(path, fields, key); |t| != 0 && t[0] != ',' && t[0] != ')'
  {
    TextStart([], String(key.name));
  }

  /** A member's text reads back as its key and its value. */
  lemma {:induction false} MemberReadsBack(s: bytes, i: nat, path: bytes, fields: map<Key, Value>, key: Key, e: nat)
    requires key in fields && key.StringKey? && Supported(fields[key])
    requires e == i + |MemberText(path, fields, key)|
    requires Holds(s, i, MemberText(path, fields, key)) && Delimited(s, e)
    ensures ObjectMember(s, i, false) == Ok(Member(key.name, fields[key], e))
    decreases Object(fields), 0, 0, 0
  {
    var name := E.StringText(key.name);
    var o := E.EncodeValue(E.MemberPath(path, key.name), fields[key]).text;
    var m := MemberLayout(s, i, name, o);
    StringReadsBack(s, i, key.name, m);
    ValueReadsBack(s, m + 1, E.MemberPath(path, key.name), fields[key], e);
    MemberAt(s, i, key.name, m, fields[key], e);
  }

  /** Where the key, the `:` and the value of a member's text lie. */
  lemma MemberLayout(s: bytes, i: nat, name: bytes, o: bytes) returns (m: nat)
    requires Holds(s, i, name + [':'] + o)
    ensures m == i + |name| && m < |s| && s[m] == ':'
    ensures Holds(s, i, name) && Delimited(s, m) && Holds(s, m + 1, o)
  {
    AppendAssoc(name, [':'], o);
    HoldsSplit(s, i, name, [':'] + o);
    HoldsSplit(s, i + |name|, [':'], o);
    HoldsAt(s, i + |name|, [':'], 0);
    m := i + |name|;
  }

  /** `key:value` read as a member of an object, once the key and the value are read. */
  lemma MemberAt(s: bytes, i: nat, name: bytes, m: nat, v: Value, e: nat)
    requires i <= |s| && m < |s| && s[m] == ':'
    requires ReadValue(s, i, false) == Ok(Parsed(String(name), m))
    requires ReadValue(s, m + 1, false) == Ok(Parsed(v, e))
    ensures ObjectMember(s, i, false) == Ok(Member(name, v, e))
  {
  }

  // The round trips of `Marshal` with `Unmarshal`, in each mode.

  lemma {:induction false} HoldsSuffix(s: bytes, i: nat)
    requires i <= |s|
    ensures Holds(s, i, s[i..])
    decreases |s| - i
  {
    if i < |s| {
      HoldsSuffix(s, i + 1);
      assert s[i..][1..] == s[i + 1..];
    }
  }

  /** The whole text of a supported value reads back as that value. */
  lemma DecodeText(path: bytes, v: Value)
    requires Supported(v)
    ensures Decode(E.EncodeValue(path, v).text) == Ok(v)
  {
    var s := E.EncodeValue(path, v).text;
    HoldsSuffix(s, 0);
    assert s[0..] == s;
    ValueReadsBack(s, 0, path, v, |s|);
  }

  /**
   * Rison: every supported value encodes without failure, and decoding
   * the text gives the value back.
   */
  lemma RisonRoundTrip(v: Value)
    requires Supported(v)
    ensures E.Encode(v, Rison).Ok?
    ensures Decode(E.Encode(v, Rison).value) == Ok(v)
  {
    SupportedIsEncodable(v);
    EncodableIff([], v);
    DecodeText([], v);
  }

  /** The text of a map is `(`, then a member text for each key, then `)`; it is `()` only for the empty map. */
  lemma ObjectTextSize(fields: map<Key, Value>)
    requires Supported(Object(fields))
    ensures var t := E.EncodeValue([], Object(fields)).text;
      |t| >= 2 && t[0] == '(' && t[|t| - 1] == ')' && (|t| == 2 <==> |fields| == 0)
  {
    SupportedIsEncodable(Object(fields));
    var keys := Sorted(fields.Keys);
    SortedIsAscendingPermutation(fields.Keys);
    ObjectText([], fields, keys);
    if |keys| != 0 {
      var key := keys[0];
      SupportedIsEncodable(fields[key]);
      PairsText([], fields, keys, 0);
      MemberStart([], fields, key);
    } else {
      assert |fields.Keys| == 0;
    }
  }

  /** The text of an array is `!(`, the elements, `)`; it is `!()` only for the empty array. */
  lemma ArrayTextSize(items: seq<Value>)
    requires Supported(Array(items))
    ensures var t := E.EncodeValue([], Array(items)).text;
      |t| >= 3 && t[0] == '!' && t[1] == '(' && t[|t| - 1] == ')' && (|t| == 3 <==> |items| == 0)
  {
    SupportedIsEncodable(Array(items));
    ArrayText([], items);
    if |items| != 0 {
      SupportedIsEncodable(items[0]);
      ElementsText([], items, 0);
      TextStart(E.ElementPath([], 0), items[0]);
    }
  }

  /**
   * O-Rison accepts exactly the non-empty maps among supported values
   * (an empty map would leave no text), and decoding the text between
   * the parentheses `DecodeObject` puts back gives the map back.
   */
  lemma ORisonRoundTrip(v: Value)
    requires Supported(v)
    ensures E.Encode(v, ORison).Ok? <==> v.Object? && |v.fields| != 0
    ensures E.Encode(v, ORison).Ok? ==> Decode(['('] + E.Encode(v, ORison).value + [')']) == Ok(v)
  {
    if v.Object? {
      ORisonObject(v.fields);
      DecodeText([], v);
    }
  }

  lemma ORisonObject(fields: map<Key, Value>)
    requires Supported(Object(fields))
    ensures E.Encode(Object(fields), ORison).Ok? <==> |fields| != 0
    ensures E.Encode(Object(fields), ORison).Ok? ==>
      ['('] + E.Encode(Object(fields), ORison).value + [')'] == E.EncodeValue([], Object(fields)).text
  {
    SupportedIsEncodable(Object(fields));
    EncodableIff([], Object(fields));
    ObjectTextSize(fields);
    assert E.Encode(Object(fields), ORison) == E.ConvertRisonToMode(E.EncodeValue([], Object(fields)).text, ORison);
  }

  /**
   * A-Rison accepts exactly the non-empty arrays among supported values,
   * and decoding the text between the `!(` and `)` that `DecodeArray`
   * puts back gives the array back.
   */
  lemma ARisonRoundTrip(v: Value)
    requires Supported(v)
    ensures E.Encode(v, ARison).Ok? <==> v.Array? && |v.items| != 0
    ensures E.Encode(v, ARison).Ok? ==> Decode(['!', '('] + E.Encode(v, ARison).value + [')']) == Ok(v)
  {
    if v.Array? {
      ARisonArray(v.items);
      DecodeText([], v);
    }
  }

  lemma ARisonArray(items: seq<Value>)
    requires Supported(Array(items))
    ensures E.Encode(Array(items), ARison).Ok? <==> |items| != 0
    ensures E.Encode(Array(items), ARison).Ok? ==>
      ['!', '('] + E.Encode(Array(items), ARison).value + [')'] == E.EncodeValue([], Array(items)).text
  {
    SupportedIsEncodable(Array(items));
    EncodableIff([], Array(items));
    ArrayTextSize(items);
    assert E.Encode(Array(items), ARison) == E.ConvertRisonToMode(E.EncodeValue([], Array(items)).text, ARison);
  }
}
