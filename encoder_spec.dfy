/**
 * The Rison encoder as functions of the value: the text each routine of
 * encoder.go appends to the buffer, and the first failure it reports.
 * The `Encoder` class in encoding.dfy appends the same text step by step
 * and is proved to agree with these functions.
 */
module EncoderSpec {
  import opened Lexical
  import opened Results
  import opened Values
  import opened KeyOrder

  /**
   * `s` may be written without quotes (`idOk`): it is not empty, its first
   * byte may begin an identifier and no later byte is reserved.
   */
  predicate IsIdentifier(s: bytes) {
    |s| != 0 && !IsNotIdStart(s[0]) && forall k :: 1 <= k < |s| ==> !IsNotIdChar(s[k])
  }

  /** One byte inside quotes: `'` and `!` get a `!` in front. */
  function EscapeByte(c: byte): (r: bytes)
    ensures r == [c] || r == ['!', c]
  {
    if c == '\'' || c == '!' then ['!', c] else [c]
  }

  /**
   * Escaped text with every `!` that stands before a `'` or a `!` taken
   * out, reading from the left.
   */
  function Unescape(t: bytes): bytes
    decreases |t|
  {
    if |t| == 0 then []
    else if 2 <= |t| && t[0] == '!' && (t[1] == '!' || t[1] == '\'') then [t[1]] + Unescape(t[2..])
    else [t[0]] + Unescape(t[1..])
  }

  /** The bytes of `s` as `writeString` writes them between quotes. */
  function Escape(s: bytes): (r: bytes)
    ensures |s| <= |r| <= 2 * |s|
    decreases |s|
  {
    if |s| == 0 then [] else EscapeByte(s[0]) + Escape(s[1..])
  }

  /** Escaping keeps every byte: taking the added `!` out again gives `s` back. */
  lemma {:induction false} EscapeKeepsBytes(s: bytes)
    ensures Unescape(Escape(s)) == s
    decreases |s|
  {
    if |s| != 0 {
      EscapeKeepsBytes(s[1..]);
      var head := EscapeByte(s[0]);
      var rest := Escape(s[1..]);
      assert Escape(s) == head + rest;
      assert (head + rest)[|head|..] == rest;
    }
  }

  /** Escaping one more byte appends its escape: the order the loop of `writeString` writes in. */
  lemma {:induction false} EscapeSnoc(s: bytes, c: byte)
    ensures Escape(s + [c]) == Escape(s) + EscapeByte(c)
    decreases |s|
  {
    if |s| == 0 {
      assert s + [c] == [c];
    } else {
      assert (s + [c])[1..] == s[1..] + [c];
      EscapeSnoc(s[1..], c);
    }
  }

  /** The escaped text holds no lone `'`: each `'` in it comes right after a `!`. */
  lemma {:induction false} EscapeHasNoQuote(s: bytes)
    ensures forall k :: 0 <= k < |Escape(s)| && Escape(s)[k] == '\'' ==> 0 < k && Escape(s)[k - 1] == '!'
    decreases |s|
  {
    if |s| != 0 {
      EscapeHasNoQuote(s[1..]);
      var h := EscapeByte(s[0]);
      var t := Escape(s[1..]);
      assert Escape(s) == h + t;
      forall k | 0 <= k < |Escape(s)| && Escape(s)[k] == '\''
        ensures 0 < k && Escape(s)[k - 1] == '!'
      {
        if k >= |h| {
          assert Escape(s)[k] == t[k - |h|];
          if k - |h| > 0 {
            assert Escape(s)[k - 1] == t[k - |h| - 1];
          }
        }
      }
    }
  }

  /** What `writeString` writes for the string `s`: `s` itself when it is an identifier, else `s` quoted. */
  function StringText(s: bytes): (r: bytes)
    ensures IsIdentifier(s) ==> r == s
    ensures !IsIdentifier(s) ==> |r| >= 2 && r[0] == '\'' && r[|r| - 1] == '\'' && r[1..|r| - 1] == Escape(s)
  {
    if IsIdentifier(s) then s else ['\''] + Escape(s) + ['\'']
  }

  /** The number text with every `+` removed (`bytes.Replace(j, "+", "", -1)`). */
  function RemovePlus(t: bytes): (r: bytes)
    ensures |r| <= |t|
    decreases |t|
  {
    if |t| == 0 then [] else (if t[0] == '+' then [] else [t[0]]) + RemovePlus(t[1..])
  }

  /** `RemovePlus` works piece by piece. */
  lemma {:induction false} RemovePlusConcat(a: bytes, b: bytes)
    ensures RemovePlus(a + b) == RemovePlus(a) + RemovePlus(b)
    decreases |a|
  {
    if |a| == 0 {
      assert a + b == b;
    } else {
      assert (a + b)[1..] == a[1..] + b;
      RemovePlusConcat(a[1..], b);
    }
  }

  /**
   * `RemovePlus` leaves no `+`, changes nothing in a text without `+`,
   * and so changes nothing the second time.
   */
  lemma {:induction false} RemovePlusSpec(a: bytes)
    ensures '+' !in RemovePlus(a)
    ensures '+' !in a ==> RemovePlus(a) == a
    ensures RemovePlus(RemovePlus(a)) == RemovePlus(a)
    decreases |a|
  {
    if |a| != 0 {
      RemovePlusSpec(a[1..]);
      var h: bytes := if a[0] == '+' then [] else [a[0]];
      RemovePlusConcat(h, RemovePlus(a[1..]));
      if a[0] != '+' {
        assert RemovePlus(h) == h by {
          assert h[1..] == [];
        }
        assert a == [a[0]] + a[1..];
      }
    }
  }

  /** The digit `d` as a byte. */
  function Digit(d: nat): (c: byte)
    requires d < 10
    ensures IsDigit(c)
  {
    ('0' as int + d) as char
  }

  /** `n` in decimal (`%d`). */
  function Decimal(n: nat): (r: bytes)
    ensures |r| != 0
    decreases n
  {
    if n < 10 then [Digit(n)] else Decimal(n / 10) + [Digit(n % 10)]
  }

  /** The number a run of decimal digits stands for. */
  function DigitsValue(ds: bytes): nat
    requires forall k :: 0 <= k < |ds| ==> IsDigit(ds[k])
    decreases |ds|
  {
    if |ds| == 0 then 0
    else
      var d := ds[|ds| - 1];
      assert IsDigit(d);
      10 * DigitsValue(ds[..|ds| - 1]) + (d as int - '0' as int)
  }

  /** `Decimal(n)` is a run of digits without a leading zero that stands for `n`. */
  lemma {:induction false} DecimalValue(n: nat)
    ensures forall k :: 0 <= k < |Decimal(n)| ==> IsDigit(Decimal(n)[k])
    ensures DigitsValue(Decimal(n)) == n
    ensures Decimal(n)[0] == '0' ==> n == 0
    decreases n
  {
    if n >= 10 {
      DecimalValue(n / 10);
      var d := Decimal(n);
      assert d[..|d| - 1] == Decimal(n / 10);
    }
  }

  /** The path of a member in error messages (`path + "." + key`). */
  function MemberPath(path: bytes, key: bytes): bytes {
    path + ['.'] + key
  }

  /** The path of an element in error messages (`fmt.Sprintf("%s[%d]", path, i)`). */
  function ElementPath(path: bytes, i: nat): bytes {
    path + ['['] + Decimal(i) + [']']
  }

  /** The path as the message shows it: the root is `.`. */
  function ShownPath(path: bytes): (r: bytes)
    ensures |r| != 0
  {
    if path == [] then ['.'] else path
  }

  /** Why encoding failed; the arguments are those the message is formatted with. */
  datatype EncodeError =
    | InvalidKey(key: Key)                                     // a map key that is not a string
    | UnsupportedKind(kind: Kind)                              // `%s is non-supported kind`
    | NonEncodable(kind: Kind, path: bytes, detail: EncodeError) // `non-encodable %s value at %s ...: %s`
    | NotObjectKind                                            // O-Rison of something other than a map
    | NotArrayKind                                             // A-Rison of something other than a slice or array
    | NotObjectText                                            // the output has no `(`...`)` to strip
    | NotArrayText                                             // the output has no `!(`...`)` to strip

  /** The bytes a routine appended to the buffer, and the failure it reported, if any. */
  datatype Output = Output(text: bytes, failure: Option<EncodeError>)

  /** A failure, as `encodeValue` reports it for the value `v` at `path`. */
  function Wrap(path: bytes, v: Value, o: Output): (r: Output)
    ensures r.text == o.text && (r.failure.Some? <==> o.failure.Some?)
  {
    if o.failure.None? then o
    else Output(o.text, Some(NonEncodable(KindOf(v), ShownPath(path), o.failure.value)))
  }

  /** What `encodeValue(path, v)` appends and reports. */
  ghost function EncodeValue(path: bytes, v: Value): Output
    decreases v, 2
  {
    match v
    case Null => Output(['!', 'n'], None)
    case Bool(b) => Output(if b then ['!', 't'] else ['!', 'f'], None)
    case Number(t) => Output(RemovePlus(t), None)
    case String(s) => Output(StringText(s), None)
    case Object(fields) => Wrap(path, v, EncodeMap(path, fields))
    case Array(items) => Wrap(path, v, EncodeArray(path, items))
    case Unsupported(_) => Output([], Some(NonEncodable(KindOf(v), ShownPath(path), UnsupportedKind(KindOf(v)))))
  }

  /** What `encodeMap` appends and reports: `(`, the members in key order, `)`. */
  ghost function EncodeMap(path: bytes, fields: map<Key, Value>): Output
    decreases Object(fields), 1
  {
    var keys := Sorted(fields.Keys);
    SortedKeysAreKeys(fields);
    var o := EncodePairs(path, fields, keys, 0);
    if o.failure.Some? then Output(['('] + o.text, o.failure)
    else Output(['('] + o.text + [')'], None)
  }

  /** Every key `encodeMap` walks over is a key of the map. */
  lemma SortedKeysAreKeys(fields: map<Key, Value>)
    ensures forall k :: k in Sorted(fields.Keys) ==> k in fields
  {
    SortedIsAscendingPermutation(fields.Keys);
  }

  /** The members of `fields` with the keys `keys[i..]`, as the loop of `encodeMap` writes them. */
  ghost function EncodePairs(path: bytes, fields: map<Key, Value>, keys: seq<Key>, i: nat): Output
    requires i <= |keys| && forall k :: k in keys ==> k in fields
    decreases Object(fields), 0, |keys| - i
  {
    if i == |keys| then Output([], None)
    else
      var sep: bytes := if 0 < i then [','] else [];
      match keys[i]
      case OtherKey(_) => Output(sep, Some(InvalidKey(keys[i])))
      case StringKey(name) =>
        var head := sep + StringText(name) + [':'];
        var o := EncodeValue(MemberPath(path, name), fields[keys[i]]);
        if o.failure.Some? then Output(head + o.text, o.failure)
        else
          var rest := EncodePairs(path, fields, keys, i + 1);
          Output(head + o.text + rest.text, rest.failure)
  }

  /** What `encodeArray` appends and reports: `!(`, the elements in order, `)`. */
  ghost function EncodeArray(path: bytes, items: seq<Value>): Output
    decreases Array(items), 1
  {
    var o := EncodeElements(path, items, 0);
    if o.failure.Some? then Output(['!', '('] + o.text, o.failure)
    else Output(['!', '('] + o.text + [')'], None)
  }

  /** The elements `items[i..]`, as the loop of `encodeArray` writes them. */
  ghost function EncodeElements(path: bytes, items: seq<Value>, i: nat): Output
    requires i <= |items|
    decreases Array(items), 0, |items| - i
  {
    if i == |items| then Output([], None)
    else
      var sep: bytes := if 0 < i then [','] else [];
      var o := EncodeValue(ElementPath(path, i), items[i]);
      if o.failure.Some? then Output(sep + o.text, o.failure)
      else
        var rest := EncodeElements(path, items, i + 1);
        Output(sep + o.text + rest.text, rest.failure)
  }

  /** `checkKindMatchesMode`: O-Rison takes only maps, A-Rison only slices and arrays. */
  function CheckKindMatchesMode(kind: Kind, mode: Mode): (r: Option<EncodeError>)
    ensures r.None? <==> (mode == ORison ==> kind == MapKind) && (mode == ARison ==> kind == SliceKind)
  {
    match mode
    case Rison => None
    case ORison => if kind != MapKind then Some(NotObjectKind) else None
    case ARison => if kind != SliceKind then Some(NotArrayKind) else None
  }

  /**
   * `convertRisonToMode`: O-Rison drops the outer `(`...`)` of an output
   * of at least 3 bytes, A-Rison the outer `!(`...`)` of one of at least 4.
   */
  function ConvertRisonToMode(r: bytes, mode: Mode): (res: Result<bytes, EncodeError>)
    ensures mode == Rison ==> res == Ok(r)
    ensures mode == ORison && res.Ok? ==> ['('] + res.value + [')'] == r && |res.value| != 0
    ensures mode == ARison && res.Ok? ==> ['!', '('] + res.value + [')'] == r && |res.value| != 0
  {
    var n := |r|;
    match mode
    case Rison => Ok(r)
    case ORison =>
      if !(3 <= n && r[0] == '(' && r[n - 1] == ')') then Err(NotObjectText)
      else Ok(r[1..n - 1])
    case ARison =>
      if !(4 <= n && r[0] == '!' && r[1] == '(' && r[n - 1] == ')') then Err(NotArrayText)
      else Ok(r[2..n - 1])
  }

  /**
   * `encode` applied to the JSON form of `v`: the mode check, `!n` for
   * `null`, the value's text, and the mode's outer delimiters dropped.
   */
  ghost function Encode(v: Value, mode: Mode): Result<bytes, EncodeError> {
    match CheckKindMatchesMode(KindOf(v), mode)
    case Some(e) => Err(e)
    case None =>
      if v == Null then Ok(['!', 'n'])
      else
        var o := EncodeValue([], v);
        if o.failure.Some? then Err(o.failure.value) else ConvertRisonToMode(o.text, mode)
  }
}
