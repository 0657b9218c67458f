/**
 * The Rison encoder as encoder.go writes it: an encoder object whose
 * routines append to a byte buffer. Each method is proved to append
 * exactly the text the corresponding function of `EncoderSpec` gives and
 * to report the failure it gives.
 */
module Encoding {
  import opened Lexical
  import opened Results
  import opened Values
  import opened KeyOrder
  import E = EncoderSpec

  /** `idOk`: whether `s` may be written without quotes. */
  method IdOk(s: bytes) returns (ok: bool)
    ensures ok == E.IsIdentifier(s)
  {
    var n := |s|;
    if n == 0 {
      return false;
    }
    if IsNotIdStart(s[0]) {
      return false;
    }
    for i := 1 to n
      invariant forall k :: 1 <= k < i ==> !IsNotIdChar(s[k])
    {
      if IsNotIdChar(s[i]) {
        return false;
      }
    }
    return true;
  }

  /** The string a map key holds, if it is a string (`k.Interface().(string)`). */
  function KeyString(k: Key): (r: Option<bytes>)
    ensures r.Some? <==> k.StringKey?
    ensures r.Some? ==> r.value == k.name
  {
    match k
    case StringKey(name) => Some(name)
    case OtherKey(_) => None
  }

  class Encoder {
    const mode: Mode
    var buffer: bytes

    /** An encoder for `mode` with an empty buffer (`&encoder{Mode: m}` and its first step). */
    constructor (mode: Mode)
      ensures this.mode == mode && buffer == []
    {
      this.mode := mode;
      buffer := [];
    }

    /**
     * `writeString`: `v` is the value to write, `None` when it is not a
     * string. A string is written bare when it is an identifier, else
     * between quotes with `'` and `!` escaped.
     */
    method WriteString(v: Option<bytes>) returns (ok: bool)
      modifies this`buffer
      ensures ok <==> v.Some?
      ensures ok ==> buffer == old(buffer) + E.StringText(v.value)
      ensures !ok ==> buffer == old(buffer)
    {
      if v.None? {
        return false;
      }
      var s := v.value;
      var isId := IdOk(s);
      if isId {
        buffer := buffer + s;
        return true;
      }
      WriteQuoted(s);
      assert E.StringText(s) == ['\''] + E.Escape(s) + ['\''];
      return true;
    }

    /** The quoting branch of `writeString`: `s` between quotes, each `'` and `!` in it preceded by `!`. */
    method WriteQuoted(s: bytes)
      modifies this`buffer
      ensures buffer == old(buffer) + ['\''] + E.Escape(s) + ['\'']
    {
      buffer := buffer + ['\''];
      ghost var start := buffer;
      for i := 0 to |s|
        invariant buffer == start + E.Escape(s[..i])
      {
        var c := s[i];
        ghost var before := buffer;
        if c == '\'' || c == '!' {
          buffer := buffer + ['!'];
        }
        buffer := buffer + [c];
        assert buffer == before + E.EscapeByte(c);
        assert s[..i + 1] == s[..i] + [c];
        E.EscapeSnoc(s[..i], c);
        AppendAssoc(start, E.Escape(s[..i]), E.EscapeByte(c));
      }
      assert s[..|s|] == s;
      buffer := buffer + ['\''];
    }

    /** `encodeBool`. */
    method EncodeBool(b: bool)
      modifies this`buffer
      ensures buffer == old(buffer) + (if b then ['!', 't'] else ['!', 'f'])
    {
      if b {
        buffer := buffer + ['!', 't'];
      } else {
        buffer := buffer + ['!', 'f'];
      }
    }

    /** `encodeNumber`: the number's text without its `+` signs. */
    method EncodeNumber(t: bytes)
      modifies this`buffer
      ensures buffer == old(buffer) + E.RemovePlus(t)
    {
      var j := E.RemovePlus(t);
      buffer := buffer + j;
    }

    /** `encodeMap`: `(`, then `key:value` for each key in ascending order, separated by `,`, then `)`. */
    method EncodeMap(path: bytes, fields: map<Key, Value>) returns (err: Option<E.EncodeError>)
      modifies this`buffer
      ensures buffer == old(buffer) + E.EncodeMap(path, fields).text
      ensures err == E.EncodeMap(path, fields).failure
      decreases Object(fields), 1
    {
      buffer := buffer + ['('];
      var keys := SortKeys(fields);
      SortedIsAscendingPermutation(fields.Keys);
      ghost var start := buffer;
      ghost var done: bytes := [];
      ghost var all := E.EncodePairs(path, fields, keys, 0);
      for i := 0 to |keys|
        invariant buffer == start + done
        invariant all.text == done + E.EncodePairs(path, fields, keys, i).text
        invariant all.failure == E.EncodePairs(path, fields, keys, i).failure
      {
        var stop;
        ghost var piece;
        stop, err, piece := WritePair(path, fields, keys, i);
        AppendAssoc(start, done, piece);
        AppendAssoc(done, piece, E.EncodePairs(path, fields, keys, i + 1).text);
        done := done + piece;
        if stop {
          AppendAssoc(old(buffer), ['('], done);
          return;
        }
      }
      buffer := buffer + [')'];
      AppendAssoc(old(buffer), ['('], done);
      AppendAssoc(old(buffer) + ['('], done, [')']);
      AppendAssoc(old(buffer), ['('] + done, [')']);
      return None;
    }

    /**
     * One turn of the loop of `encodeMap`: the separator, the key and the
     * member's value. It stops the loop when the key is not a string or
     * the value fails; `piece` is what it appended.
     */
    method WritePair(path: bytes, fields: map<Key, Value>, keys: seq<Key>, i: nat)
      returns (stop: bool, err: Option<E.EncodeError>, ghost piece: bytes)
      requires i < |keys| && forall k :: k in keys ==> k in fields
      modifies this`buffer
      ensures buffer == old(buffer) + piece
      ensures stop ==> E.EncodePairs(path, fields, keys, i) == E.Output(piece, err) && err.Some?
      ensures !stop ==> E.EncodePairs(path, fields, keys, i).text == piece + E.EncodePairs(path, fields, keys, i + 1).text
      ensures !stop ==> E.EncodePairs(path, fields, keys, i).failure == E.EncodePairs(path, fields, keys, i + 1).failure
      decreases Object(fields), 0
    {
      var sep: bytes := if 0 < i then [','] else [];
      buffer := buffer + sep;
      var k := keys[i];
      var ok := WriteString(KeyString(k));
      if !ok {
        assert E.EncodePairs(path, fields, keys, i) == E.Output(sep, Some(E.InvalidKey(k)));
        return true, Some(E.InvalidKey(k)), sep;
      }
      assert k.StringKey?;
      ghost var name := E.StringText(k.name);
      buffer := buffer + [':'];
      ghost var head := sep + name + [':'];
      AppendAssoc(old(buffer), sep, name);
      AppendAssoc(old(buffer), sep + name, [':']);
      ghost var o := E.EncodeValue(E.MemberPath(path, k.name), fields[k]);
      ghost var rest := E.EncodePairs(path, fields, keys, i + 1);
      assert E.EncodePairs(path, fields, keys, i) ==
        if o.failure.Some? then E.Output(head + o.text, o.failure)
        else E.Output(head + o.text + rest.text, rest.failure);
      err := EncodeValue(E.MemberPath(path, k.name), fields[k]);
      AppendAssoc(old(buffer), head, o.text);
      piece := head + o.text;
      if err.Some? {
        return true, err, piece;
      }
      AppendAssoc(head, o.text, rest.text);
      return false, err, piece;
    }

    /** `encodeArray`: `!(`, then the elements in order, separated by `,`, then `)`. */
    method EncodeArray(path: bytes, items: seq<Value>) returns (err: Option<E.EncodeError>)
      modifies this`buffer
      ensures buffer == old(buffer) + E.EncodeArray(path, items).text
      ensures err == E.EncodeArray(path, items).failure
      decreases Array(items), 1
    {
      buffer := buffer + ['!', '('];
      ghost var start := buffer;
      ghost var done: bytes := [];
      ghost var all := E.EncodeElements(path, items, 0);
      for i := 0 to |items|
        invariant buffer == start + done
        invariant all.text == done + E.EncodeElements(path, items, i).text
        invariant all.failure == E.EncodeElements(path, items, i).failure
      {
        var sep: bytes := if 0 < i then [','] else [];
        ghost var o := E.EncodeValue(E.ElementPath(path, i), items[i]);
        ghost var rest := E.EncodeElements(path, items, i + 1);
        ghost var tail: bytes := if o.failure.Some? then [] else rest.text;
        assert E.EncodeElements(path, items, i).text == sep + o.text + tail;
        buffer := buffer + sep;
        err := EncodeValue(E.ElementPath(path, i), items[i]);
        AppendAssoc(start, done, sep);
        AppendAssoc(start, done + sep, o.text);
        AppendAssoc(done, sep, o.text);
        AppendAssoc(done, sep + o.text, tail);
        done := done + sep + o.text;
        if err.Some? {
          AppendAssoc(old(buffer), ['!', '('], done);
          return;
        }
      }
      buffer := buffer + [')'];
      AppendAssoc(old(buffer), ['!', '('], done);
      AppendAssoc(old(buffer) + ['!', '('], done, [')']);
      AppendAssoc(old(buffer), ['!', '('] + done, [')']);
      return None;
    }

    /** `encodeValue`: the value's text by its kind; a failure names the kind and the path. */
    method EncodeValue(path: bytes, v: Value) returns (err: Option<E.EncodeError>)
      modifies this`buffer
      ensures buffer == old(buffer) + E.EncodeValue(path, v).text
      ensures err == E.EncodeValue(path, v).failure
      decreases v, 2
    {
      var detail: Option<E.EncodeError>;
      match v {
        case Bool(b) =>
          EncodeBool(b);
          detail := None;
        case Number(t) =>
          EncodeNumber(t);
          detail := None;
        case String(s) =>
          // the type assertion inside `writeString` cannot fail for a string
          var _ := WriteString(Some(s));
          detail := None;
        case Object(fields) =>
          detail := EncodeMap(path, fields);
        case Array(items) =>
          detail := EncodeArray(path, items);
        case Null =>
          buffer := buffer + ['!', 'n'];
          return None;
        case Unsupported(_) =>
          detail := Some(E.UnsupportedKind(KindOf(v)));
      }
      if detail.None? {
        return None;
      }
      var shown := if path == [] then ['.'] else path;
      return Some(E.NonEncodable(KindOf(v), shown, detail.value));
    }

    /**
     * `encode`, given the value the JSON text decodes to: the mode check,
     * `!n` for `null`, the value's text, then the mode's outer delimiters
     * dropped. The buffer is released (`nil`) once the text is taken.
     */
    method Encode(v: Value) returns (r: Result<bytes, E.EncodeError>)
      modifies this`buffer
      ensures r == E.Encode(v, mode)
      ensures buffer ==
        if E.CheckKindMatchesMode(KindOf(v), mode).None? && v != Null && E.EncodeValue([], v).failure.Some?
        then E.EncodeValue([], v).text else []
    {
      buffer := [];
      var err := E.CheckKindMatchesMode(KindOf(v), mode);
      if err.Some? {
        return Err(err.value);
      }
      if v == Null {
        return Ok(['!', 'n']);
      }
      err := EncodeValue([], v);
      if err.Some? {
        return Err(err.value);
      }
      var text := buffer;
      assert text == E.EncodeValue([], v).text;
      buffer := [];
      r := E.ConvertRisonToMode(text, mode);
    }
  }

  /** `Marshal` (and its alias `Encode`), given the value the JSON text decodes to. */
  method Marshal(v: Value, m: Mode) returns (r: Result<bytes, E.EncodeError>)
    ensures r == E.Encode(v, m)
  {
    var e := new Encoder(m);
    r := e.Encode(v);
  }
}
