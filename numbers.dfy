/**
 * The number syntax of section 6 of RFC 8259, which the decoder applies
 * (through `json.Unmarshal`) to the text its number scanner consumed.
 * It is defined twice: as the state machine a JSON scanner runs, one byte
 * at a time, and as the grammar the RFC writes; the two are proved to
 * accept the same texts.
 */
module Numbers {
  import opened Lexical
  import opened Results

  /** The states of a JSON scanner inside a number. */
  datatype NumberScan =
    | Begin       // nothing read yet
    | Minus       // after the sign
    | Zero        // the integer part is `0`
    | IntDigits   // inside an integer part that starts with 1-9
    | Dot         // after `.`
    | FracDigits  // inside the fraction
    | Exp         // after `e` or `E`
    | ExpSign     // after the exponent's sign
    | ExpDigits   // inside the exponent

  /** The scanner's move on byte `c`; `None` rejects the text. */
  function Step(st: NumberScan, c: byte): Option<NumberScan> {
    match st
    case Begin =>
      if c == '-' then Some(Minus)
      else if c == '0' then Some(Zero)
      else if IsDigit(c) then Some(IntDigits)
      else None
    case Minus =>
      if c == '0' then Some(Zero)
      else if IsDigit(c) then Some(IntDigits)
      else None
    case Zero =>
      if c == '.' then Some(Dot)
      else if c == 'e' || c == 'E' then Some(Exp)
      else None
    case IntDigits =>
      if IsDigit(c) then Some(IntDigits)
      else if c == '.' then Some(Dot)
      else if c == 'e' || c == 'E' then Some(Exp)
      else None
    case Dot =>
      if IsDigit(c) then Some(FracDigits) else None
    case FracDigits =>
      if IsDigit(c) then Some(FracDigits)
      else if c == 'e' || c == 'E' then Some(Exp)
      else None
    case Exp =>
      if c == '+' || c == '-' then Some(ExpSign)
      else if IsDigit(c) then Some(ExpDigits)
      else None
    case ExpSign =>
      if IsDigit(c) then Some(ExpDigits) else None
    case ExpDigits =>
      if IsDigit(c) then Some(ExpDigits) else None
  }

  /** The states in which a number may end. */
  predicate Accepting(st: NumberScan) {
    st == Zero || st == IntDigits || st == FracDigits || st == ExpDigits
  }

  /** The scanner, started in `st` at position `k`, reaches the end of `t` in an accepting state. */
  predicate Accepts(t: bytes, k: nat, st: NumberScan)
    requires k <= |t|
    decreases |t| - k
  {
    if k == |t| then Accepting(st)
    else
      match Step(st, t[k])
      case None => false
      case Some(next) => Accepts(t, k + 1, next)
  }

  /** `t` is a JSON number. */
  predicate IsJsonNumber(t: bytes) {
    Accepts(t, 0, Begin)
  }

  /** A number as Rison writes it: a JSON number without `+` and without `E`. */
  predicate IsRisonNumber(t: bytes) {
    IsJsonNumber(t) && forall k :: 0 <= k < |t| ==> t[k] != '+' && t[k] != 'E'
  }

  /** Every JSON number begins with a minus sign or a digit. */
  lemma JsonNumberStart(t: bytes)
    requires IsJsonNumber(t)
    ensures |t| > 0 && (t[0] == '-' || IsDigit(t[0]))
  {
  }

  // The grammar of section 6 of RFC 8259, written as the RFC writes it.

  /** The end of the run of digits that starts at `k`. */
  function DigitsEnd(t: bytes, k: nat): (r: nat)
    requires k <= |t|
    ensures k <= r <= |t|
    ensures forall j :: k <= j < r ==> IsDigit(t[j])
    ensures r < |t| ==> !IsDigit(t[r])
    decreases |t| - k
  {
    if k < |t| && IsDigit(t[k]) then DigitsEnd(t, k + 1) else k
  }

  /** `number = [ minus ] int [ frac ] [ exp ]` with `int = zero / ( digit1-9 *DIGIT )`. */
  predicate IsNumberByGrammar(t: bytes) {
    var a := if 0 < |t| && t[0] == '-' then 1 else 0;
    var b := DigitsEnd(t, a);
    a < b && (t[a] == '0' ==> b == a + 1) && FracThenExp(t, b)
  }

  /** `[ frac ] [ exp ]` from position `b` to the end, with `frac = "." 1*DIGIT`. */
  predicate FracThenExp(t: bytes, b: nat)
    requires b <= |t|
  {
    if b < |t| && t[b] == '.' then
      var c := DigitsEnd(t, b + 1);
      b + 1 < c && ExpToEnd(t, c)
    else
      ExpToEnd(t, b)
  }

  /** `[ exp ]` from position `c` to the end, with `exp = ( "e" / "E" ) [ minus / plus ] 1*DIGIT`. */
  predicate ExpToEnd(t: bytes, c: nat)
    requires c <= |t|
  {
    c == |t| ||
    ((t[c] == 'e' || t[c] == 'E') &&
     var f := if c + 1 < |t| && (t[c + 1] == '+' || t[c + 1] == '-') then c + 2 else c + 1;
     var g := DigitsEnd(t, f);
     f < g && g == |t|)
  }

  /** Inside the exponent's digits, the rest is accepted iff it is all digits. */
  lemma {:induction false} ExpDigitsRun(t: bytes, k: nat)
    requires k <= |t|
    ensures Accepts(t, k, ExpDigits) <==> DigitsEnd(t, k) == |t|
    decreases |t| - k
  {
    if k < |t| && IsDigit(t[k]) {
      ExpDigitsRun(t, k + 1);
    }
  }

  /** After `e` or `E` at position `c`, the scanner and the `exp` rule agree. */
  lemma {:induction false} ExpAgrees(t: bytes, c: nat)
    requires c < |t| && (t[c] == 'e' || t[c] == 'E')
    ensures Accepts(t, c + 1, Exp) <==> ExpToEnd(t, c)
  {
    var f := if c + 1 < |t| && (t[c + 1] == '+' || t[c + 1] == '-') then c + 2 else c + 1;
    if f < |t| && IsDigit(t[f]) {
      ExpDigitsRun(t, f + 1);
      assert DigitsEnd(t, f) == DigitsEnd(t, f + 1);
    }
  }

  /** Where a number may continue with an exponent or end, the scanner and the grammar agree. */
  lemma {:induction false} ExpOrEnd(t: bytes, k: nat, st: NumberScan)
    requires k <= |t| && (st == FracDigits || st == Zero || st == IntDigits)
    requires k < |t| ==> !IsDigit(t[k]) && (t[k] != '.' || st == FracDigits)
    ensures Accepts(t, k, st) <==> ExpToEnd(t, k)
  {
    if k < |t| && (t[k] == 'e' || t[k] == 'E') {
      ExpAgrees(t, k);
    }
  }

  /** Inside the fraction's digits, the scanner and the grammar agree. */
  lemma {:induction false} FracDigitsRun(t: bytes, k: nat)
    requires k <= |t|
    ensures Accepts(t, k, FracDigits) <==> ExpToEnd(t, DigitsEnd(t, k))
    decreases |t| - k
  {
    if k < |t| && IsDigit(t[k]) {
      FracDigitsRun(t, k + 1);
    } else {
      ExpOrEnd(t, k, FracDigits);
    }
  }

  /** After the integer part ending at `b`, the scanner and the `[ frac ] [ exp ]` rule agree. */
  lemma {:induction false} AfterInt(t: bytes, b: nat, st: NumberScan)
    requires b <= |t| && (st == Zero || st == IntDigits)
    requires b < |t| ==> !IsDigit(t[b])
    ensures Accepts(t, b, st) <==> FracThenExp(t, b)
  {
    if b < |t| && t[b] == '.' {
      if b + 1 < |t| && IsDigit(t[b + 1]) {
        FracDigitsRun(t, b + 2);
        assert DigitsEnd(t, b + 1) == DigitsEnd(t, b + 2);
      }
    } else {
      ExpOrEnd(t, b, st);
    }
  }

  /** Inside an integer part that starts with 1-9, the scanner and the grammar agree. */
  lemma {:induction false} IntDigitsRun(t: bytes, k: nat)
    requires k <= |t|
    ensures Accepts(t, k, IntDigits) <==> FracThenExp(t, DigitsEnd(t, k))
    decreases |t| - k
  {
    if k < |t| && IsDigit(t[k]) {
      IntDigitsRun(t, k + 1);
    } else {
      AfterInt(t, k, IntDigits);
    }
  }

  /** The scanner accepts exactly the texts the grammar of section 6 of RFC 8259 derives. */
  lemma {:induction false} ScannerMatchesGrammar(t: bytes)
    ensures IsJsonNumber(t) <==> IsNumberByGrammar(t)
  {
    var a := if 0 < |t| && t[0] == '-' then 1 else 0;
    if a < |t| && IsDigit(t[a]) {
      var st := if t[a] == '0' then Zero else IntDigits;
      assert Accepts(t, 0, Begin) <==> Accepts(t, a + 1, st);
      if t[a] == '0' {
        if a + 1 < |t| && IsDigit(t[a + 1]) {
          assert DigitsEnd(t, a) > a + 1;
          assert !Accepts(t, a + 1, Zero);
        } else {
          assert DigitsEnd(t, a) == a + 1;
          AfterInt(t, a + 1, Zero);
        }
      } else {
        IntDigitsRun(t, a + 1);
        assert DigitsEnd(t, a) == DigitsEnd(t, a + 1);
      }
    } else {
      assert DigitsEnd(t, a) == a;
      if a == 1 {
        assert Accepts(t, 0, Begin) == Accepts(t, 1, Minus);
      }
    }
  }
}
