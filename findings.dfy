/**
 * The loop of `parseQuotedString` as decoder.go writes it. After a `!` it
 * reads the next byte without checking that one is left, so a quoted
 * string whose last byte is a lone `!` reads past the end of the input (a
 * run-time panic in Go). `DecoderSpec.QuotedLoop` is the corrected loop,
 * which reports the missing escaped byte instead; the rest of the model
 * uses it. This module relates the two.
 */
module Findings {
  import opened Lexical
  import opened Results
  import opened Values
  import opened Diagnostics
  import opened DecoderSpec

  /** What a call of the loop does: return a result, or index past the end of the input. */
  datatype Outcome = Returned(result: ParseResult) | IndexOutOfRange(index: nat)

  /**
   * The loop as written: `open` is the cursor after the opening quote, `i`
   * the scan position, `acc` the unescaped text so far and `s[start..i]`
   * the plain bytes not yet copied into it (the source copies them only
   * when there are some, which appends the same bytes).
   */
  function QuotedLoopAsWritten(s: bytes, open: nat, i: nat, start: nat, acc: bytes): Outcome
    requires 1 <= open <= start <= i <= |s|
    decreases |s| - i
  {
    if |s| <= i then Returned(Err(Error(s, open, 0, Unmatched("'"))))
    else if s[i] == '\'' then Returned(Ok(Parsed(String(acc + s[start..i]), i + 1)))
    else if s[i] == '!' then
      if |s| <= i + 1 then IndexOutOfRange(i + 1)
      else if s[i + 1] == '!' || s[i + 1] == '\'' then
        QuotedLoopAsWritten(s, open, i + 2, i + 2, acc + s[start..i] + [s[i + 1]])
      else Returned(Err(Error(s, open, -1, InvalidStringEscape(s[i + 1]))))
    else QuotedLoopAsWritten(s, open, i + 1, start, acc)
  }

  /**
   * The loop as written and the corrected loop agree on every input where
   * the former returns, and the former reads past the end exactly where
   * the latter reports a missing byte after `!`.
   */
  lemma {:induction false} AsWrittenAgrees(s: bytes, open: nat, i: nat, start: nat, acc: bytes)
    requires 1 <= open <= start <= i <= |s|
    ensures QuotedLoopAsWritten(s, open, i, start, acc).Returned? ==>
      QuotedLoopAsWritten(s, open, i, start, acc).result == QuotedLoop(s, open, i, start, acc)
    ensures QuotedLoopAsWritten(s, open, i, start, acc).IndexOutOfRange? <==>
      QuotedLoop(s, open, i, start, acc) == Err(ParseError(MissingCharacterAfterEscape, open - 1))
    decreases |s| - i
  {
    if |s| <= i {
    } else if s[i] == '\'' {
    } else if s[i] == '!' {
      if |s| <= i + 1 {
      } else if s[i + 1] == '!' || s[i + 1] == '\'' {
        AsWrittenAgrees(s, open, i + 2, i + 2, acc + s[start..i] + [s[i + 1]]);
      }
    } else {
      AsWrittenAgrees(s, open, i + 1, start, acc);
    }
  }

  /**
   * The input `'a!`: the loop as written indexes byte 3 of a 3-byte input,
   * while the corrected loop, and so `Decode`, report the missing escaped
   * byte at the opening quote.
   */
  lemma LoneBangAtEnd()
    ensures QuotedLoopAsWritten(['\'', 'a', '!'], 1, 1, 1, []) == IndexOutOfRange(3)
    ensures Decode(['\'', 'a', '!']) == Err(ParseError(MissingCharacterAfterEscape, 0))
  {
    var s: bytes := ['\'', 'a', '!'];
    assert QuotedLoop(s, 1, 2, 1, []) == Err(ParseError(MissingCharacterAfterEscape, 0));
    assert ReadValue(s, 0, false) == ParseQuotedString(s, 1);
  }
}
