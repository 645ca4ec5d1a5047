/**
 * The pure parts of the command-line front end `src/main.rs`: converting a UTF-8
 * byte offset of the input line into a char offset (for error labels), and the
 * condition under which the "reduction limit reached" warning is shown.
 */
module Cli {
  import opened Terms
  import opened Reduce
  import opened Normal
  import opened BetaReduce

  /** `char::len_utf8`: the number of bytes of a scalar value in UTF-8. */
  function Utf8Len(c: char): (n: nat)
    ensures 1 <= n <= 4
    ensures n == 1 <==> (c as int) < 0x80
  {
    if (c as int) < 0x80 then 1
    else if (c as int) < 0x800 then 2
    else if (c as int) < 0x1_0000 then 3
    else 4
  }

  /** The UTF-8 length of a string in bytes. */
  function ByteLen(s: string): (n: nat)
    ensures n >= |s|
  {
    if |s| == 0 then 0 else Utf8Len(s[0]) + ByteLen(s[1..])
  }

  /**
   * The char index containing byte `b`: the first char whose last byte lies at or
   * after `b`, or the number of chars when `b` is past the end.
   */
  function CharIndex(b: nat, s: string): nat
  {
    if |s| == 0 then 0
    else if b < Utf8Len(s[0]) then 0
    else 1 + CharIndex(b - Utf8Len(s[0]), s[1..])
  }

  /**
   * `into_char_index(byte_index, source)`: walk the chars adding up their byte
   * lengths; the first char whose running end exceeds the byte index is the answer,
   * and the total char count if none does.
   */
  method IntoCharIndex(byteIndex: nat, source: string) returns (index: nat)
    ensures index == CharIndex(byteIndex, source)
  {
    var bytes := 0;
    var i := 0;
    while i < |source|
      invariant 0 <= i <= |source|
      invariant bytes <= byteIndex
      invariant CharIndex(byteIndex, source) == i + CharIndex(byteIndex - bytes, source[i..])
    {
      assert source[i..][1..] == source[i + 1..];
      bytes := bytes + Utf8Len(source[i]);
      if byteIndex < bytes {
        return i;
      }
      i := i + 1;
    }
    return |source|;
  }

  /** A byte range of the input line, or the char range it becomes. */
  datatype Span = Span(start: nat, end: nat)

  /** `into_char_span`: both ends converted independently. */
  method IntoCharSpan(byteSpan: Span, source: string) returns (charSpan: Span)
    ensures charSpan == Span(CharIndex(byteSpan.start, source), CharIndex(byteSpan.end, source))
  {
    var start := IntoCharIndex(byteSpan.start, source);
    var end := IntoCharIndex(byteSpan.end, source);
    charSpan := Span(start, end);
  }

  /** The byte offset at which char `i` starts. */
  lemma {:induction false} ByteLenPrefix(s: string, i: nat)
    requires i < |s|
    ensures ByteLen(s[..i + 1]) == ByteLen(s[..i]) + Utf8Len(s[i])
  {
    if i == 0 {
      assert s[..1][1..] == [];
    } else {
      ByteLenPrefix(s[1..], i - 1);
      assert s[..i + 1][1..] == s[1..][..i];
      assert s[..i][1..] == s[1..][..i - 1];
    }
  }

  /**
   * The result is at most the char count; below it, the result is the char whose
   * bytes contain `b`; it equals the char count exactly when `b` is past the end.
   */
  lemma {:induction false} CharIndexSpec(b: nat, s: string)
    ensures CharIndex(b, s) <= |s|
    ensures CharIndex(b, s) == |s| <==> ByteLen(s) <= b
    ensures var i := CharIndex(b, s);
      i < |s| ==> ByteLen(s[..i]) <= b < ByteLen(s[..i]) + Utf8Len(s[i])
  {
    if |s| > 0 && b >= Utf8Len(s[0]) {
      var rest := s[1..];
      CharIndexSpec(b - Utf8Len(s[0]), rest);
      var j := CharIndex(b - Utf8Len(s[0]), rest);
      if j < |rest| {
        assert s[..j + 1][1..] == rest[..j];
      }
    }
  }

  /** A byte offset where char `i` starts converts back to `i`. */
  lemma {:induction false} CharIndexOfCharStart(s: string, i: nat)
    requires i <= |s|
    ensures CharIndex(ByteLen(s[..i]), s) == i
  {
    if 0 < i {
      assert s[..i][1..] == s[1..][..i - 1];
      CharIndexOfCharStart(s[1..], i - 1);
    } else if |s| > 0 {
      assert s[..i] == [];
    }
  }

  /** On an all-ASCII line bytes and chars coincide: the result is `min(b, |s|)`. */
  lemma {:induction false} CharIndexAscii(b: nat, s: string)
    requires forall k :: 0 <= k < |s| ==> (s[k] as int) < 0x80
    ensures CharIndex(b, s) == if b < |s| then b else |s|
  {
    if |s| > 0 && b >= 1 {
      CharIndexAscii(b - 1, s[1..]);
    }
  }

  /** A later byte is never in an earlier char, so converted spans stay ordered. */
  lemma {:induction false} CharIndexMonotone(b: nat, b': nat, s: string)
    requires b <= b'
    ensures CharIndex(b, s) <= CharIndex(b', s)
  {
    if |s| > 0 && b >= Utf8Len(s[0]) {
      CharIndexMonotone(b - Utf8Len(s[0]), b' - Utf8Len(s[0]), s[1..]);
    }
  }

  // ---------------------------------------------------------------------------
  // The reduction-limit warning
  // ---------------------------------------------------------------------------

  /** The front end warns that the limit was reached when the count is at least the limit. */
  predicate LimitReached(count: nat, limit: nat)
  {
    count >= limit
  }

  /**
   * Given what `beta_reduced_limit` promises, the warning appears exactly when the
   * count equals the limit, and its absence means the printed term is a normal form.
   */
  lemma LimitWarning<T>(t: Term<T>, limit: nat, count: nat)
    requires LimitOutcome(NormalStep, FromClassic(t), limit, count)
    ensures LimitReached(count, limit) <==> count == limit
    ensures !LimitReached(count, limit) ==> !HasRedex(Iterate(NormalStep, FromClassic(t), count))
    ensures LimitReached(count, limit) ==> forall i :: 0 <= i < limit ==> HasRedex(Iterate(NormalStep, FromClassic(t), i))
  {
  }
}
