/**
  Character classes and string helpers shared by both versions of the
  currency converter: ASCII digits for the amount grammar, the whitespace
  that String.prototype.trim removes, and ASCII lower-casing for flag codes.
 */
module Common {

  /** A value that may be absent; stands for the `null` the view state uses. */
  datatype Option<+T> = None | Some(value: T)

  /** `\d` in a JavaScript regular expression without the `u` flag: an ASCII digit. */
  predicate IsDigit(c: char) {
    '0' <= c <= '9'
  }

  predicate AllDigits(s: string) {
    forall i :: 0 <= i < |s| ==> IsDigit(s[i])
  }

  /** The WhiteSpace and LineTerminator code points of ECMAScript, which `trim` removes. */
  predicate IsSpace(c: char) {
    var n := c as int;
    || n == 0x09 || n == 0x0A || n == 0x0B || n == 0x0C || n == 0x0D
    || n == 0x20 || n == 0xA0 || n == 0x1680
    || (0x2000 <= n <= 0x200A)
    || n == 0x2028 || n == 0x2029 || n == 0x202F || n == 0x205F
    || n == 0x3000 || n == 0xFEFF
  }

  predicate AllSpace(s: string) {
    forall i :: 0 <= i < |s| ==> IsSpace(s[i])
  }

  /** Length of the longest prefix of `s` whose characters all satisfy `p`. */
  function Span(s: string, p: char -> bool): (n: nat)
    ensures n <= |s|
    ensures forall i :: 0 <= i < n ==> p(s[i])
    ensures n < |s| ==> !p(s[n])
  {
    if s == [] || !p(s[0]) then 0 else 1 + Span(s[1..], p)
  }

  /** Length of the longest suffix of `s` whose characters all satisfy `p`. */
  function SpanBack(s: string, p: char -> bool): (n: nat)
    ensures n <= |s|
    ensures forall i :: |s| - n <= i < |s| ==> p(s[i])
    ensures n < |s| ==> !p(s[|s| - 1 - n])
  {
    if s == [] || !p(s[|s| - 1]) then 0 else 1 + SpanBack(s[..|s| - 1], p)
  }

  /** A prefix of length `k` that satisfies `p` throughout and cannot be extended is the span. */
  lemma SpanUnique(s: string, p: char -> bool, k: nat)
    requires k <= |s|
    requires forall i :: 0 <= i < k ==> p(s[i])
    requires k < |s| ==> !p(s[k])
    ensures Span(s, p) == k
  {
  }

  /** String.prototype.trim: `s` without its leading and trailing whitespace. */
  function Trim(s: string): (t: string)
    ensures |t| <= |s|
    ensures t == [] <==> AllSpace(s)
    ensures t != [] ==> !IsSpace(t[0]) && !IsSpace(t[|t| - 1])
    ensures s != [] && !IsSpace(s[0]) && !IsSpace(s[|s| - 1]) ==> t == s
  {
    var lo := Span(s, IsSpace);
    var hi := |s| - SpanBack(s, IsSpace);
    if lo < hi then
      s[lo..hi]
    else
      assert AllSpace(s);
      []
  }

  /**
    `Trim(s)` is `s` with a run of whitespace cut from each end; together
    with `Trim`'s own contract (no whitespace left at either end) this
    pins it down as the text `trim` returns.
   */
  lemma TrimCutsOuterSpace(s: string)
    ensures var t := Trim(s);
      exists i :: 0 <= i && i + |t| <= |s| && t == s[i..i + |t|] && AllSpace(s[..i]) && AllSpace(s[i + |t|..])
  {
    var lo := Span(s, IsSpace);
    var hi := |s| - SpanBack(s, IsSpace);
    if lo < hi {
      assert Trim(s) == s[lo..hi];
      assert AllSpace(s[..lo]) && AllSpace(s[hi..]);
    } else {
      assert AllSpace(s);
      assert s[..0] == [] && s[0..] == s;
    }
  }

  /** The ASCII part of String.prototype.toLowerCase. */
  function LowerAscii(c: char): char {
    if 'A' <= c <= 'Z' then (c as int + 32) as char else c
  }
}
