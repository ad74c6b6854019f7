/** The string primitives the JavaScript sources rely on: the white-space
    set that `String.prototype.trim` and `parseFloat` skip, trimming itself,
    and decimal digit strings (read by `parseFloat`, written by `toFixed`). */
module JsString {

  /** ECMAScript WhiteSpace and LineTerminator code points. Below U+00A0:
      TAB, LF, VT, FF, CR (U+0009 to U+000D) and SPACE; from U+00A0 on:
      NBSP, the other Unicode "Zs" code points (U+1680, U+2000 to U+200A,
      U+202F, U+205F, U+3000), LS, PS and ZWNBSP. */
  predicate IsWhiteSpace(c: char) {
    if c < '\U{A0}' then ('\U{9}' <= c <= '\U{D}') || c == ' '
    else
      || c == '\U{A0}' || c == '\U{1680}' || ('\U{2000}' <= c <= '\U{200A}')
      || c == '\U{2028}' || c == '\U{2029}' || c == '\U{202F}' || c == '\U{205F}'
      || c == '\U{3000}' || c == '\U{FEFF}'
  }

  predicate AllWhiteSpace(s: string) {
    forall i :: 0 <= i < |s| ==> IsWhiteSpace(s[i])
  }

  /** Number of white-space characters at the front of `s`. */
  function LeadingWhiteSpace(s: string): (n: nat)
    ensures n <= |s|
    ensures forall i :: 0 <= i < n ==> IsWhiteSpace(s[i])
    ensures n < |s| ==> !IsWhiteSpace(s[n])
  {
    if |s| == 0 || !IsWhiteSpace(s[0]) then 0
    else 1 + LeadingWhiteSpace(s[1..])
  }

  /** Number of white-space characters at the back of `s`. */
  function TrailingWhiteSpace(s: string): (n: nat)
    ensures n <= |s|
    ensures forall i :: |s| - n <= i < |s| ==> IsWhiteSpace(s[i])
    ensures n < |s| ==> !IsWhiteSpace(s[|s| - n - 1])
  {
    if |s| == 0 || !IsWhiteSpace(s[|s| - 1]) then 0
    else 1 + TrailingWhiteSpace(s[..|s| - 1])
  }

  /** A string with no white space at either end: what trimming produces. */
  predicate IsTrimmed(s: string) {
    |s| == 0 || (!IsWhiteSpace(s[0]) && !IsWhiteSpace(s[|s| - 1]))
  }

  /** The white-space prefix of `s`, exactly as long as `n` says, is `n` long. */
  lemma LeadingWhiteSpaceUnique(s: string, k: nat)
    requires k <= |s| && forall i :: 0 <= i < k ==> IsWhiteSpace(s[i])
    requires k < |s| ==> !IsWhiteSpace(s[k])
    ensures LeadingWhiteSpace(s) == k
  {
  }

  lemma TrailingWhiteSpaceUnique(s: string, k: nat)
    requires k <= |s| && forall i :: |s| - k <= i < |s| ==> IsWhiteSpace(s[i])
    requires k < |s| ==> !IsWhiteSpace(s[|s| - k - 1])
    ensures TrailingWhiteSpace(s) == k
  {
  }

  /** `String.prototype.trimStart` (also the first step of `parseFloat`). */
  function TrimStart(s: string): (r: string)
    ensures |r| <= |s| && AllWhiteSpace(s[..|s| - |r|]) && s[|s| - |r|..] == r
    ensures |r| > 0 ==> !IsWhiteSpace(r[0])
  {
    s[LeadingWhiteSpace(s)..]
  }

  /** `String.prototype.trim`: `s` is a white-space prefix, the result, and a
      white-space suffix, and the result has no white space at either end. */
  function Trim(s: string): (r: string)
    ensures IsTrimmed(r)
    ensures var i := LeadingWhiteSpace(s);
      && i + |r| <= |s|
      && AllWhiteSpace(s[..i]) && s[i..i + |r|] == r && AllWhiteSpace(s[i + |r|..])
  {
    var t := s[LeadingWhiteSpace(s)..];
    var r := t[..|t| - TrailingWhiteSpace(t)];
    assert |r| > 0 ==> r[0] == t[0];
    r
  }

  /** Trimming is determined by the decomposition: padding `core` on both
      sides with white space and trimming gives `core` back. */
  lemma {:induction false} TrimOfPadded(pre: string, core: string, post: string)
    requires AllWhiteSpace(pre) && AllWhiteSpace(post) && IsTrimmed(core)
    ensures Trim(pre + core + post) == core
  {
    var s := pre + core + post;
    if |core| == 0 {
      assert s == pre + post;
      AllWhiteSpaceAppend(pre, post);
      assert s[..|s|] == s;
      LeadingWhiteSpaceUnique(s, |s|);
      assert s[|s|..] == [];
    } else {
      assert s[..|pre|] == pre;
      assert s[|pre|] == core[0];
      LeadingWhiteSpaceUnique(s, |pre|);
      var t := s[|pre|..];
      assert t == core + post;
      assert t[|t| - |post|..] == post;
      assert t[|t| - |post| - 1] == core[|core| - 1];
      TrailingWhiteSpaceUnique(t, |post|);
      assert t[..|t| - |post|] == core;
    }
  }

  lemma AllWhiteSpaceAppend(a: string, b: string)
    requires AllWhiteSpace(a) && AllWhiteSpace(b)
    ensures AllWhiteSpace(a + b)
  {
    forall k | 0 <= k < |a + b| ensures IsWhiteSpace((a + b)[k]) {
      if k < |a| { assert (a + b)[k] == a[k]; } else { assert (a + b)[k] == b[k - |a|]; }
    }
  }

  lemma ConcatAssoc(p: string, a: string, c: string, b: string, q: string)
    ensures p + (a + c + b) + q == (p + a) + c + (b + q)
  {
  }

  /** Leading and trailing white space never changes what `trim` returns. */
  lemma TrimIgnoresPadding(pre: string, s: string, post: string)
    requires AllWhiteSpace(pre) && AllWhiteSpace(post)
    ensures Trim(pre + s + post) == Trim(s)
  {
    var core := Trim(s);
    var i := LeadingWhiteSpace(s);
    var j := i + |core|;
    var a, b := s[..i], s[j..];
    assert s == a + core + b;
    var pa, bp := pre + a, b + post;
    AllWhiteSpaceAppend(pre, a);
    AllWhiteSpaceAppend(b, post);
    ConcatAssoc(pre, a, core, b, post);
    TrimOfPadded(pa, core, bp);
  }

  /** Trimming twice is trimming once. */
  lemma TrimIdempotent(s: string)
    ensures Trim(Trim(s)) == Trim(s)
  {
    TrimOfPadded([], Trim(s), []);
    assert [] + Trim(s) + [] == Trim(s);
  }

  predicate IsDigit(c: char) {
    '0' <= c <= '9'
  }

  predicate AllDigits(s: string) {
    forall i :: 0 <= i < |s| ==> IsDigit(s[i])
  }

  function DigitValue(c: char): (d: nat)
    requires IsDigit(c)
    ensures d < 10
  {
    c as int - '0' as int
  }

  function DigitChar(d: nat): (c: char)
    requires d < 10
    ensures IsDigit(c) && DigitValue(c) == d
  {
    ('0' as int + d) as char
  }

  /** Number of decimal digits at the front of `s`. */
  function LeadingDigits(s: string): (n: nat)
    ensures n <= |s|
    ensures forall i :: 0 <= i < n ==> IsDigit(s[i])
    ensures n < |s| ==> !IsDigit(s[n])
  {
    if |s| == 0 || !IsDigit(s[0]) then 0
    else 1 + LeadingDigits(s[1..])
  }

  lemma LeadingDigitsUnique(s: string, k: nat)
    requires k <= |s| && forall i :: 0 <= i < k ==> IsDigit(s[i])
    requires k < |s| ==> !IsDigit(s[k])
    ensures LeadingDigits(s) == k
  {
  }

  /** The value of a decimal digit string, most significant digit first. */
  function DigitsValue(s: string): nat
    requires AllDigits(s)
  {
    if |s| == 0 then 0 else 10 * DigitsValue(s[..|s| - 1]) + DigitValue(s[|s| - 1])
  }

  /** The shortest decimal spelling of `n`: non-empty, digits only, no
      leading zero, and it reads back as `n`. */
  function NatToDigits(n: nat): (s: string)
    ensures |s| > 0 && AllDigits(s)
    ensures |s| > 1 ==> s[0] != '0'
    ensures DigitsValue(s) == n
  {
    if n < 10 then [DigitChar(n)]
    else
      var s := NatToDigits(n / 10) + [DigitChar(n % 10)];
      assert s[..|s| - 1] == NatToDigits(n / 10);
      s
  }
}
