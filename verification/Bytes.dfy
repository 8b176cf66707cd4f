/** Bytes, byte strings and the character classes the program tests. */
module Bytes {
  /**
   * One byte, written as the character with that code so that literals keep their usual
   * spelling. No result depends on the codes stopping at 255.
   */
  type byte = char

  type Text = seq<byte>

  datatype Option<+T> = None | Some(value: T)

  /** The byte at index i, or NUL outside the text, as a one-byte lookahead reports it. */
  function At(b: Text, i: int): (c: byte) {
    if 0 <= i < |b| then b[i] else '\0'
  }

  predicate IsDigit(c: byte) { '0' <= c <= '9' }

  predicate IsAlpha(c: byte) { 'a' <= c <= 'z' || 'A' <= c <= 'Z' }

  predicate IsLetDig(c: byte) { IsDigit(c) || IsAlpha(c) }

  predicate IsLdh(c: byte) { IsLetDig(c) || c == '-' }

  /** atext of RFC 5322, as used for atoms. */
  predicate IsAtext(c: byte) {
    || IsLetDig(c)
    || c == '!' || c == '#' || c == '$' || c == '%' || c == '&' || c == '\''
    || c == '*' || c == '+' || c == '-' || c == '/' || c == '=' || c == '?'
    || c == '^' || c == '_' || c == '`' || c == '{' || c == '|' || c == '}' || c == '~'
  }

  /** Printable ASCII with the space: bytes 32 to 126. */
  predicate IsPrintable(c: byte) { ' ' <= c <= '~' }

  /** qtextSMTP: printable, but neither a double quote nor a backslash. */
  predicate IsQtext(c: byte) { IsPrintable(c) && c != '"' && c != '\\' }

  /** One byte of an esmtp-value: bytes 33 to 126 other than the equals sign. */
  predicate IsEsmtpValue(c: byte) { '!' <= c <= '~' && c != '=' }

  /** The bytes an IPv6 literal is collected from. */
  predicate IsIpv6Byte(c: byte) {
    IsDigit(c) || 'A' <= c <= 'F' || 'a' <= c <= 'f' || c == ':' || c == '.'
  }

  ghost predicate Every(p: byte -> bool, s: Text) {
    forall k :: 0 <= k < |s| ==> p(s[k])
  }

  /** The end of the longest run of bytes satisfying p that starts at index i. */
  function Run(p: byte -> bool, b: Text, i: int): (e: int)
    ensures i <= e
    ensures e == i || 0 <= i < e <= |b|
    ensures forall k :: i <= k < e ==> p(b[k])
    ensures 0 <= e < |b| ==> !p(b[e])
    decreases |b| - i
  {
    if 0 <= i < |b| && p(b[i]) then Run(p, b, i + 1) else i
  }

  /** The run is determined by its bytes and the byte after it. */
  lemma RunIs(p: byte -> bool, b: Text, i: nat, e: nat)
    requires i <= e <= |b|
    requires forall k :: i <= k < e ==> p(b[k])
    requires e < |b| ==> !p(b[e])
    ensures Run(p, b, i) == e
  {
  }

  function LowerByte(c: byte): (r: byte) {
    if 'A' <= c <= 'Z' then (c as int + 32) as char else c
  }

  /** ASCII lower case. */
  function Lower(s: Text): (r: Text)
    ensures |r| == |s|
    ensures forall k :: 0 <= k < |s| ==> r[k] == LowerByte(s[k])
  {
    if s == [] then [] else [LowerByte(s[0])] + Lower(s[1..])
  }

  predicate HasPrefix(s: Text, prefix: Text) { prefix <= s }

  /** The same byte, or the same ASCII letter in the other case. */
  predicate EitherCase(c: byte, d: byte) {
    || c == d
    || ('a' <= d <= 'z' && c as int == d as int - 32)
    || ('A' <= d <= 'Z' && c as int == d as int + 32)
  }

  /** The text begins with this word, in letters of any case. */
  ghost predicate BeginsAnyCase(s: Text, word: Text) {
    |word| <= |s| && forall k :: 0 <= k < |word| ==> EitherCase(s[k], word[k])
  }

  lemma LowerPrefix(s: Text, word: Text)
    requires forall k :: 0 <= k < |word| ==> !('A' <= word[k] <= 'Z')
    ensures HasPrefix(Lower(s), word) <==> BeginsAnyCase(s, word)
  {
    var low := Lower(s);
    if HasPrefix(low, word) {
      forall k | 0 <= k < |word| ensures EitherCase(s[k], word[k]) {
        assert low[k] == word[k];
      }
    }
    if BeginsAnyCase(s, word) {
      forall k | 0 <= k < |word| ensures low[k] == word[k] {
        assert EitherCase(s[k], word[k]);
      }
    }
  }

  /** `text` stands in b from index i on. */
  ghost predicate StandsAt(b: Text, i: int, text: Text) {
    0 <= i && i + |text| <= |b| && forall k :: 0 <= k < |text| ==> b[i + k] == text[k]
  }

  lemma SliceJoin(b: Text, i: nat, j: nat, k: nat)
    requires i <= j < k <= |b|
    ensures b[i..j] + [b[j]] + b[j + 1..k] == b[i..k]
  {
  }
}
