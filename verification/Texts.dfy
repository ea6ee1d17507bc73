/** Text before the cursor as the composer handles it: dropping characters from its end,
being a suffix of it, and the word at its end. */
module Texts {
  import opened Utf8

  datatype Option<+T> = None | Some(value: T)

  /** `String::pop` done `n` times; popping an empty text leaves it empty. */
  function Drop(s: string, n: nat): (r: string)
    ensures |r| == if n <= |s| then |s| - n else 0
  {
    if n <= |s| then s[..|s| - n] else []
  }

  /** `v` is what the text `s` ends in. */
  predicate IsSuffix(v: string, s: string) {
    |v| <= |s| && s[|s| - |v|..] == v
  }

  lemma {:induction false} SuffixTransitive(u: string, v: string, w: string)
    requires IsSuffix(u, v) && IsSuffix(v, w)
    ensures IsSuffix(u, w)
  {
    assert v[|v| - |u|..] == w[|w| - |u|..];
  }

  lemma {:induction false} ShorterSuffix(u: string, v: string, w: string)
    requires IsSuffix(u, w) && IsSuffix(v, w) && |u| <= |v|
    ensures IsSuffix(u, v)
  {
    assert w[|w| - |v|..][|v| - |u|..] == w[|w| - |u|..];
  }

  /** One delete-tail-and-append edit, done to a text and to a text that ends in it. */
  lemma {:induction false} SuffixEdit(v: string, s: string, n: nat, t: string)
    requires IsSuffix(v, s)
    ensures IsSuffix(Drop(v, n) + t, Drop(s, n) + t)
  {
    if n <= |v| {
      assert s[..|s| - n][|s| - |v|..] == v[..|v| - n];
    }
  }

  lemma {:induction false} DropAppended(s: string, t: string, n: nat)
    ensures n >= |t| ==> Drop(s + t, n) == Drop(s, n - |t|)
    ensures n <= |t| ==> Drop(s + t, n) == s + Drop(t, n)
  {
  }

  predicate IsAscii(s: string) {
    forall c | c in s :: c as int < 0x80
  }

  /** In ASCII text, bytes are characters. */
  lemma {:induction false} AsciiOffsets(s: string)
    requires IsAscii(s)
    ensures ByteLen(s) == |s| && CharsWithin(s, |s|) == |s|
  {
    if s != "" {
      assert s[0] in s;
      assert forall c | c in s[1..] :: c in s;
      AsciiOffsets(s[1..]);
    }
  }

  lemma AsciiCut(text: string, n: nat)
    requires IsAscii(text) && n <= |text|
    ensures CharsWithin(text, n) == n && TextBefore(text, n) == text[..n] && |Encode(text)| == |text|
  {
    hide Encode;
    assert forall c <- text[..n] :: c in text;
    AsciiOffsets(text[..n]);
    AsciiOffsets(text);
    EncodeLength(text);
    OffsetOf(text, n);
  }

  predicate IsAsciiAlphabetic(c: char) {
    'a' <= c <= 'z' || 'A' <= c <= 'Z'
  }

  /** `char::is_whitespace`: the Unicode White_Space property. */
  predicate IsWhitespace(c: char) {
    var v := c as int;
    || 0x09 <= v <= 0x0D || v == 0x20 || v == 0x85 || v == 0xA0 || v == 0x1680
    || 0x2000 <= v <= 0x200A || v == 0x2028 || v == 0x2029 || v == 0x202F || v == 0x205F || v == 0x3000
  }

  const PUNCTUATION := ".,;:!?\"'()[]{}/\\|\U{201C}\U{201D}\U{2018}\U{2019}\U{2026}"

  predicate IsWordBoundary(c: char) {
    IsWhitespace(c) || c == '\0' || c in PUNCTUATION
  }

  /** Where the word at the end of `s` starts. */
  function WordStart(s: string): (k: nat)
    ensures k <= |s|
  {
    if s == [] || IsWordBoundary(s[|s| - 1]) then |s| else WordStart(s[..|s| - 1])
  }

  function CurrentWord(s: string): string {
    s[WordStart(s)..]
  }

  function CurrentWordBeforeCursor(text: string, cursor: nat): string {
    CurrentWord(TextBefore(text, cursor))
  }

  /** The current word is the longest suffix of the text that holds no boundary character. */
  lemma {:induction false} CurrentWordIsLongest(s: string)
    ensures IsSuffix(CurrentWord(s), s)
    ensures forall c | c in CurrentWord(s) :: !IsWordBoundary(c)
    ensures WordStart(s) > 0 ==> IsWordBoundary(s[WordStart(s) - 1])
  {
    if s != [] && !IsWordBoundary(s[|s| - 1]) {
      CurrentWordIsLongest(s[..|s| - 1]);
      assert CurrentWord(s) == CurrentWord(s[..|s| - 1]) + [s[|s| - 1]];
    }
  }
}
