/** UTF-8 as RFC 3629, section 3 defines it, for texts of Unicode scalar values.

A Rust `str` is modelled by a Dafny `string`, whose `char`s are the scalar values;
its byte offsets are offsets into `Encode` of that string.  Nothing here assumes that a
byte offset falls on a character: `IsCharBoundary` reads the bytes, as the source does. */
module Utf8 {
  newtype byte = b: int | 0 <= b < 256

  function Width(c: char): (w: nat)
    ensures 1 <= w <= 4
  {
    var v := c as int;
    if v < 0x80 then 1 else if v < 0x800 then 2 else if v < 0x1_0000 then 3 else 4
  }

  predicate IsContinuation(b: byte) {
    0x80 <= b < 0xC0
  }

  function EncodeChar(c: char): (bytes: seq<byte>)
    ensures |bytes| == Width(c)
    ensures !IsContinuation(bytes[0])
    ensures forall i | 1 <= i < |bytes| :: IsContinuation(bytes[i])
  {
    var v := c as int;
    if v < 0x80 then
      [v as byte]
    else if v < 0x800 then
      [(0xC0 + v / 0x40) as byte, (0x80 + v % 0x40) as byte]
    else if v < 0x1_0000 then
      [(0xE0 + v / 0x1000) as byte, (0x80 + v / 0x40 % 0x40) as byte, (0x80 + v % 0x40) as byte]
    else
      [(0xF0 + v / 0x4_0000) as byte, (0x80 + v / 0x1000 % 0x40) as byte,
       (0x80 + v / 0x40 % 0x40) as byte, (0x80 + v % 0x40) as byte]
  }

  function Encode(s: string): seq<byte> {
    if s == [] then [] else EncodeChar(s[0]) + Encode(s[1..])
  }

  function ByteLen(s: string): nat {
    if s == [] then 0 else Width(s[0]) + ByteLen(s[1..])
  }

  /** `str::is_char_boundary`: either end, or a byte that does not continue a character. */
  predicate IsCharBoundary(s: string, i: nat) {
    i == 0 || i == ByteLen(s) || (i < |Encode(s)| && !IsContinuation(Encode(s)[i]))
  }

  /** How many whole characters fit in the first `i` bytes. */
  function CharsWithin(s: string, i: nat): (k: nat)
    ensures k <= |s|
  {
    if s == [] || i < Width(s[0]) then 0 else 1 + CharsWithin(s[1..], i - Width(s[0]))
  }

  /** `text_before_cursor`: the text before the last character boundary at or before `cursor`. */
  function TextBefore(text: string, cursor: nat): string {
    text[..CharsWithin(text, cursor)]
  }

  lemma EncodeLength(s: string)
    ensures |Encode(s)| == ByteLen(s)
  {
  }

  lemma {:induction false} EncodeConcat(a: string, b: string)
    ensures Encode(a + b) == Encode(a) + Encode(b)
    ensures ByteLen(a + b) == ByteLen(a) + ByteLen(b)
  {
    if a == [] {
      assert a + b == b;
    } else {
      assert (a + b)[1..] == a[1..] + b;
      EncodeConcat(a[1..], b);
    }
  }

  /** The width that a lead byte announces (RFC 3629, section 3). */
  function LeadWidth(b: byte): nat {
    if b < 0x80 then 1 else if b < 0xE0 then 2 else if b < 0xF0 then 3 else 4
  }

  /** The scalar value that a character's bytes spell. */
  function Scalar(bytes: seq<byte>): int
    requires 1 <= |bytes| <= 4
  {
    if |bytes| == 1 then
      bytes[0] as int
    else if |bytes| == 2 then
      (bytes[0] as int - 0xC0) * 0x40 + (bytes[1] as int - 0x80)
    else if |bytes| == 3 then
      (bytes[0] as int - 0xE0) * 0x1000 + (bytes[1] as int - 0x80) * 0x40 + (bytes[2] as int - 0x80)
    else
      (bytes[0] as int - 0xF0) * 0x4_0000 + (bytes[1] as int - 0x80) * 0x1000
      + (bytes[2] as int - 0x80) * 0x40 + (bytes[3] as int - 0x80)
  }

  lemma {:induction false} Sextets(v: int)
    requires 0 <= v
    ensures v == v / 0x1000 * 0x1000 + v / 0x40 % 0x40 * 0x40 + v % 0x40
    ensures v / 0x1000 == v / 0x4_0000 * 0x40 + v / 0x1000 % 0x40
  {
    assert v / 0x1000 == v / 0x40 / 0x40;
    assert v / 0x4_0000 == v / 0x1000 / 0x40;
  }

  /** Decoding a character's bytes gives the character back. */
  lemma {:induction false} CharRoundTrip(c: char)
    ensures LeadWidth(EncodeChar(c)[0]) == Width(c)
    ensures Scalar(EncodeChar(c)) == c as int
  {
    Sextets(c as int);
  }

  /** No two texts share their bytes. */
  lemma {:induction false} EncodeInjective(a: string, b: string)
    requires Encode(a) == Encode(b)
    ensures a == b
  {
    EncodeLength(a);
    EncodeLength(b);
    if a != [] && b != [] {
      var x, y := EncodeChar(a[0]), EncodeChar(b[0]);
      assert x[0] == Encode(a)[0] == Encode(b)[0] == y[0];
      CharRoundTrip(a[0]);
      CharRoundTrip(b[0]);
      assert x == Encode(a)[..|x|] && y == Encode(b)[..|y|];
      assert Encode(a[1..]) == Encode(a)[|x|..] && Encode(b[1..]) == Encode(b)[|y|..];
      EncodeInjective(a[1..], b[1..]);
      assert a == [a[0]] + a[1..] && b == [b[0]] + b[1..];
    }
  }

  /** The byte offset of character `k` splits the bytes where it splits the characters. */
  lemma {:induction false} SplitAt(s: string, k: nat)
    requires k <= |s|
    ensures |Encode(s)| == ByteLen(s) == ByteLen(s[..k]) + ByteLen(s[k..])
    ensures Encode(s)[..ByteLen(s[..k])] == Encode(s[..k])
    ensures Encode(s)[ByteLen(s[..k])..] == Encode(s[k..])
  {
    assert s == s[..k] + s[k..];
    EncodeConcat(s[..k], s[k..]);
    EncodeLength(s);
    EncodeLength(s[..k]);
  }

  /** The offset of character `k` is a boundary, and exactly `k` characters fit before it. */
  lemma {:induction false} OffsetOf(s: string, k: nat)
    requires k <= |s|
    ensures CharsWithin(s, ByteLen(s[..k])) == k
    ensures IsCharBoundary(s, ByteLen(s[..k]))
  {
    SplitAt(s, k);
    if k < |s| {
      assert Encode(s[k..])[0] == EncodeChar(s[k])[0];
      EncodeLength(s[k..]);
      assert Encode(s)[ByteLen(s[..k])] == Encode(s[k..])[0];
    } else {
      assert s[..k] == s;
    }
    if k > 0 {
      OffsetOf(s[1..], k - 1);
      assert s[..k][1..] == s[1..][..k - 1];
    }
  }

  /** `CharsWithin` is the floor: its offset is the last one not after `i`. */
  lemma {:induction false} FloorOffset(s: string, i: nat)
    ensures ByteLen(TextBefore(s, i)) <= i
    ensures CharsWithin(s, i) < |s| ==> i < ByteLen(s[..CharsWithin(s, i) + 1])
    ensures i >= ByteLen(s) ==> TextBefore(s, i) == s
  {
    var k := CharsWithin(s, i);
    if s != [] && Width(s[0]) <= i {
      FloorOffset(s[1..], i - Width(s[0]));
      assert s[..k][1..] == s[1..][..k - 1];
      if k < |s| {
        assert s[..k + 1][1..] == s[1..][..k];
      }
    } else if s != [] {
      assert s[..1][1..] == [];
    }
  }

  lemma {:induction false} CharsWithinMonotone(s: string, i: nat, j: nat)
    requires i <= j
    ensures CharsWithin(s, i) <= CharsWithin(s, j)
  {
    if s != [] && Width(s[0]) <= i {
      CharsWithinMonotone(s[1..], i - Width(s[0]), j - Width(s[0]));
    }
  }

  /** The bytes inside a character continue it. */
  lemma {:induction false} InsideChar(s: string, k: nat, i: nat)
    requires k < |s|
    requires ByteLen(s[..k]) < i < ByteLen(s[..k]) + Width(s[k])
    ensures i < |Encode(s)| == ByteLen(s) && IsContinuation(Encode(s)[i])
  {
    SplitAt(s, k);
    assert s[k..][1..] == s[k + 1..];
    assert Encode(s)[i] == Encode(s[k..])[i - ByteLen(s[..k])];
  }

  /** A byte offset is a character boundary exactly when it is the offset of a character. */
  lemma {:induction false} BoundaryIff(s: string, i: nat)
    requires i <= ByteLen(s)
    ensures IsCharBoundary(s, i) <==> ByteLen(TextBefore(s, i)) == i
  {
    hide Encode, CharsWithin, EncodeChar;
    var k := CharsWithin(s, i);
    FloorOffset(s, i);
    OffsetOf(s, k);
    if ByteLen(s[..k]) < i {
      assert s[..|s|] == s;
      assert s[..k + 1] == s[..k] + [s[k]];
      EncodeConcat(s[..k], [s[k]]);
      assert ByteLen([s[k]]) == Width(s[k]);
      InsideChar(s, k, i);
    }
  }

  lemma {:induction false} NoBoundaryAbove(text: string, cursor: nat, i: nat)
    requires ByteLen(TextBefore(text, cursor)) < i <= cursor
    requires i <= ByteLen(text)
    ensures !IsCharBoundary(text, i)
  {
    hide Encode, ByteLen, CharsWithin, EncodeChar, IsCharBoundary;
    BoundaryIff(text, i);
    CharsWithinMonotone(text, i, cursor);
    var j, k := CharsWithin(text, i), CharsWithin(text, cursor);
    if j < k {
      FloorOffset(text, i);
      SplitAt(text[..k], j + 1);
      assert text[..k][..j + 1] == text[..j + 1];
    }
  }

  /** What the downward search of `text_before_cursor` finds: the greatest boundary that is
  at most the cursor clamped to the text. */
  lemma {:induction false} TextBeforeIsGreatestBoundary(text: string, cursor: nat)
    ensures var b := ByteLen(TextBefore(text, cursor));
            && b <= cursor && b <= ByteLen(text) && IsCharBoundary(text, b)
            && (forall i: nat | b < i <= cursor && i <= ByteLen(text) :: !IsCharBoundary(text, i))
            && Encode(text) == Encode(TextBefore(text, cursor)) + Encode(text[CharsWithin(text, cursor)..])
  {
    hide Encode, ByteLen, CharsWithin, EncodeChar, IsCharBoundary;
    var k := CharsWithin(text, cursor);
    FloorOffset(text, cursor);
    OffsetOf(text, k);
    SplitAt(text, k);
    forall i: nat | ByteLen(text[..k]) < i <= cursor && i <= ByteLen(text)
      ensures !IsCharBoundary(text, i)
    {
      NoBoundaryAbove(text, cursor, i);
    }
  }
}
