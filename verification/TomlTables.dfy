/** The first table header of a configuration file: where the top-level keys end. */
module TomlTables {
  import opened Utf8
  import opened Texts
  import opened Toml

  function WithoutCr(line: string): string {
    if line != "" && line[|line| - 1] == '\r' then line[..|line| - 1] else line
  }

  /** `str::lines`: ends at line feeds, each with a carriage return before it left out. */
  function Lines(text: string): seq<string>
    decreases |text|
  {
    if text == "" then []
    else
      match FindChar(text, '\n', 0)
      case None => [text]
      case Some(end) => [WithoutCr(text[..end])] + Lines(text[end + 1..])
  }

  function TrimStart(s: string): string {
    if s != "" && IsWhitespace(s[0]) then TrimStart(s[1..]) else s
  }

  function TrimEnd(s: string): string {
    if s != "" && IsWhitespace(s[|s| - 1]) then TrimEnd(s[..|s| - 1]) else s
  }

  function WithoutComment(s: string): string {
    match FindChar(s, '#', 0)
    case None => s
    case Some(k) => s[..k]
  }

  predicate IsHeader(line: string) {
    var s := TrimEnd(WithoutComment(TrimEnd(TrimStart(line))));
    s != "" && s[0] == '[' && s[|s| - 1] == ']'
  }

  predicate IsBlank(s: string) {
    forall c <- s :: IsWhitespace(c)
  }

  lemma {:induction false} TrimStartPast(blanks: string, s: string)
    requires IsBlank(blanks) && s != "" && !IsWhitespace(s[0])
    ensures TrimStart(blanks + s) == s
    decreases |blanks|
  {
    hide IsWhitespace;
    if blanks == "" {
      assert blanks + s == s;
    } else {
      assert blanks[0] in blanks && forall c <- blanks[1..] :: c in blanks;
      assert (blanks + s)[1..] == blanks[1..] + s;
      TrimStartPast(blanks[1..], s);
    }
  }

  lemma {:induction false} TrimEndPast(s: string, blanks: string)
    requires IsBlank(blanks) && s != "" && !IsWhitespace(s[|s| - 1])
    ensures TrimEnd(s + blanks) == s
    decreases |blanks|
  {
    hide IsWhitespace;
    if blanks == "" {
      assert s + blanks == s;
    } else {
      var init := blanks[..|blanks| - 1];
      assert blanks[|blanks| - 1] in blanks && forall c <- init :: c in blanks;
      assert (s + blanks)[..|s + blanks| - 1] == s + init;
      TrimEndPast(s, init);
    }
  }

  /** What is trimmed off the end is blank, and something else is left. */
  lemma {:induction false} TrimEndKeeps(s: string, k: nat)
    requires k < |s| && !IsWhitespace(s[k])
    ensures k < |TrimEnd(s)| && TrimEnd(s) <= s
    decreases |s|
  {
    hide IsWhitespace;
    if IsWhitespace(s[|s| - 1]) {
      TrimEndKeeps(s[..|s| - 1], k);
    }
  }

  lemma CommentOff(s: string, comment: string)
    requires '#' !in s && comment != "" && comment[0] == '#'
    ensures WithoutComment(s + comment) == s
  {
    FindCharIs(s + comment, '#', 0, |s|);
    assert (s + comment)[..|s|] == s;
  }

  lemma NoComment(s: string)
    requires '#' !in s
    ensures WithoutComment(s) == s
  {
  }

  lemma PunctuationIsNotBlank()
    ensures IsBlank("") && !IsWhitespace('[') && !IsWhitespace(']') && !IsWhitespace('#')
  {
  }

  /** A name in brackets is a header, whatever blanks stand around it and whatever comment behind it. */
  lemma BracketsAreHeader(indent: string, name: string, blanks: string, comment: string)
    requires IsBlank(indent) && IsBlank(blanks) && '#' !in name && '#' !in blanks
    requires comment == "" || comment[0] == '#'
    ensures IsHeader(indent + ("[" + name + "]" + blanks + comment))
  {
    hide IsWhitespace, TrimStart, TrimEnd, WithoutComment, IsBlank;
    PunctuationIsNotBlank();
    var core := "[" + name + "]";
    var rest := core + blanks + comment;
    TrimStartPast(indent, rest);
    assert '#' !in core + blanks;
    TrimEndPast(core, blanks);
    if comment == "" {
      assert rest == core + blanks;
      NoComment(core);
      assert core + "" == core;
      TrimEndPast(core, "");
    } else {
      TrimEndKeeps(rest, |core + blanks|);
      var left := TrimEnd(rest);
      assert left == core + blanks + left[|core + blanks|..] by {
        assert left[..|core + blanks|] == rest[..|core + blanks|] == core + blanks;
      }
      CommentOff(core + blanks, left[|core + blanks|..]);
    }
  }

  /** A header's first character that is not blank is the bracket. */
  lemma HeaderOpens(line: string)
    requires IsHeader(line)
    ensures Lead(line) == Some('[')
  {
    hide IsWhitespace, TrimStart, TrimEnd, WithoutComment, Lead;
    TrimStartIsLead(line);
    var s := TrimStart(line);
    TrimEndIsPrefix(s);
    CommentOffIsPrefix(TrimEnd(s));
    TrimEndIsPrefix(WithoutComment(TrimEnd(s)));
  }

  lemma {:induction false} TrimStartIsLead(s: string)
    ensures Lead(s) == if TrimStart(s) == "" then None else Some(TrimStart(s)[0])
    decreases |s|
  {
    hide IsWhitespace;
    if s != "" {
      TrimStartIsLead(s[1..]);
    }
  }

  lemma {:induction false} TrimEndIsPrefix(s: string)
    ensures TrimEnd(s) <= s
    decreases |s|
  {
    hide IsWhitespace;
    if s != "" {
      TrimEndIsPrefix(s[..|s| - 1]);
    }
  }

  lemma CommentOffIsPrefix(s: string)
    ensures WithoutComment(s) <= s
  {
  }

  /** Lengths in bytes of the lines before line `i`, each with its line feed. */
  function Offset(lines: seq<string>, i: nat): nat
    requires i <= |lines|
  {
    if i == 0 then 0 else Offset(lines, i - 1) + ByteLen(lines[i - 1]) + 1
  }

  predicate IsFirstHeader(lines: seq<string>, i: nat) {
    i < |lines| && IsHeader(lines[i]) && forall k :: 0 <= k < i ==> !IsHeader(lines[k])
  }

  method FindFirstTablePos(text: string) returns (pos: Option<nat>)
    ensures pos.None? ==> forall line <- Lines(text) :: !IsHeader(line)
    ensures pos.Some? ==> exists i :: IsFirstHeader(Lines(text), i) && pos.value == Offset(Lines(text), i)
  {
    hide IsHeader;
    var lines := Lines(text);
    for i := 0 to |lines|
      invariant forall k :: 0 <= k < i ==> !IsHeader(lines[k])
    {
      if IsHeader(lines[i]) {
        var offset := 0;
        for j := 0 to i
          invariant offset == Offset(lines, j)
        {
          offset := offset + ByteLen(lines[j]) + 1;
        }
        assert IsFirstHeader(lines, i);
        return Some(offset);
      }
    }
    return None;
  }

  // ---------- where the header really is ----------

  /** Start of line `i` in the text. */
  function Start(text: string, i: nat): (r: nat)
    ensures r <= |text|
    decreases i
  {
    if i == 0 then 0
    else
      match FindChar(text, '\n', 0)
      case None => |text|
      case Some(end) => end + 1 + Start(text[end + 1..], i - 1)
  }

  /** Lines among the first `i` that end in a carriage return and a line feed. */
  function CrLines(text: string, i: nat): nat
    decreases i
  {
    if i == 0 then 0
    else
      match FindChar(text, '\n', 0)
      case None => 0
      case Some(end) => (if end > 0 && text[end - 1] == '\r' then 1 else 0) + CrLines(text[end + 1..], i - 1)
  }

  lemma {:induction false} OffsetFront(first: string, rest: seq<string>, i: nat)
    requires i <= |rest|
    ensures Offset([first] + rest, i + 1) == ByteLen(first) + 1 + Offset(rest, i)
    decreases i
  {
    if i > 0 {
      OffsetFront(first, rest, i - 1);
      assert ([first] + rest)[i] == rest[i - 1];
    }
  }

  /** The first line, and the rest of the text. */
  lemma FirstLine(text: string)
    requires |Lines(text)| > 1
    ensures FindChar(text, '\n', 0).Some?
    ensures var end := FindChar(text, '\n', 0).value;
            Lines(text) == [WithoutCr(text[..end])] + Lines(text[end + 1..])
  {
    hide FindChar, WithoutCr;
  }

  /** A line kept without its carriage return is one byte shorter. */
  lemma WithoutCrBytes(line: string)
    ensures ByteLen(WithoutCr(line)) + (if line != "" && line[|line| - 1] == '\r' then 1 else 0) == ByteLen(line)
  {
    if line != "" {
      var head, last := line[..|line| - 1], line[|line| - 1..];
      assert line == head + last;
      EncodeConcat(head, last);
      assert ByteLen(last) == Width(last[0]) + ByteLen(last[1..]);
    }
  }

  lemma LineBytes(text: string, end: nat, k: nat)
    requires end < |text| && text[end] == '\n' && end + 1 + k <= |text|
    ensures ByteLen(text[..end + 1 + k]) == ByteLen(text[..end]) + 1 + ByteLen(text[end + 1..][..k])
  {
    var line, rest := text[..end], text[end + 1..][..k];
    assert text[..end + 1 + k] == line + (['\n'] + rest);
    EncodeConcat(line, ['\n'] + rest);
    assert (['\n'] + rest)[1..] == rest;
  }

  lemma LineStep(text: string, i: nat)
    requires i > 0 && FindChar(text, '\n', 0).Some?
    ensures var end := FindChar(text, '\n', 0).value;
            var rest := text[end + 1..];
            && Start(text, i) == end + 1 + Start(rest, i - 1)
            && ByteLen(text[..Start(text, i)]) == ByteLen(text[..end]) + 1 + ByteLen(rest[..Start(rest, i - 1)])
            && CrLines(text, i) + ByteLen(WithoutCr(text[..end])) == ByteLen(text[..end]) + CrLines(rest, i - 1)
  {
    hide FindChar, ByteLen, WithoutCr;
    var end := FindChar(text, '\n', 0).value;
    WithoutCrBytes(text[..end]);
    LineBytes(text, end, Start(text[end + 1..], i - 1));
  }

  lemma DroppedAt(text: string, from: nat, k: nat)
    requires from + k < |text|
    ensures text[from..][k] == text[from + k]
  {
  }

  lemma FirstStart(text: string)
    ensures Start(text, 0) == CrLines(text, 0) == Offset(Lines(text), 0) == 0 && (Lines(text) != [] ==> text != "")
    ensures ByteLen(text[..0]) == 0
  {
  }

  /** Line `i` starts inside the text, behind a line feed unless it is the first. */
  lemma {:induction false} StartOfLine(text: string, i: nat)
    requires i < |Lines(text)|
    ensures Start(text, i) < |text| && (Start(text, i) > 0 ==> text[Start(text, i) - 1] == '\n')
    decreases i
  {
    hide FindChar, Lines, Start, CrLines, WithoutCr;
    if i == 0 {
      FirstStart(text);
    } else {
      FirstLine(text);
      LineStep(text, i);
      var end := FindChar(text, '\n', 0).value;
      var start := Start(text[end + 1..], i - 1);
      StartOfLine(text[end + 1..], i - 1);
      if start > 0 {
        DroppedAt(text, end + 1, start - 1);
      }
    }
  }

  /** The sum of the lengths falls short of the line's start by one for every carriage return left out. */
  lemma {:induction false} OffsetExact(text: string, i: nat)
    requires i < |Lines(text)|
    ensures Offset(Lines(text), i) + CrLines(text, i) == ByteLen(text[..Start(text, i)])
    decreases i
  {
    hide FindChar, Lines, Offset, Start, CrLines, WithoutCr, ByteLen;
    if i == 0 {
      FirstStart(text);
    } else {
      FirstLine(text);
      LineStep(text, i);
      var end := FindChar(text, '\n', 0).value;
      var rest := text[end + 1..];
      OffsetExact(rest, i - 1);
      OffsetFront(WithoutCr(text[..end]), Lines(rest), i - 1);
    }
  }

  lemma {:induction false} NoCrNoShift(text: string, i: nat)
    requires '\r' !in text
    ensures CrLines(text, i) == 0
    decreases i
  {
    if i > 0 && FindChar(text, '\n', 0).Some? {
      var end := FindChar(text, '\n', 0).value;
      assert forall c <- text[end + 1..] :: c in text;
      NoCrNoShift(text[end + 1..], i - 1);
    }
  }

  /** With `i` the line of the header: the position found is the byte offset of its start exactly when no line
  before it ends in a carriage return, and the region before it is then made of whole lines. */
  lemma TablePosExact(text: string, i: nat)
    requires i < |Lines(text)|
    ensures Offset(Lines(text), i) == ByteLen(text[..Start(text, i)]) <==> CrLines(text, i) == 0
    ensures CrLines(text, i) == 0 ==>
              && Region(text, Some(Offset(Lines(text), i))) == Some(Start(text, i))
              && Boundary(text, Start(text, i)) && Start(text, i) < |text|
    ensures '\r' !in text ==> CrLines(text, i) == 0
  {
    hide Lines, Offset, Start, CrLines, ByteLen, CharsWithin, IsCharBoundary;
    StartOfLine(text, i);
    OffsetExact(text, i);
    OffsetOf(text, Start(text, i));
    SplitAt(text, Start(text, i));
    if '\r' !in text {
      NoCrNoShift(text, i);
    }
  }

  /** Whatever the lines end in, a replacement bounded by the position found for the header, line `i`, keeps
  all of the text from the header on: a bound that falls short still lies on a line before it, unless it falls
  inside a character, where nothing is replaced. */
  lemma TablesUntouched(text: string, i: nat, key: string, value: string)
    requires i < |Lines(text)|
    ensures var region, header := Region(text, Some(Offset(Lines(text), i))), Start(text, i);
            && (CrLines(text, i) == 0 ==> region.Some? && !Aborts(text, key, region.value))
            && (region.Some? && SpanOf(text, key, region.value).Some? ==>
                  var (from, to) := SpanOf(text, key, region.value).value;
                  && from <= to <= header <= |text|
                  && var out := Splice(text, from, to, value);
                  |out| >= |text| - header && out[|out| - (|text| - header)..] == text[header..])
  {
    hide SpanOf, Lines, Offset, Start, CrLines, ValueEnd, LineEnd, Aborts, Region;
    TablePosExact(text, i);
    var region, header := Region(text, Some(Offset(Lines(text), i))), Start(text, i);
    if CrLines(text, i) == 0 {
      NoAbortAtBoundary(text, key, header);
    }
    StartOfLine(text, i);
    if region.Some? && SpanOf(text, key, region.value).Some? {
      RegionBefore(text, i);
      SpanInside(text, key, region.value);
      var (from, to) := SpanOf(text, key, region.value).value;
      assert text[header - 1] == '\n' && LineEnd(text, from, region.value) <= header - 1;
      assert |Splice(text, from, to, value)| == from + |value| + |text| - to;
    }
  }

  lemma RegionBefore(text: string, i: nat)
    requires i < |Lines(text)|
    ensures var region := Region(text, Some(Offset(Lines(text), i)));
            region.Some? ==> region.value <= Start(text, i)
  {
    hide Lines, Offset, Start, CrLines, ByteLen, CharsWithin, IsCharBoundary;
    OffsetExact(text, i);
    OffsetOf(text, Start(text, i));
    CharsWithinMonotone(text, Offset(Lines(text), i), ByteLen(text[..Start(text, i)]));
  }

  // ---------- a bound that falls short ----------

  /** Five lines before the header end in carriage returns.  The array of the last opens where the position
  found for the header, five characters short, no longer reaches. */
  const SHORT := "\r\n\r\n\r\n\r\nk =   []\r\n[t]"

  lemma LineFront(line: string, rest: string)
    requires '\n' !in line
    ensures Lines(line + "\n" + rest) == [WithoutCr(line)] + Lines(rest)
  {
    var text := line + "\n" + rest;
    FindCharIs(text, '\n', 0, |line|);
    hide FindChar, WithoutCr;
    assert text[..|line|] == line && text[|line| + 1..] == rest;
  }

  const SHORT_LINES := ["", "", "", "", "k =   []", "[t]"]

  lemma LastLines()
    ensures Lines("k =   []\r" + "\n" + "[t]") == ["k =   []", "[t]"]
  {
    assert Lines("[t]") == ["[t]"];
    hide Lines, FindChar;
    LineFront("k =   []\r", "[t]");
    assert WithoutCr("k =   []\r") == "k =   []";
  }

  lemma EmptyFront(rest: string)
    ensures Lines("\r" + "\n" + rest) == [""] + Lines(rest)
  {
    hide Lines, FindChar;
    LineFront("\r", rest);
    assert WithoutCr("\r") == "";
  }

  lemma ShortLines()
    ensures Lines(SHORT) == SHORT_LINES
  {
    hide Lines, FindChar, WithoutCr;
    var d := "k =   []\r" + "\n" + "[t]";
    var c := "\r" + "\n" + d;
    var b := "\r" + "\n" + c;
    var a := "\r" + "\n" + b;
    LastLines();
    EmptyFront(d);
    EmptyFront(c);
    EmptyFront(b);
    EmptyFront(a);
    assert SHORT == "\r" + "\n" + a;
  }

  lemma ShortOffset()
    ensures Offset(SHORT_LINES, 5) == 13
  {
    assert ByteLen("") == 0 && ByteLen("k =   []") == 8 by {
      AsciiOffsets("k =   []");
    }
    assert Offset(SHORT_LINES, 1) == 1 && Offset(SHORT_LINES, 2) == 2 && Offset(SHORT_LINES, 3) == 3;
    assert Offset(SHORT_LINES, 4) == 4;
  }

  lemma ShortSpan()
    ensures |SHORT| == 21 && SpanOf(SHORT, "k", 13).Some? && SpanOf(SHORT, "k", 13).value.0 == 12
  {
    var needle := "\n" + Spaced("k");
    assert needle == "\nk = ";
    assert SHORT[7..12] == needle;
    forall x: nat | x < 7 && x + |needle| <= 13
      ensures !At(SHORT, x, needle)
    {
      assert SHORT[x..x + 5][1] == SHORT[x + 1] != 'k';
    }
    FindIs(SHORT, needle, 13, Some(7));
    ShortLine();
    hide Find, At, FindChar, LineEnd, Lead, ValueEnd, SHORT;
  }

  lemma ShortLine()
    ensures |SHORT| == 21 && Lead(Line(SHORT, 12, 13)) == Some('[') && FindChar(SHORT, '[', 12) == Some(14)
  {
    FindCharIs(SHORT, '\n', 12, 17);
    FindCharIs(SHORT, '[', 12, 14);
    hide FindChar;
    assert SHORT[12..17] == "  []\r";
    assert Lead("  []\r") == Lead(" []\r") == Lead("[]\r") == Some('[') by {
      assert "  []\r"[1..] == " []\r" && " []\r"[1..] == "[]\r";
    }
  }

  lemma PlainLine(line: string)
    requires line == "k =   []" || line == "[t]" || line == ""
    ensures IsHeader(line) <==> line == "[t]"
  {
    assert TrimStart(line) == line && TrimEnd(line) == line;
    assert WithoutComment(line) == line;
  }

  lemma ShortHeader()
    ensures IsFirstHeader(SHORT_LINES, 5)
  {
    hide IsHeader;
    PlainLine("k =   []");
    PlainLine("[t]");
    PlainLine("");
  }

  lemma AsciiRegion(text: string, n: nat)
    requires IsAscii(text) && n <= |text|
    ensures Region(text, Some(n)) == Some(n)
  {
    hide IsCharBoundary, CharsWithin, ByteLen, Encode, TextBefore;
    AsciiOffsets(text);
    assert forall c <- text[..n] :: c in text;
    AsciiOffsets(text[..n]);
    AsciiCut(text, n);
    OffsetOf(text, n);
  }

  lemma ShortIsAscii()
    ensures IsAscii(SHORT) && |SHORT| == 21
  {
  }

  /** The file is well formed and its header is found, but the replacement of `k` bounded by the position
  aborts. */
  lemma AbortIsReached()
    ensures |SHORT| == 21 && Lines(SHORT) == SHORT_LINES
    ensures IsFirstHeader(SHORT_LINES, 5) && Offset(SHORT_LINES, 5) == 13
    ensures Region(SHORT, Some(13)) == Some(13) && Aborts(SHORT, "k", 13)
  {
    ShortLines();
    ShortHeader();
    ShortOffset();
    ShortSpan();
    ShortLine();
    ShortIsAscii();
    hide SpanOf, Line, Lead, FindChar, Lines, SHORT, IsHeader, Region, IsAscii;
    AsciiRegion(SHORT, 13);
  }

  /** Three lines before the header end in carriage returns, the last of them behind an accented letter. */
  const SPLIT := "\r\n\r\n#é\r\n[t]"

  const SPLIT_LINES := ["", "", "#é", "[t]"]

  lemma SplitLines()
    ensures Lines(SPLIT) == SPLIT_LINES
  {
    hide Lines, FindChar, WithoutCr;
    var c := "#é\r" + "\n" + "[t]";
    var b := "\r" + "\n" + c;
    LineFront("#é\r", "[t]");
    assert "#é" + "\r" == "#é\r";
    LastCr("#é");
    assert Lines("[t]") == ["[t]"] by {
      LastLine("[t]");
    }
    EmptyFront(c);
    EmptyFront(b);
    assert SPLIT == "\r" + "\n" + b;
  }

  lemma LastCr(line: string)
    ensures WithoutCr(line + "\r") == line
  {
    assert (line + "\r")[..|line|] == line;
  }

  lemma LastLine(line: string)
    requires line != "" && '\n' !in line
    ensures Lines(line) == [line]
  {
  }

  lemma CommentLine(line: string)
    requires line == "#é"
    ensures !IsHeader(line)
  {
    assert TrimStart(line) == line && TrimEnd(line) == line;
    assert WithoutComment(line) == "";
  }

  lemma SplitOffset()
    ensures Offset(SPLIT_LINES, 3) == 6
  {
    assert ByteLen("") == 0 && ByteLen("#é") == 3 by {
      assert "#é"[1..] == "é" && "é"[1..] == "";
      assert ByteLen("é") == 2;
    }
    assert Offset(SPLIT_LINES, 1) == 1 && Offset(SPLIT_LINES, 2) == 2;
  }

  /** Behind one more byte than the characters before a wide one take, no region ends. */
  lemma InsideWide(text: string, k: nat)
    requires k < |text| && Width(text[k]) > 1
    ensures Region(text, Some(ByteLen(text[..k]) + 1)).None?
  {
    hide Encode, CharsWithin, Width, ByteLen;
    InsideChar(text, k, ByteLen(text[..k]) + 1);
    SplitAt(text, k + 1);
    assert text[..k + 1] == text[..k] + [text[k]];
    EncodeConcat(text[..k], [text[k]]);
    OneLetter(text[k]);
  }

  lemma InsideLetter()
    ensures Region(SPLIT, Some(6)).None?
  {
    hide Region, Encode, CharsWithin, ByteLen;
    assert SPLIT[..5] == "\r\n\r\n#" && SPLIT[5] == 'é';
    AsciiOffsets("\r\n\r\n#");
    InsideWide(SPLIT, 5);
  }

  lemma OneLetter(c: char)
    ensures ByteLen([c]) == Width(c)
  {
  }

  lemma SplitHeader()
    ensures IsFirstHeader(SPLIT_LINES, 3)
  {
    hide IsHeader;
    PlainLine("[t]");
    PlainLine("");
    CommentLine("#é");
  }

  /** The position found lies inside the letter, where every replacement aborts, whatever the key. */
  lemma SplitIsReached()
    ensures Lines(SPLIT) == SPLIT_LINES && IsFirstHeader(SPLIT_LINES, 3) && Offset(SPLIT_LINES, 3) == 6
    ensures Region(SPLIT, Some(6)).None?
  {
    hide Lines, SPLIT, Region, IsHeader;
    SplitLines();
    SplitHeader();
    SplitOffset();
    InsideLetter();
  }
}
