/** The generated keyboard map: which key and modifiers emit a character, and what a client that
loads the map reads from a key. */
module Keymap {
  import opened Texts

  /** Modifier masks are 32 bits wide. */
  const MOD_SHIFT: bv32 := 0x01
  const MOD_LEVEL3: bv32 := 0x80
  const MOD_LEVEL5: bv32 := 0x20

  const KEY_BACKSPACE: nat := 14

  /** Keycode of each eight-level slot. */
  const SAFE_KEYCODES: seq<nat> :=
    [85, 86, 89, 90, 91, 93, 94, 124, 183, 184, 185, 186, 187, 188, 189, 122, 123]

  /** Lower-case precomposed letters; the index of a letter fixes its slot and level. */
  const VN_LOWER: string :=
    "àáảãạâầấẩẫậăằắẳẵặ"
    + "èéẻẽẹêềếểễệ"
    + "ìíỉĩị"
    + "òóỏõọôồốổỗộơờớởỡợ"
    + "ùúủũụưừứửữự"
    + "ỳýỷỹỵ"
    + "đ"

  /** The capitals, paired by index. */
  const VN_UPPER: string :=
    "ÀÁẢÃẠÂẦẤẨẪẬĂẰẮẲẴẶ"
    + "ÈÉẺẼẸÊỀẾỂỄỆ"
    + "ÌÍỈĨỊ"
    + "ÒÓỎÕỌÔỒỐỔỖỘƠỜỚỞỠỢ"
    + "ÙÚỦŨỤƯỪỨỬỮỰ"
    + "ỲÝỶỸỴ"
    + "Đ"

  /** Key and modifiers that emit one character. */
  datatype EmitSpec = EmitSpec(keycode: nat, mods: bv32)

  predicate Has(mask: bv32, bit: bv32) {
    mask & bit != 0
  }

  /** First position of `x`. */
  function IndexOf<T(==)>(x: T, xs: seq<T>): (r: Option<nat>)
    ensures r.Some? <==> x in xs
    ensures r.Some? ==> r.value < |xs| && xs[r.value] == x && x !in xs[..r.value]
    decreases |xs|
  {
    if xs == [] then None
    else if xs[0] == x then Some(0)
    else
      var r := IndexOf(x, xs[1..]);
      if r.None? then None
      else
        assert xs[..r.value + 1] == [xs[0]] + xs[1..][..r.value];
        Some(r.value + 1)
  }

  function LevelMods(level: nat): bv32 {
    match level
    case 1 => 0
    case 2 => MOD_SHIFT
    case 3 => MOD_LEVEL3
    case 4 => MOD_SHIFT | MOD_LEVEL3
    case 5 => MOD_LEVEL5
    case 6 => MOD_SHIFT | MOD_LEVEL5
    case 7 => MOD_LEVEL3 | MOD_LEVEL5
    case 8 => MOD_SHIFT | MOD_LEVEL3 | MOD_LEVEL5
    case _ => 0
  }

  /** Slot and level of a letter: four letters a slot, each beside its capital. */
  function LocateVn(c: char): (r: Option<(nat, nat)>)
    ensures r.Some? ==> r.value.0 < |SAFE_KEYCODES| && 1 <= r.value.1 <= 8
  {
    var lower := IndexOf(c, VN_LOWER);
    if lower.Some? then Some((lower.value / 4, lower.value % 4 * 2 + 1))
    else
      var upper := IndexOf(c, VN_UPPER);
      if upper.Some? then Some((upper.value / 4, upper.value % 4 * 2 + 2)) else None
  }

  const NO_KEY: nat := 0

  function LetterKey(c: char): nat {
    match c
    case 'q' => 16 case 'w' => 17 case 'e' => 18 case 'r' => 19 case 't' => 20 case 'y' => 21 case 'u' => 22
    case 'i' => 23 case 'o' => 24 case 'p' => 25 case 'a' => 30 case 's' => 31 case 'd' => 32 case 'f' => 33
    case 'g' => 34 case 'h' => 35 case 'j' => 36 case 'k' => 37 case 'l' => 38 case 'z' => 44 case 'x' => 45
    case 'c' => 46 case 'v' => 47 case 'b' => 48 case 'n' => 49 case 'm' => 50
    case _ => NO_KEY
  }

  function PunctuationKey(c: char): nat {
    match c
    case '1' | '!' => 2 case '2' | '@' => 3 case '3' | '#' => 4 case '4' | '$' => 5 case '5' | '%' => 6
    case '6' | '^' => 7 case '7' | '&' => 8 case '8' | '*' => 9 case '9' | '(' => 10 case '0' | ')' => 11
    case '-' | '_' => 12 case '=' | '+' => 13 case '[' | '{' => 26 case ']' | '}' => 27 case ';' | ':' => 39
    case '\'' | '\"' => 40 case '`' | '~' => 41 case '\\' | '|' => 43 case ',' | '<' => 51
    case '.' | '>' => 52 case '/' | '?' => 53 case ' ' => 57
    case _ => NO_KEY
  }

  predicate IsCapital(c: char) {
    'A' <= c <= 'Z'
  }

  /** Key of a printable ASCII character in the US layout; a capital is on the key of its small letter. */
  function AsciiKey(c: char): nat {
    if 'a' <= c <= 'z' then LetterKey(c)
    else if IsCapital(c) then LetterKey(c + 32 as char)
    else PunctuationKey(c)
  }

  /** Capitals and shifted punctuation. */
  predicate AsciiShift(c: char) {
    match c
    case '!' | '@' | '#' | '$' | '%' | '^' | '&' | '*' | '(' | ')' | '_'
       | '+' | '{' | '}' | ':' | '\"' | '~' | '|' | '<' | '>' | '?' => true
    case _ => IsCapital(c)
  }

  function AsciiEvdev(c: char): Option<(nat, bv32)> {
    if AsciiKey(c) == NO_KEY then None else Some((AsciiKey(c), if AsciiShift(c) then MOD_SHIFT else 0))
  }

  function CharToEmit(c: char): Option<EmitSpec> {
    match LocateVn(c)
    case Some((slot, level)) => Some(EmitSpec(SAFE_KEYCODES[slot], LevelMods(level)))
    case None =>
      match AsciiEvdev(c)
      case Some((code, mods)) => Some(EmitSpec(code, mods))
      case None => None
  }

  /** `None` when the character needs no modifier; else the mask to emit under and the one to restore. */
  function PlanModDance(held: bv32, mods: bv32): Option<(bv32, bv32)> {
    if mods == 0 then None else Some((held | mods, held))
  }

  // ---------- the generated rows ----------

  datatype Keysym = VoidSymbol | Unicode(c: char)

  /** Symbol of one level (from 0) of one slot; a level past the tables holds none. */
  function RowSymbol(lower: string, upper: string, slot: nat, level: nat): Keysym
    requires |lower| == |upper|
  {
    var i := slot * 4 + level / 2;
    if i >= |lower| then VoidSymbol
    else if level % 2 == 0 then Unicode(lower[i])
    else Unicode(upper[i])
  }

  function Row(lower: string, upper: string, slot: nat): (row: seq<Keysym>)
    requires |lower| == |upper|
  {
    seq(8, level requires 0 <= level < 8 => RowSymbol(lower, upper, slot, level))
  }

  /** The row of one slot, filled pair by pair. */
  method FillRow(lower: string, upper: string, slot: nat) returns (row: seq<Keysym>)
    requires |lower| == |upper|
    ensures row == Row(lower, upper, slot)
  {
    var keysyms := new Keysym[8](_ => VoidSymbol);
    for j := 0 to 4
      invariant forall level :: 0 <= level < 2 * j ==> keysyms[level] == RowSymbol(lower, upper, slot, level)
      invariant forall level :: 2 * j <= level < 8 ==> keysyms[level] == VoidSymbol
    {
      var index := slot * 4 + j;
      if index < |lower| {
        keysyms[j * 2] := Unicode(lower[index]);
        keysyms[j * 2 + 1] := Unicode(upper[index]);
      }
    }
    row := keysyms[..];
  }

  /** The rows of all slots. */
  method AppendSymbolRows(lower: string, upper: string, slots: nat) returns (rows: seq<seq<Keysym>>)
    requires |lower| == |upper|
    ensures |rows| == slots
    ensures forall slot :: 0 <= slot < slots ==> rows[slot] == Row(lower, upper, slot)
  {
    rows := [];
    for i := 0 to slots
      invariant |rows| == i
      invariant forall slot :: 0 <= slot < i ==> rows[slot] == Row(lower, upper, slot)
    {
      var row := FillRow(lower, upper, i);
      rows := rows + [row];
    }
  }

  // ---------- what a client reads ----------

  /** The level an eight-level key type selects. */
  function SelectedLevel(mask: bv32): (level: nat)
    ensures 1 <= level <= 8
  {
    1 + (if Has(mask, MOD_SHIFT) then 1 else 0)
      + (if Has(mask, MOD_LEVEL3) then 2 else 0)
      + (if Has(mask, MOD_LEVEL5) then 4 else 0)
  }

  datatype UsKey = NoSymbol | Pair(plain: char, shifted: char)

  /** The included US layout: two levels a key, chosen by Shift alone. */
  function UsLayout(code: nat): UsKey {
    match code
    case 2 => Pair('1', '!') case 3 => Pair('2', '@') case 4 => Pair('3', '#') case 5 => Pair('4', '$')
    case 6 => Pair('5', '%') case 7 => Pair('6', '^') case 8 => Pair('7', '&') case 9 => Pair('8', '*')
    case 10 => Pair('9', '(') case 11 => Pair('0', ')') case 12 => Pair('-', '_') case 13 => Pair('=', '+')
    case 16 => Pair('q', 'Q') case 17 => Pair('w', 'W') case 18 => Pair('e', 'E') case 19 => Pair('r', 'R')
    case 20 => Pair('t', 'T') case 21 => Pair('y', 'Y') case 22 => Pair('u', 'U') case 23 => Pair('i', 'I')
    case 24 => Pair('o', 'O') case 25 => Pair('p', 'P') case 26 => Pair('[', '{') case 27 => Pair(']', '}')
    case 30 => Pair('a', 'A') case 31 => Pair('s', 'S') case 32 => Pair('d', 'D') case 33 => Pair('f', 'F')
    case 34 => Pair('g', 'G') case 35 => Pair('h', 'H') case 36 => Pair('j', 'J') case 37 => Pair('k', 'K')
    case 38 => Pair('l', 'L') case 39 => Pair(';', ':') case 40 => Pair('\'', '\"') case 41 => Pair('`', '~')
    case 43 => Pair('\\', '|') case 44 => Pair('z', 'Z') case 45 => Pair('x', 'X') case 46 => Pair('c', 'C')
    case 47 => Pair('v', 'V') case 48 => Pair('b', 'B') case 49 => Pair('n', 'N') case 50 => Pair('m', 'M')
    case 51 => Pair(',', '<') case 52 => Pair('.', '>') case 53 => Pair('/', '?')
    case 57 => Pair(' ', ' ')
    case _ => NoSymbol
  }

  function UsSymbol(code: nat, shift: bool): Option<char> {
    match UsLayout(code)
    case NoSymbol => None
    case Pair(plain, shifted) => Some(if shift then shifted else plain)
  }

  /** The character a client reads from a key under a modifier mask without Lock. */
  function KeySymbol(code: nat, mask: bv32): Option<char> {
    match IndexOf(code, SAFE_KEYCODES)
    case Some(slot) =>
      (match RowSymbol(VN_LOWER, VN_UPPER, slot, SelectedLevel(mask) - 1)
       case VoidSymbol => None
       case Unicode(c) => Some(c))
    case None => UsSymbol(code, Has(mask, MOD_SHIFT))
  }

  // ---------- printer and parser agree ----------

  lemma LevelRoundTrip(level: nat)
    requires 1 <= level <= 8
    ensures SelectedLevel(LevelMods(level)) == level
  {
  }

  /** The slot of a keycode, by name. */
  function SlotOf(code: nat): nat {
    match code
    case 85 => 0 case 86 => 1 case 89 => 2 case 90 => 3 case 91 => 4 case 93 => 5 case 94 => 6 case 124 => 7
    case 183 => 8 case 184 => 9 case 185 => 10 case 186 => 11 case 187 => 12 case 188 => 13 case 189 => 14
    case 122 => 15 case _ => 16
  }

  lemma SlotsAreNamed(slot: nat)
    requires slot < |SAFE_KEYCODES|
    ensures SlotOf(SAFE_KEYCODES[slot]) == slot && 85 <= SAFE_KEYCODES[slot] <= 189
    ensures SAFE_KEYCODES[slot] !in {92, 97, 100, 125, 126, 127}
  {
  }

  /** No keycode serves two slots. */
  lemma SlotRoundTrip(slot: nat)
    requires slot < |SAFE_KEYCODES|
    ensures IndexOf(SAFE_KEYCODES[slot], SAFE_KEYCODES) == Some(slot)
  {
    hide SlotOf;
    var found := IndexOf(SAFE_KEYCODES[slot], SAFE_KEYCODES).value;
    SlotsAreNamed(slot);
    SlotsAreNamed(found);
  }

  predicate ReadsBack(c: char) {
    && 2 <= AsciiKey(c) <= 57
    && UsLayout(AsciiKey(c)).Pair?
    && c == (if AsciiShift(c) then UsLayout(AsciiKey(c)).shifted else UsLayout(AsciiKey(c)).plain)
  }

  lemma LetterReadsBack(c: char)
    requires 'a' <= c <= 'z'
    ensures UsLayout(LetterKey(c)) == Pair(c, c - 32 as char) && 16 <= LetterKey(c) <= 50
    ensures !AsciiShift(c)
  {
    hide VN_LOWER, VN_UPPER, SAFE_KEYCODES;
  }

  lemma DigitReadsBack(c: char)
    requires ' ' <= c <= '9'
    ensures ReadsBack(c)
  {
    hide VN_LOWER, VN_UPPER, SAFE_KEYCODES, LetterKey;
  }

  lemma PunctuationReadsBack(c: char)
    requires ':' <= c <= '@' || '[' <= c <= '`' || '{' <= c <= '~'
    ensures ReadsBack(c)
  {
    hide VN_LOWER, VN_UPPER, SAFE_KEYCODES, LetterKey;
  }

  lemma AsciiRoundTrip(c: char)
    ensures AsciiEvdev(c).Some? <==> ' ' <= c <= '~'
    ensures AsciiEvdev(c).Some? ==> ReadsBack(c)
  {
    hide UsLayout, LetterKey;
    if 'a' <= c <= 'z' {
      LetterReadsBack(c);
    } else if IsCapital(c) {
      LetterReadsBack(c + 32 as char);
    } else if ' ' <= c <= '9' {
      hide PunctuationKey, ReadsBack;
      DigitReadsBack(c);
    } else if ' ' <= c <= '~' {
      hide PunctuationKey, ReadsBack;
      PunctuationReadsBack(c);
    }
  }

  lemma TablesPair()
    ensures |VN_LOWER| == |VN_UPPER| == 67
  {
  }

  lemma AsciiIsNoSlot(code: nat)
    requires code <= 57
    ensures IndexOf(code, SAFE_KEYCODES).None?
  {
    if code in SAFE_KEYCODES {
      SlotsAreNamed(IndexOf(code, SAFE_KEYCODES).value);
    }
  }

  lemma SlotDecodes(c: char)
    requires LocateVn(c).Some?
    ensures |VN_LOWER| == |VN_UPPER|
    ensures var (slot, level) := LocateVn(c).value; RowSymbol(VN_LOWER, VN_UPPER, slot, level - 1) == Unicode(c)
  {
    TablesPair();
    hide VN_LOWER, VN_UPPER;
  }

  /** What is emitted for a character is read back as that character. */
  lemma EmitDecodes(c: char)
    requires CharToEmit(c).Some?
    ensures var spec := CharToEmit(c).value; KeySymbol(spec.keycode, spec.mods) == Some(c)
  {
    hide VN_LOWER, VN_UPPER, SAFE_KEYCODES, UsLayout, AsciiKey, AsciiShift, SlotOf, LevelMods, SelectedLevel, LocateVn, RowSymbol;
    match LocateVn(c)
    case Some((slot, level)) =>
      hide Has, AsciiEvdev;
      SlotRoundTrip(slot);
      LevelRoundTrip(level);
      SlotDecodes(c);
    case None =>
      AsciiRoundTrip(c);
      AsciiIsNoSlot(AsciiKey(c));
  }

  /** The characters that can be emitted: printable ASCII and the letters of the two tables. */
  lemma InventoryExact(c: char)
    ensures CharToEmit(c).Some? <==> ' ' <= c <= '~' || c in VN_LOWER || c in VN_UPPER
  {
    hide VN_LOWER, VN_UPPER, SAFE_KEYCODES, AsciiEvdev, LevelMods;
    AsciiRoundTrip(c);
  }

  /** No character is emitted by a modifier key, Escape or Backspace. */
  lemma EmitsPlainKey(c: char)
    requires CharToEmit(c).Some?
    ensures CharToEmit(c).value.keycode !in {1, KEY_BACKSPACE, 29, 42, 54, 56, 92, 97, 100, 125, 126, 127}
  {
    hide VN_LOWER, VN_UPPER, SAFE_KEYCODES, AsciiKey, AsciiShift, SlotOf, LevelMods, SelectedLevel, LocateVn, UsSymbol;
    match LocateVn(c)
    case Some((slot, level)) => SlotsAreNamed(slot);
    case None => AsciiRoundTrip(c);
  }
}
