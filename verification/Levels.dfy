/** What is read when a character is emitted on top of modifiers the user already holds. */
module Levels {
  import opened Texts
  import opened Keymap

  // ---------- the letters of a slot differ ----------

  /** The letters of one slot, level by level. */
  function SlotRow(slot: nat): string {
    match slot
    case 0 => "àÀáÁảẢãÃ"
    case 1 => "ạẠâÂầẦấẤ"
    case 2 => "ẩẨẫẪậẬăĂ"
    case 3 => "ằẰắẮẳẲẵẴ"
    case 4 => "ặẶèÈéÉẻẺ"
    case 5 => "ẽẼẹẸêÊềỀ"
    case 6 => "ếẾểỂễỄệỆ"
    case 7 => "ìÌíÍỉỈĩĨ"
    case 8 => "ịỊòÒóÓỏỎ"
    case 9 => "õÕọỌôÔồỒ"
    case 10 => "ốỐổỔỗỖộỘ"
    case 11 => "ơƠờỜớỚởỞ"
    case 12 => "ỡỠợỢùÙúÚ"
    case 13 => "ủỦũŨụỤưƯ"
    case 14 => "ừỪứỨửỬữỮ"
    case 15 => "ựỰỳỲýÝỷỶ"
    case 16 => "ỹỸỵỴđĐ"
    case _ => ""
  }

  predicate RowHolds(slot: nat, j: nat)
    requires slot * 4 + j < 67 && j < 4
  {
    && |SlotRow(slot)| == (if slot == 16 then 6 else 8)
    && |VN_LOWER| == |VN_UPPER| == 67
    && VN_LOWER[slot * 4 + j] == SlotRow(slot)[j * 2]
    && VN_UPPER[slot * 4 + j] == SlotRow(slot)[j * 2 + 1]
  }

  lemma FirstSlotsLower(slot: nat, j: nat)
    requires slot < 4 && j < 4 && slot * 4 + j < 67
    ensures |SlotRow(slot)| == (if slot == 16 then 6 else 8)
    ensures |VN_LOWER| == 67 && VN_LOWER[slot * 4 + j] == SlotRow(slot)[j * 2]
  {
    hide VN_UPPER, SAFE_KEYCODES;
  }

  lemma FirstSlotsUpper(slot: nat, j: nat)
    requires slot < 4 && j < 4 && slot * 4 + j < 67
    ensures |SlotRow(slot)| == (if slot == 16 then 6 else 8)
    ensures |VN_UPPER| == 67 && VN_UPPER[slot * 4 + j] == SlotRow(slot)[j * 2 + 1]
  {
    hide VN_LOWER, SAFE_KEYCODES;
  }

  lemma FirstSlotsDiffer(slot: nat, i: nat, j: nat)
    requires slot < 4 && i < j < |SlotRow(slot)|
    ensures SlotRow(slot)[i] != SlotRow(slot)[j]
  {
    hide VN_LOWER, VN_UPPER, SAFE_KEYCODES;
  }

  lemma SecondSlotsLower(slot: nat, j: nat)
    requires 4 <= slot < 7 && j < 4 && slot * 4 + j < 67
    ensures |SlotRow(slot)| == (if slot == 16 then 6 else 8)
    ensures |VN_LOWER| == 67 && VN_LOWER[slot * 4 + j] == SlotRow(slot)[j * 2]
  {
    hide VN_UPPER, SAFE_KEYCODES;
  }

  lemma SecondSlotsUpper(slot: nat, j: nat)
    requires 4 <= slot < 7 && j < 4 && slot * 4 + j < 67
    ensures |SlotRow(slot)| == (if slot == 16 then 6 else 8)
    ensures |VN_UPPER| == 67 && VN_UPPER[slot * 4 + j] == SlotRow(slot)[j * 2 + 1]
  {
    hide VN_LOWER, SAFE_KEYCODES;
  }

  lemma SecondSlotsDiffer(slot: nat, i: nat, j: nat)
    requires 4 <= slot < 7 && i < j < |SlotRow(slot)|
    ensures SlotRow(slot)[i] != SlotRow(slot)[j]
  {
    hide VN_LOWER, VN_UPPER, SAFE_KEYCODES;
  }

  lemma ThirdSlotsLower(slot: nat, j: nat)
    requires 7 <= slot < 10 && j < 4 && slot * 4 + j < 67
    ensures |SlotRow(slot)| == (if slot == 16 then 6 else 8)
    ensures |VN_LOWER| == 67 && VN_LOWER[slot * 4 + j] == SlotRow(slot)[j * 2]
  {
    hide VN_UPPER, SAFE_KEYCODES;
  }

  lemma ThirdSlotsUpper(slot: nat, j: nat)
    requires 7 <= slot < 10 && j < 4 && slot * 4 + j < 67
    ensures |SlotRow(slot)| == (if slot == 16 then 6 else 8)
    ensures |VN_UPPER| == 67 && VN_UPPER[slot * 4 + j] == SlotRow(slot)[j * 2 + 1]
  {
    hide VN_LOWER, SAFE_KEYCODES;
  }

  lemma ThirdSlotsDiffer(slot: nat, i: nat, j: nat)
    requires 7 <= slot < 10 && i < j < |SlotRow(slot)|
    ensures SlotRow(slot)[i] != SlotRow(slot)[j]
  {
    hide VN_LOWER, VN_UPPER, SAFE_KEYCODES;
  }

  lemma FourthSlotsLower(slot: nat, j: nat)
    requires 10 <= slot < 13 && j < 4 && slot * 4 + j < 67
    ensures |SlotRow(slot)| == (if slot == 16 then 6 else 8)
    ensures |VN_LOWER| == 67 && VN_LOWER[slot * 4 + j] == SlotRow(slot)[j * 2]
  {
    hide VN_UPPER, SAFE_KEYCODES;
  }

  lemma FourthSlotsUpper(slot: nat, j: nat)
    requires 10 <= slot < 13 && j < 4 && slot * 4 + j < 67
    ensures |SlotRow(slot)| == (if slot == 16 then 6 else 8)
    ensures |VN_UPPER| == 67 && VN_UPPER[slot * 4 + j] == SlotRow(slot)[j * 2 + 1]
  {
    hide VN_LOWER, SAFE_KEYCODES;
  }

  lemma FourthSlotsDiffer(slot: nat, i: nat, j: nat)
    requires 10 <= slot < 13 && i < j < |SlotRow(slot)|
    ensures SlotRow(slot)[i] != SlotRow(slot)[j]
  {
    hide VN_LOWER, VN_UPPER, SAFE_KEYCODES;
  }

  lemma LastSlotsLower(slot: nat, j: nat)
    requires 13 <= slot < 17 && j < 4 && slot * 4 + j < 67
    ensures |SlotRow(slot)| == (if slot == 16 then 6 else 8)
    ensures |VN_LOWER| == 67 && VN_LOWER[slot * 4 + j] == SlotRow(slot)[j * 2]
  {
    hide VN_UPPER, SAFE_KEYCODES;
  }

  lemma LastSlotsUpper(slot: nat, j: nat)
    requires 13 <= slot < 17 && j < 4 && slot * 4 + j < 67
    ensures |SlotRow(slot)| == (if slot == 16 then 6 else 8)
    ensures |VN_UPPER| == 67 && VN_UPPER[slot * 4 + j] == SlotRow(slot)[j * 2 + 1]
  {
    hide VN_LOWER, SAFE_KEYCODES;
  }

  lemma LastSlotsDiffer(slot: nat, i: nat, j: nat)
    requires 13 <= slot < 17 && i < j < |SlotRow(slot)|
    ensures SlotRow(slot)[i] != SlotRow(slot)[j]
  {
    hide VN_LOWER, VN_UPPER, SAFE_KEYCODES;
  }

  lemma SlotRowHolds(slot: nat, j: nat)
    requires j < 4 && slot * 4 + j < 67
    ensures RowHolds(slot, j)
  {
    hide VN_LOWER, VN_UPPER, SAFE_KEYCODES, SlotRow;
    if slot < 4 {
      FirstSlotsLower(slot, j);
      FirstSlotsUpper(slot, j);
    } else if slot < 7 {
      SecondSlotsLower(slot, j);
      SecondSlotsUpper(slot, j);
    } else if slot < 10 {
      ThirdSlotsLower(slot, j);
      ThirdSlotsUpper(slot, j);
    } else if slot < 13 {
      FourthSlotsLower(slot, j);
      FourthSlotsUpper(slot, j);
    } else {
      LastSlotsLower(slot, j);
      LastSlotsUpper(slot, j);
    }
  }

  lemma SlotLettersDiffer(slot: nat, i: nat, j: nat)
    requires i < |SlotRow(slot)| && j < |SlotRow(slot)| && i != j
    ensures SlotRow(slot)[i] != SlotRow(slot)[j]
  {
    hide VN_LOWER, VN_UPPER, SAFE_KEYCODES;
    var a, b := if i < j then i else j, if i < j then j else i;
    if slot < 4 {
      hide SlotRow;
      FirstSlotsDiffer(slot, a, b);
    } else if slot < 7 {
      hide SlotRow;
      SecondSlotsDiffer(slot, a, b);
    } else if slot < 10 {
      hide SlotRow;
      ThirdSlotsDiffer(slot, a, b);
    } else if slot < 13 {
      hide SlotRow;
      FourthSlotsDiffer(slot, a, b);
    } else if slot < 17 {
      hide SlotRow;
      LastSlotsDiffer(slot, a, b);
    }
  }

  /** The generated rows hold the letters of the slots, and void past the tables. */
  lemma RowSymbolIs(slot: nat, level: nat)
    requires slot < 17 && level < 8
    ensures |VN_LOWER| == |VN_UPPER|
    ensures RowSymbol(VN_LOWER, VN_UPPER, slot, level)
         == if level < |SlotRow(slot)| then Unicode(SlotRow(slot)[level]) else VoidSymbol
  {
    TablesPair();
    hide VN_LOWER, VN_UPPER, SAFE_KEYCODES, SlotRow;
    SlotRowHolds(slot, 0);
    if slot * 4 + level / 2 < 67 {
      SlotRowHolds(slot, level / 2);
    }
  }

  /** No letter stands at two levels of a slot. */
  lemma LevelIsUnique(slot: nat, a: nat, b: nat)
    requires slot < 17 && a < 8 && b < 8
    ensures |VN_LOWER| == |VN_UPPER|
    ensures RowSymbol(VN_LOWER, VN_UPPER, slot, a) == RowSymbol(VN_LOWER, VN_UPPER, slot, b) != VoidSymbol ==> a == b
  {
    TablesPair();
    hide VN_LOWER, VN_UPPER, SAFE_KEYCODES, SlotRow, RowSymbol;
    RowSymbolIs(slot, a);
    RowSymbolIs(slot, b);
    if a != b && a < |SlotRow(slot)| && b < |SlotRow(slot)| {
      SlotLettersDiffer(slot, a, b);
    }
  }

  // ---------- a mask the user holds ----------

  /** Every level-selecting modifier the user holds is one the character asks for. */
  predicate HoldsOnly(held: bv32, mods: bv32) {
    && (Has(held, MOD_SHIFT) ==> Has(mods, MOD_SHIFT))
    && (Has(held, MOD_LEVEL3) ==> Has(mods, MOD_LEVEL3))
    && (Has(held, MOD_LEVEL5) ==> Has(mods, MOD_LEVEL5))
  }

  /** The mask in force when a character is emitted over held modifiers. */
  function Joined(held: bv32, mods: bv32): bv32 {
    held | mods
  }

  lemma UnionOfMasks(a: bv32, b: bv32)
    ensures Has(Joined(a, b), MOD_SHIFT) == (Has(a, MOD_SHIFT) || Has(b, MOD_SHIFT))
    ensures Has(Joined(a, b), MOD_LEVEL3) == (Has(a, MOD_LEVEL3) || Has(b, MOD_LEVEL3))
    ensures Has(Joined(a, b), MOD_LEVEL5) == (Has(a, MOD_LEVEL5) || Has(b, MOD_LEVEL5))
  {
  }

  /** The level tells the three bits apart. */
  lemma SelectedLevelExact(a: bv32, b: bv32)
    ensures SelectedLevel(a) == SelectedLevel(b)
       <==> (Has(a, MOD_SHIFT) == Has(b, MOD_SHIFT) && Has(a, MOD_LEVEL3) == Has(b, MOD_LEVEL3)
             && Has(a, MOD_LEVEL5) == Has(b, MOD_LEVEL5))
  {
    hide VN_LOWER, VN_UPPER, SAFE_KEYCODES, Has;
  }

  lemma JoinedLevelExact(held: bv32, mods: bv32, both: bv32)
    requires Has(both, MOD_SHIFT) == (Has(held, MOD_SHIFT) || Has(mods, MOD_SHIFT))
    requires Has(both, MOD_LEVEL3) == (Has(held, MOD_LEVEL3) || Has(mods, MOD_LEVEL3))
    requires Has(both, MOD_LEVEL5) == (Has(held, MOD_LEVEL5) || Has(mods, MOD_LEVEL5))
    ensures SelectedLevel(both) == SelectedLevel(mods) <==> HoldsOnly(held, mods)
  {
    hide Has, SelectedLevel;
    SelectedLevelExact(both, mods);
  }

  /** Held modifiers leave the level alone exactly when the character asks for each of them. */
  lemma HeldLevelExact(held: bv32, level: nat)
    requires 1 <= level <= 8
    ensures SelectedLevel(Joined(held, LevelMods(level))) == level <==> HoldsOnly(held, LevelMods(level))
  {
    hide *;
    LevelRoundTrip(level);
    UnionOfMasks(held, LevelMods(level));
    JoinedLevelExact(held, LevelMods(level), Joined(held, LevelMods(level)));
  }

  /** When a character emitted over held modifiers is read as itself.  A letter of the tables stands at one
  level of its key, so every held level modifier must be one it asks for; an ASCII key answers to Shift
  alone, and the space bar to nothing. */
  predicate ReadsUnder(c: char, held: bv32)
    requires CharToEmit(c).Some?
  {
    var mods := CharToEmit(c).value.mods;
    if LocateVn(c).Some? then HoldsOnly(held, mods)
    else c == ' ' || (Has(held, MOD_SHIFT) ==> Has(mods, MOD_SHIFT))
  }

  lemma TableLetterReads(c: char, held: bv32)
    requires LocateVn(c).Some?
    ensures var spec := CharToEmit(c).value;
            KeySymbol(spec.keycode, Joined(held, spec.mods)) == Some(c) <==> HoldsOnly(held, spec.mods)
  {
    TablesPair();
    hide VN_LOWER, VN_UPPER, SAFE_KEYCODES, LevelMods, SelectedLevel, LocateVn, RowSymbol, HoldsOnly, Has, Joined, UsSymbol;
    var (slot, level) := LocateVn(c).value;
    SlotsAreNamed(slot);
    SlotRoundTrip(slot);
    SlotDecodes(c);
    HeldLevelExact(held, level);
    LevelIsUnique(slot, level - 1, SelectedLevel(Joined(held, LevelMods(level))) - 1);
  }

  /** Only the space bar reads the same with and without Shift. */
  lemma ShiftMatters(code: nat)
    requires UsLayout(code).Pair?
    ensures UsLayout(code).plain == UsLayout(code).shifted <==> code == 57
    ensures code == 57 ==> UsLayout(code).plain == ' '
    ensures code != 57 ==> UsLayout(code).plain != ' '
  {
    hide VN_LOWER, VN_UPPER, SAFE_KEYCODES;
  }

  lemma AsciiReads(c: char, held: bv32)
    requires LocateVn(c).None? && CharToEmit(c).Some?
    ensures var spec := CharToEmit(c).value;
            KeySymbol(spec.keycode, Joined(held, spec.mods)) == Some(c) <==> ReadsUnder(c, held)
  {
    assert !AsciiShift(' ') && !Has(0, MOD_SHIFT) && Has(MOD_SHIFT, MOD_SHIFT);
    hide VN_LOWER, VN_UPPER, SAFE_KEYCODES, UsLayout, AsciiKey, AsciiShift, LocateVn, Has, Joined;
    AsciiRoundTrip(c);
    AsciiIsNoSlot(AsciiKey(c));
    ShiftMatters(AsciiKey(c));
    UnionOfMasks(held, CharToEmit(c).value.mods);
  }

  /** A character emitted over held modifiers is read as itself exactly when `ReadsUnder` says so. */
  lemma EmitDecodesHeldIff(c: char, held: bv32)
    requires CharToEmit(c).Some?
    ensures var spec := CharToEmit(c).value;
            KeySymbol(spec.keycode, Joined(held, spec.mods)) == Some(c) <==> ReadsUnder(c, held)
  {
    hide CharToEmit, KeySymbol, LocateVn, HoldsOnly, Has, Joined;
    if LocateVn(c).Some? {
      TableLetterReads(c, held);
    } else {
      AsciiReads(c, held);
    }
  }

  lemma ShiftedLevel(level: nat, held: bv32)
    requires 1 <= level <= 8 && level % 2 == 1
    requires Has(held, MOD_SHIFT) && !Has(held, MOD_LEVEL3) && !Has(held, MOD_LEVEL5)
    ensures SelectedLevel(Joined(held, LevelMods(level))) == level + 1
  {
    hide VN_LOWER, VN_UPPER, SAFE_KEYCODES;
  }

  lemma SmallLetterSlot(c: char)
    requires c in VN_LOWER
    ensures LocateVn(c).Some? && IndexOf(c, VN_LOWER).value < |VN_UPPER| == |VN_LOWER|
    ensures var (slot, level) := LocateVn(c).value;
            level % 2 == 1
            && RowSymbol(VN_LOWER, VN_UPPER, slot, level) == Unicode(VN_UPPER[IndexOf(c, VN_LOWER).value])
  {
    TablesPair();
    hide VN_LOWER, VN_UPPER;
  }

  /** The modifier dance adds to what the user holds and drops nothing of it: a small letter emitted
  under a held Shift reads as its capital. */
  lemma HeldShiftCapitalises(c: char, held: bv32)
    requires c in VN_LOWER
    requires Has(held, MOD_SHIFT) && !Has(held, MOD_LEVEL3) && !Has(held, MOD_LEVEL5)
    ensures CharToEmit(c).Some? && IndexOf(c, VN_LOWER).value < |VN_UPPER|
    ensures var spec := CharToEmit(c).value;
            KeySymbol(spec.keycode, Joined(held, spec.mods)) == Some(VN_UPPER[IndexOf(c, VN_LOWER).value])
  {
    SmallLetterSlot(c);
    hide VN_LOWER, VN_UPPER, SAFE_KEYCODES, AsciiEvdev, UsSymbol, LevelMods, SelectedLevel, RowSymbol, Has;
    var (slot, level) := LocateVn(c).value;
    SlotRoundTrip(slot);
    ShiftedLevel(level, held);
  }

  // ---------- Lock ----------

  const MOD_LOCK: bv32 := 0x02

  /** A key of the alphabetic type. */
  predicate IsLetterKey(code: nat) {
    UsLayout(code).Pair? && 'a' <= UsLayout(code).plain <= 'z'
  }

  function Toggled(mask: bv32): bv32 {
    mask ^ MOD_SHIFT
  }

  /** What Lock makes of a mask: it inverts Shift on an ASCII letter, turns the letters of the tables into
  capitals, and leaves any other key alone. */
  function LockedMask(code: nat, mask: bv32): bv32 {
    if !Has(mask, MOD_LOCK) then mask
    else if code in SAFE_KEYCODES then Joined(mask, MOD_SHIFT)
    else if IsLetterKey(code) then Toggled(mask)
    else mask
  }

  /** When a character emitted over held modifiers is read as itself, Lock included. */
  predicate ReadsLocked(c: char, held: bv32)
    requires CharToEmit(c).Some?
  {
    var mods := CharToEmit(c).value.mods;
    if !Has(held, MOD_LOCK) then ReadsUnder(c, held)
    else if LocateVn(c).Some? then Has(mods, MOD_SHIFT) && HoldsOnly(held, mods)
    else if IsAsciiAlphabetic(c) then !Has(mods, MOD_SHIFT) && Has(held, MOD_SHIFT)
    else ReadsUnder(c, held)
  }

  lemma JoinedLock(a: bv32, b: bv32)
    ensures Has(Joined(a, b), MOD_LOCK) == (Has(a, MOD_LOCK) || Has(b, MOD_LOCK))
  {
    hide VN_LOWER, VN_UPPER, SAFE_KEYCODES;
  }

  lemma ShiftJoined(a: bv32, b: bv32)
    ensures Joined(Joined(a, b), MOD_SHIFT) == Joined(Joined(a, MOD_SHIFT), b)
  {
    hide VN_LOWER, VN_UPPER, SAFE_KEYCODES;
  }

  lemma ShiftToggled(a: bv32)
    ensures Has(Toggled(a), MOD_SHIFT) == !Has(a, MOD_SHIFT)
  {
    hide VN_LOWER, VN_UPPER, SAFE_KEYCODES;
  }

  lemma ShiftBits()
    ensures Has(MOD_SHIFT, MOD_SHIFT) && !Has(MOD_SHIFT, MOD_LEVEL3) && !Has(MOD_SHIFT, MOD_LEVEL5)
  {
    hide VN_LOWER, VN_UPPER, SAFE_KEYCODES;
  }

  lemma LevelHasNoLock(level: nat)
    ensures !Has(LevelMods(level), MOD_LOCK) && !Has(0, MOD_LOCK) && !Has(MOD_SHIFT, MOD_LOCK)
  {
    hide VN_LOWER, VN_UPPER, SAFE_KEYCODES;
  }

  /** No character asks for Lock. */
  lemma SpecHasNoLock(c: char)
    requires CharToEmit(c).Some?
    ensures !Has(CharToEmit(c).value.mods, MOD_LOCK)
  {
    hide VN_LOWER, VN_UPPER, SAFE_KEYCODES, LocateVn, AsciiKey, AsciiShift, Has, LevelMods;
    match LocateVn(c)
    case Some((slot, level)) => LevelHasNoLock(level);
    case None => LevelHasNoLock(0);
  }

  /** A letter key holds a letter and its capital, any other neither. */
  predicate PairsLetters(code: nat)
    requires UsLayout(code).Pair?
  {
    var pair := UsLayout(code);
    if IsLetterKey(code) then pair.shifted == pair.plain - 32 as char
    else !IsAsciiAlphabetic(pair.plain) && !IsAsciiAlphabetic(pair.shifted)
  }

  lemma FirstKeys(code: nat)
    requires UsLayout(code).Pair? && code < 26
    ensures PairsLetters(code)
  {
    hide VN_LOWER, VN_UPPER, SAFE_KEYCODES;
  }

  lemma LastKeys(code: nat)
    requires UsLayout(code).Pair? && code >= 26
    ensures PairsLetters(code)
  {
    hide VN_LOWER, VN_UPPER, SAFE_KEYCODES;
  }

  /** Under Lock a letter of the tables is read over one more Shift. */
  lemma TableLetterLocked(c: char, held: bv32)
    requires LocateVn(c).Some? && Has(held, MOD_LOCK)
    ensures var spec := CharToEmit(c).value;
            KeySymbol(spec.keycode, LockedMask(spec.keycode, Joined(held, spec.mods))) == Some(c)
            <==> Has(spec.mods, MOD_SHIFT) && HoldsOnly(held, spec.mods)
  {
    hide VN_LOWER, VN_UPPER, SAFE_KEYCODES, LocateVn, KeySymbol, Has, Joined, LevelMods, UsLayout;
    var spec := CharToEmit(c).value;
    JoinedLock(held, spec.mods);
    ShiftJoined(held, spec.mods);
    ShiftBits();
    UnionOfMasks(held, MOD_SHIFT);
    TableLetterReads(c, Joined(held, MOD_SHIFT));
  }

  lemma AsciiSymbol(c: char, mask: bv32)
    requires LocateVn(c).None? && CharToEmit(c).Some?
    ensures var code := CharToEmit(c).value.keycode;
            && code !in SAFE_KEYCODES && UsLayout(code).Pair?
            && KeySymbol(code, mask) == UsSymbol(code, Has(mask, MOD_SHIFT))
            && c == (if Has(CharToEmit(c).value.mods, MOD_SHIFT) then UsLayout(code).shifted else UsLayout(code).plain)
  {
    assert !Has(0, MOD_SHIFT) && Has(MOD_SHIFT, MOD_SHIFT);
    hide VN_LOWER, VN_UPPER, SAFE_KEYCODES, UsLayout, AsciiKey, AsciiShift, LocateVn, Has;
    AsciiRoundTrip(c);
    AsciiIsNoSlot(AsciiKey(c));
  }

  /** A letter is a letter key's, and any other character is not. */
  lemma AsciiPairs(c: char)
    requires LocateVn(c).None? && CharToEmit(c).Some?
    ensures var code := CharToEmit(c).value.keycode;
            && UsLayout(code).Pair? && PairsLetters(code) && (IsLetterKey(code) <==> IsAsciiAlphabetic(c))
  {
    hide VN_LOWER, VN_UPPER, SAFE_KEYCODES, LocateVn, CharToEmit, KeySymbol, Has;
    AsciiSymbol(c, 0);
    var code := CharToEmit(c).value.keycode;
    hide UsLayout;
    if code < 26 {
      FirstKeys(code);
    } else {
      LastKeys(code);
    }
  }

  lemma AsciiLocked(c: char, held: bv32)
    requires LocateVn(c).None? && CharToEmit(c).Some? && Has(held, MOD_LOCK)
    ensures var spec := CharToEmit(c).value;
            KeySymbol(spec.keycode, LockedMask(spec.keycode, Joined(held, spec.mods))) == Some(c)
            <==> ReadsLocked(c, held)
  {
    hide VN_LOWER, VN_UPPER, SAFE_KEYCODES, UsLayout, CharToEmit, LocateVn, KeySymbol, Has, Joined, Toggled, ReadsUnder;
    var spec := CharToEmit(c).value;
    AsciiPairs(c);
    JoinedLock(held, spec.mods);
    AsciiSymbol(c, Toggled(Joined(held, spec.mods)));
    if IsLetterKey(spec.keycode) {
      ShiftToggled(Joined(held, spec.mods));
      UnionOfMasks(held, spec.mods);
    } else {
      hide IsLetterKey, IsAsciiAlphabetic;
      EmitDecodesHeldIff(c, held);
    }
  }

  /** The client reads a character emitted over held modifiers as itself exactly when `ReadsLocked` says so. */
  lemma EmitDecodesLockedIff(c: char, held: bv32)
    requires CharToEmit(c).Some?
    ensures var spec := CharToEmit(c).value;
            KeySymbol(spec.keycode, LockedMask(spec.keycode, Joined(held, spec.mods))) == Some(c)
            <==> ReadsLocked(c, held)
  {
    hide CharToEmit, KeySymbol, LocateVn, HoldsOnly, Has, Joined, ReadsUnder, SAFE_KEYCODES;
    SpecHasNoLock(c);
    JoinedLock(held, CharToEmit(c).value.mods);
    if !Has(held, MOD_LOCK) {
      EmitDecodesHeldIff(c, held);
    } else if LocateVn(c).Some? {
      TableLetterLocked(c, held);
    } else {
      AsciiLocked(c, held);
    }
  }
}
