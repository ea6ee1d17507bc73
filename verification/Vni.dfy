/** The VNI reversal: from composed text back to the keys that type it, and why those keys can be read
in one way only. */
module Vni {
  import opened Texts
  import opened Engines

  /** A letter, its mark (6 circumflex, 7 horn, 8 breve, 9 stroke) and its tone (1 to 5); 0 for none. */
  datatype Strokes = Strokes(letter: char, mark: nat, tone: nat)

  /** The keys themselves: the letter, and a digit for the mark and for the tone. */
  function Keys(s: Strokes): string {
    [s.letter] + Digit(s.mark) + Digit(s.tone)
  }

  function Digit(n: nat): string {
    if n == 0 then "" else ['0' + (n % 10) as char]
  }

  function SmallA(c: char): Option<Strokes> {
    match c
    case 'á' => Some(Strokes('a', 0, 1)) case 'à' => Some(Strokes('a', 0, 2))
    case 'ả' => Some(Strokes('a', 0, 3)) case 'ã' => Some(Strokes('a', 0, 4))
    case 'ạ' => Some(Strokes('a', 0, 5)) case 'â' => Some(Strokes('a', 6, 0))
    case 'ấ' => Some(Strokes('a', 6, 1)) case 'ầ' => Some(Strokes('a', 6, 2))
    case 'ẩ' => Some(Strokes('a', 6, 3)) case 'ẫ' => Some(Strokes('a', 6, 4))
    case 'ậ' => Some(Strokes('a', 6, 5)) case 'ă' => Some(Strokes('a', 8, 0))
    case 'ắ' => Some(Strokes('a', 8, 1)) case 'ằ' => Some(Strokes('a', 8, 2))
    case 'ẳ' => Some(Strokes('a', 8, 3)) case 'ẵ' => Some(Strokes('a', 8, 4))
    case 'ặ' => Some(Strokes('a', 8, 5))
    case _ => None
  }

  function CapitalA(c: char): Option<Strokes> {
    match c
    case 'Á' => Some(Strokes('A', 0, 1)) case 'À' => Some(Strokes('A', 0, 2))
    case 'Ả' => Some(Strokes('A', 0, 3)) case 'Ã' => Some(Strokes('A', 0, 4))
    case 'Ạ' => Some(Strokes('A', 0, 5)) case 'Â' => Some(Strokes('A', 6, 0))
    case 'Ấ' => Some(Strokes('A', 6, 1)) case 'Ầ' => Some(Strokes('A', 6, 2))
    case 'Ẩ' => Some(Strokes('A', 6, 3)) case 'Ẫ' => Some(Strokes('A', 6, 4))
    case 'Ậ' => Some(Strokes('A', 6, 5)) case 'Ă' => Some(Strokes('A', 8, 0))
    case 'Ắ' => Some(Strokes('A', 8, 1)) case 'Ằ' => Some(Strokes('A', 8, 2))
    case 'Ẳ' => Some(Strokes('A', 8, 3)) case 'Ẵ' => Some(Strokes('A', 8, 4))
    case 'Ặ' => Some(Strokes('A', 8, 5))
    case _ => None
  }

  function SmallE(c: char): Option<Strokes> {
    match c
    case 'é' => Some(Strokes('e', 0, 1)) case 'è' => Some(Strokes('e', 0, 2))
    case 'ẻ' => Some(Strokes('e', 0, 3)) case 'ẽ' => Some(Strokes('e', 0, 4))
    case 'ẹ' => Some(Strokes('e', 0, 5)) case 'ê' => Some(Strokes('e', 6, 0))
    case 'ế' => Some(Strokes('e', 6, 1)) case 'ề' => Some(Strokes('e', 6, 2))
    case 'ể' => Some(Strokes('e', 6, 3)) case 'ễ' => Some(Strokes('e', 6, 4))
    case 'ệ' => Some(Strokes('e', 6, 5))
    case _ => None
  }

  function CapitalE(c: char): Option<Strokes> {
    match c
    case 'É' => Some(Strokes('E', 0, 1)) case 'È' => Some(Strokes('E', 0, 2))
    case 'Ẻ' => Some(Strokes('E', 0, 3)) case 'Ẽ' => Some(Strokes('E', 0, 4))
    case 'Ẹ' => Some(Strokes('E', 0, 5)) case 'Ê' => Some(Strokes('E', 6, 0))
    case 'Ế' => Some(Strokes('E', 6, 1)) case 'Ề' => Some(Strokes('E', 6, 2))
    case 'Ể' => Some(Strokes('E', 6, 3)) case 'Ễ' => Some(Strokes('E', 6, 4))
    case 'Ệ' => Some(Strokes('E', 6, 5))
    case _ => None
  }

  function SmallI(c: char): Option<Strokes> {
    match c
    case 'í' => Some(Strokes('i', 0, 1)) case 'ì' => Some(Strokes('i', 0, 2))
    case 'ỉ' => Some(Strokes('i', 0, 3)) case 'ĩ' => Some(Strokes('i', 0, 4))
    case 'ị' => Some(Strokes('i', 0, 5))
    case _ => None
  }

  function CapitalI(c: char): Option<Strokes> {
    match c
    case 'Í' => Some(Strokes('I', 0, 1)) case 'Ì' => Some(Strokes('I', 0, 2))
    case 'Ỉ' => Some(Strokes('I', 0, 3)) case 'Ĩ' => Some(Strokes('I', 0, 4))
    case 'Ị' => Some(Strokes('I', 0, 5))
    case _ => None
  }

  function SmallO(c: char): Option<Strokes> {
    match c
    case 'ó' => Some(Strokes('o', 0, 1)) case 'ò' => Some(Strokes('o', 0, 2))
    case 'ỏ' => Some(Strokes('o', 0, 3)) case 'õ' => Some(Strokes('o', 0, 4))
    case 'ọ' => Some(Strokes('o', 0, 5)) case 'ô' => Some(Strokes('o', 6, 0))
    case 'ố' => Some(Strokes('o', 6, 1)) case 'ồ' => Some(Strokes('o', 6, 2))
    case 'ổ' => Some(Strokes('o', 6, 3)) case 'ỗ' => Some(Strokes('o', 6, 4))
    case 'ộ' => Some(Strokes('o', 6, 5)) case 'ơ' => Some(Strokes('o', 7, 0))
    case 'ớ' => Some(Strokes('o', 7, 1)) case 'ờ' => Some(Strokes('o', 7, 2))
    case 'ở' => Some(Strokes('o', 7, 3)) case 'ỡ' => Some(Strokes('o', 7, 4))
    case 'ợ' => Some(Strokes('o', 7, 5))
    case _ => None
  }

  function CapitalO(c: char): Option<Strokes> {
    match c
    case 'Ó' => Some(Strokes('O', 0, 1)) case 'Ò' => Some(Strokes('O', 0, 2))
    case 'Ỏ' => Some(Strokes('O', 0, 3)) case 'Õ' => Some(Strokes('O', 0, 4))
    case 'Ọ' => Some(Strokes('O', 0, 5)) case 'Ô' => Some(Strokes('O', 6, 0))
    case 'Ố' => Some(Strokes('O', 6, 1)) case 'Ồ' => Some(Strokes('O', 6, 2))
    case 'Ổ' => Some(Strokes('O', 6, 3)) case 'Ỗ' => Some(Strokes('O', 6, 4))
    case 'Ộ' => Some(Strokes('O', 6, 5)) case 'Ơ' => Some(Strokes('O', 7, 0))
    case 'Ớ' => Some(Strokes('O', 7, 1)) case 'Ờ' => Some(Strokes('O', 7, 2))
    case 'Ở' => Some(Strokes('O', 7, 3)) case 'Ỡ' => Some(Strokes('O', 7, 4))
    case 'Ợ' => Some(Strokes('O', 7, 5))
    case _ => None
  }

  function SmallU(c: char): Option<Strokes> {
    match c
    case 'ú' => Some(Strokes('u', 0, 1)) case 'ù' => Some(Strokes('u', 0, 2))
    case 'ủ' => Some(Strokes('u', 0, 3)) case 'ũ' => Some(Strokes('u', 0, 4))
    case 'ụ' => Some(Strokes('u', 0, 5)) case 'ư' => Some(Strokes('u', 7, 0))
    case 'ứ' => Some(Strokes('u', 7, 1)) case 'ừ' => Some(Strokes('u', 7, 2))
    case 'ử' => Some(Strokes('u', 7, 3)) case 'ữ' => Some(Strokes('u', 7, 4))
    case 'ự' => Some(Strokes('u', 7, 5))
    case _ => None
  }

  function CapitalU(c: char): Option<Strokes> {
    match c
    case 'Ú' => Some(Strokes('U', 0, 1)) case 'Ù' => Some(Strokes('U', 0, 2))
    case 'Ủ' => Some(Strokes('U', 0, 3)) case 'Ũ' => Some(Strokes('U', 0, 4))
    case 'Ụ' => Some(Strokes('U', 0, 5)) case 'Ư' => Some(Strokes('U', 7, 0))
    case 'Ứ' => Some(Strokes('U', 7, 1)) case 'Ừ' => Some(Strokes('U', 7, 2))
    case 'Ử' => Some(Strokes('U', 7, 3)) case 'Ữ' => Some(Strokes('U', 7, 4))
    case 'Ự' => Some(Strokes('U', 7, 5))
    case _ => None
  }

  function SmallY(c: char): Option<Strokes> {
    match c
    case 'ý' => Some(Strokes('y', 0, 1)) case 'ỳ' => Some(Strokes('y', 0, 2))
    case 'ỷ' => Some(Strokes('y', 0, 3)) case 'ỹ' => Some(Strokes('y', 0, 4))
    case 'ỵ' => Some(Strokes('y', 0, 5))
    case _ => None
  }

  function CapitalY(c: char): Option<Strokes> {
    match c
    case 'Ý' => Some(Strokes('Y', 0, 1)) case 'Ỳ' => Some(Strokes('Y', 0, 2))
    case 'Ỷ' => Some(Strokes('Y', 0, 3)) case 'Ỹ' => Some(Strokes('Y', 0, 4))
    case 'Ỵ' => Some(Strokes('Y', 0, 5))
    case _ => None
  }

  function SmallD(c: char): Option<Strokes> {
    match c
    case 'đ' => Some(Strokes('d', 9, 0))
    case _ => None
  }

  function CapitalD(c: char): Option<Strokes> {
    match c
    case 'Đ' => Some(Strokes('D', 9, 0))
    case _ => None
  }

  function Either(a: Option<Strokes>, b: Option<Strokes>): Option<Strokes> {
    if a.Some? then a else b
  }

  /** `vni_chars_from_composed`, one letter after the other. */
  function Glyph(c: char): Option<Strokes> {
    var small :=
      Either(SmallA(c), Either(SmallE(c), Either(SmallI(c), Either(SmallO(c),
      Either(SmallU(c), Either(SmallY(c), SmallD(c)))))));
    var capital :=
      Either(CapitalA(c), Either(CapitalE(c), Either(CapitalI(c), Either(CapitalO(c),
      Either(CapitalU(c), Either(CapitalY(c), CapitalD(c)))))));
    Either(small, capital)
  }

  // ---------- composing ----------

  function Toned(tone: nat, c0: char, c1: char, c2: char, c3: char, c4: char, c5: char): Option<char> {
    match tone
    case 0 => Some(c0) case 1 => Some(c1) case 2 => Some(c2) case 3 => Some(c3) case 4 => Some(c4) case 5 => Some(c5)
    case _ => None
  }

  function SmallComposed(letter: char, mark: nat, tone: nat): Option<char> {
    match letter
    case 'a' =>
      if mark == 0 then Toned(tone, 'a', 'á', 'à', 'ả', 'ã', 'ạ')
      else if mark == 6 then Toned(tone, 'â', 'ấ', 'ầ', 'ẩ', 'ẫ', 'ậ')
      else if mark == 8 then Toned(tone, 'ă', 'ắ', 'ằ', 'ẳ', 'ẵ', 'ặ')
      else None
    case 'e' =>
      if mark == 0 then Toned(tone, 'e', 'é', 'è', 'ẻ', 'ẽ', 'ẹ')
      else if mark == 6 then Toned(tone, 'ê', 'ế', 'ề', 'ể', 'ễ', 'ệ')
      else None
    case 'i' =>
      if mark == 0 then Toned(tone, 'i', 'í', 'ì', 'ỉ', 'ĩ', 'ị')
      else None
    case 'o' =>
      if mark == 0 then Toned(tone, 'o', 'ó', 'ò', 'ỏ', 'õ', 'ọ')
      else if mark == 6 then Toned(tone, 'ô', 'ố', 'ồ', 'ổ', 'ỗ', 'ộ')
      else if mark == 7 then Toned(tone, 'ơ', 'ớ', 'ờ', 'ở', 'ỡ', 'ợ')
      else None
    case 'u' =>
      if mark == 0 then Toned(tone, 'u', 'ú', 'ù', 'ủ', 'ũ', 'ụ')
      else if mark == 7 then Toned(tone, 'ư', 'ứ', 'ừ', 'ử', 'ữ', 'ự')
      else None
    case 'y' =>
      if mark == 0 then Toned(tone, 'y', 'ý', 'ỳ', 'ỷ', 'ỹ', 'ỵ')
      else None
    case 'd' => if mark == 9 && tone == 0 then Some('đ') else None
    case _ => None
  }

  function CapitalComposed(letter: char, mark: nat, tone: nat): Option<char> {
    match letter
    case 'A' =>
      if mark == 0 then Toned(tone, 'A', 'Á', 'À', 'Ả', 'Ã', 'Ạ')
      else if mark == 6 then Toned(tone, 'Â', 'Ấ', 'Ầ', 'Ẩ', 'Ẫ', 'Ậ')
      else if mark == 8 then Toned(tone, 'Ă', 'Ắ', 'Ằ', 'Ẳ', 'Ẵ', 'Ặ')
      else None
    case 'E' =>
      if mark == 0 then Toned(tone, 'E', 'É', 'È', 'Ẻ', 'Ẽ', 'Ẹ')
      else if mark == 6 then Toned(tone, 'Ê', 'Ế', 'Ề', 'Ể', 'Ễ', 'Ệ')
      else None
    case 'I' =>
      if mark == 0 then Toned(tone, 'I', 'Í', 'Ì', 'Ỉ', 'Ĩ', 'Ị')
      else None
    case 'O' =>
      if mark == 0 then Toned(tone, 'O', 'Ó', 'Ò', 'Ỏ', 'Õ', 'Ọ')
      else if mark == 6 then Toned(tone, 'Ô', 'Ố', 'Ồ', 'Ổ', 'Ỗ', 'Ộ')
      else if mark == 7 then Toned(tone, 'Ơ', 'Ớ', 'Ờ', 'Ở', 'Ỡ', 'Ợ')
      else None
    case 'U' =>
      if mark == 0 then Toned(tone, 'U', 'Ú', 'Ù', 'Ủ', 'Ũ', 'Ụ')
      else if mark == 7 then Toned(tone, 'Ư', 'Ứ', 'Ừ', 'Ử', 'Ữ', 'Ự')
      else None
    case 'Y' =>
      if mark == 0 then Toned(tone, 'Y', 'Ý', 'Ỳ', 'Ỷ', 'Ỹ', 'Ỵ')
      else None
    case 'D' => if mark == 9 && tone == 0 then Some('Đ') else None
    case _ => None
  }

  /** The character that a letter, a mark and a tone make in Vietnamese. */
  function Composed(s: Strokes): Option<char> {
    if s.mark == 0 && s.tone == 0 then Some(s.letter)
    else if 'a' <= s.letter <= 'z' then SmallComposed(s.letter, s.mark, s.tone)
    else CapitalComposed(s.letter, s.mark, s.tone)
  }

  predicate IsMark(mark: nat) {
    mark == 0 || 6 <= mark <= 9
  }

  /** Strokes with one meaning: those of `c`. */
  predicate Means(s: Option<Strokes>, c: char) {
    s.Some? ==>
      && Composed(s.value) == Some(c)
      && IsAsciiAlphabetic(s.value.letter) && IsMark(s.value.mark) && s.value.tone <= 5
      && (c > '~' || s.value == Strokes(c, 0, 0))
  }

  lemma SmallAMeans(c: char)
    ensures Means(SmallA(c), c)
  {
  }

  lemma SmallEMeans(c: char)
    ensures Means(SmallE(c), c)
  {
  }

  lemma SmallIMeans(c: char)
    ensures Means(SmallI(c), c)
  {
  }

  lemma SmallOMeans(c: char)
    ensures Means(SmallO(c), c)
  {
  }

  lemma SmallUMeans(c: char)
    ensures Means(SmallU(c), c)
  {
  }

  lemma SmallYMeans(c: char)
    ensures Means(SmallY(c), c)
  {
  }

  lemma SmallDMeans(c: char)
    ensures Means(SmallD(c), c)
  {
  }

  lemma CapitalAMeans(c: char)
    ensures Means(CapitalA(c), c)
  {
  }

  lemma CapitalEMeans(c: char)
    ensures Means(CapitalE(c), c)
  {
  }

  lemma CapitalIMeans(c: char)
    ensures Means(CapitalI(c), c)
  {
  }

  lemma CapitalOMeans(c: char)
    ensures Means(CapitalO(c), c)
  {
  }

  lemma CapitalUMeans(c: char)
    ensures Means(CapitalU(c), c)
  {
  }

  lemma CapitalYMeans(c: char)
    ensures Means(CapitalY(c), c)
  {
  }

  lemma CapitalDMeans(c: char)
    ensures Means(CapitalD(c), c)
  {
  }

  /** Every glyph of the table is what its strokes compose. */
  lemma GlyphMeans(c: char)
    ensures Means(Glyph(c), c)
  {
    hide Means, SmallA, SmallE, SmallI, SmallO, SmallU, SmallY, SmallD, CapitalA, CapitalE, CapitalI, CapitalO, CapitalU,
         CapitalY, CapitalD;
    SmallAMeans(c); SmallEMeans(c); SmallIMeans(c); SmallOMeans(c); SmallUMeans(c); SmallYMeans(c); SmallDMeans(c);
    CapitalAMeans(c); CapitalEMeans(c); CapitalIMeans(c); CapitalOMeans(c); CapitalUMeans(c); CapitalYMeans(c); CapitalDMeans(c);
  }

  // ---------- every letter has its entry ----------

  lemma SmallAHas(mark: nat, tone: nat)
    requires mark > 0 || tone > 0
    ensures var c := SmallComposed('a', mark, tone); c.Some? ==> SmallA(c.value) == Some(Strokes('a', mark, tone))
  {
  }

  lemma SmallEHas(mark: nat, tone: nat)
    requires mark > 0 || tone > 0
    ensures var c := SmallComposed('e', mark, tone); c.Some? ==> SmallE(c.value) == Some(Strokes('e', mark, tone))
  {
  }

  lemma SmallIHas(mark: nat, tone: nat)
    requires mark > 0 || tone > 0
    ensures var c := SmallComposed('i', mark, tone); c.Some? ==> SmallI(c.value) == Some(Strokes('i', mark, tone))
  {
  }

  lemma SmallOHas(mark: nat, tone: nat)
    requires mark > 0 || tone > 0
    ensures var c := SmallComposed('o', mark, tone); c.Some? ==> SmallO(c.value) == Some(Strokes('o', mark, tone))
  {
  }

  lemma SmallUHas(mark: nat, tone: nat)
    requires mark > 0 || tone > 0
    ensures var c := SmallComposed('u', mark, tone); c.Some? ==> SmallU(c.value) == Some(Strokes('u', mark, tone))
  {
  }

  lemma SmallYHas(mark: nat, tone: nat)
    requires mark > 0 || tone > 0
    ensures var c := SmallComposed('y', mark, tone); c.Some? ==> SmallY(c.value) == Some(Strokes('y', mark, tone))
  {
  }

  lemma SmallDHas(mark: nat, tone: nat)
    requires mark > 0 || tone > 0
    ensures var c := SmallComposed('d', mark, tone); c.Some? ==> SmallD(c.value) == Some(Strokes('d', mark, tone))
  {
  }

  lemma CapitalAHas(mark: nat, tone: nat)
    requires mark > 0 || tone > 0
    ensures var c := CapitalComposed('A', mark, tone); c.Some? ==> CapitalA(c.value) == Some(Strokes('A', mark, tone))
  {
  }

  lemma CapitalEHas(mark: nat, tone: nat)
    requires mark > 0 || tone > 0
    ensures var c := CapitalComposed('E', mark, tone); c.Some? ==> CapitalE(c.value) == Some(Strokes('E', mark, tone))
  {
  }

  lemma CapitalIHas(mark: nat, tone: nat)
    requires mark > 0 || tone > 0
    ensures var c := CapitalComposed('I', mark, tone); c.Some? ==> CapitalI(c.value) == Some(Strokes('I', mark, tone))
  {
  }

  lemma CapitalOHas(mark: nat, tone: nat)
    requires mark > 0 || tone > 0
    ensures var c := CapitalComposed('O', mark, tone); c.Some? ==> CapitalO(c.value) == Some(Strokes('O', mark, tone))
  {
  }

  lemma CapitalUHas(mark: nat, tone: nat)
    requires mark > 0 || tone > 0
    ensures var c := CapitalComposed('U', mark, tone); c.Some? ==> CapitalU(c.value) == Some(Strokes('U', mark, tone))
  {
  }

  lemma CapitalYHas(mark: nat, tone: nat)
    requires mark > 0 || tone > 0
    ensures var c := CapitalComposed('Y', mark, tone); c.Some? ==> CapitalY(c.value) == Some(Strokes('Y', mark, tone))
  {
  }

  lemma CapitalDHas(mark: nat, tone: nat)
    requires mark > 0 || tone > 0
    ensures var c := CapitalComposed('D', mark, tone); c.Some? ==> CapitalD(c.value) == Some(Strokes('D', mark, tone))
  {
  }

  lemma SmallHas(s: Strokes, c: char)
    requires (s.mark > 0 || s.tone > 0) && SmallComposed(s.letter, s.mark, s.tone) == Some(c)
    ensures Glyph(c).Some?
  {
    NoOtherLetter(s);
    hide SmallComposed, CapitalComposed, SmallA, SmallE, SmallI, SmallO, SmallU, SmallY, SmallD, CapitalA, CapitalE, CapitalI,
         CapitalO, CapitalU, CapitalY, CapitalD;
    SmallAHas(s.mark, s.tone); SmallEHas(s.mark, s.tone); SmallIHas(s.mark, s.tone); SmallOHas(s.mark, s.tone);
    SmallUHas(s.mark, s.tone); SmallYHas(s.mark, s.tone); SmallDHas(s.mark, s.tone);
  }

  lemma CapitalHas(s: Strokes, c: char)
    requires (s.mark > 0 || s.tone > 0) && CapitalComposed(s.letter, s.mark, s.tone) == Some(c)
    ensures Glyph(c).Some?
  {
    NoOtherLetter(s);
    hide SmallComposed, CapitalComposed, SmallA, SmallE, SmallI, SmallO, SmallU, SmallY, SmallD, CapitalA, CapitalE, CapitalI,
         CapitalO, CapitalU, CapitalY, CapitalD;
    CapitalAHas(s.mark, s.tone); CapitalEHas(s.mark, s.tone); CapitalIHas(s.mark, s.tone); CapitalOHas(s.mark, s.tone);
    CapitalUHas(s.mark, s.tone); CapitalYHas(s.mark, s.tone); CapitalDHas(s.mark, s.tone);
  }

  lemma NoOtherLetter(s: Strokes)
    ensures SmallComposed(s.letter, s.mark, s.tone).Some? ==> s.letter in "aeiouyd"
    ensures CapitalComposed(s.letter, s.mark, s.tone).Some? ==> s.letter in "AEIOUYD"
  {
    hide Toned;
  }

  lemma AsciiIsNoGlyph(c: char)
    requires c <= '~'
    ensures Glyph(c).None?
  {
    hide SmallA, SmallE, SmallI, SmallO, SmallU, SmallY, SmallD, CapitalA, CapitalE, CapitalI, CapitalO, CapitalU, CapitalY,
         CapitalD;
    AsciiIsNoSmall(c);
    AsciiIsNoCapital(c);
  }

  lemma AsciiIsNoSmall(c: char)
    requires c <= '~'
    ensures SmallA(c) == SmallE(c) == SmallI(c) == SmallO(c) == SmallU(c) == SmallY(c) == SmallD(c) == None
  {
  }

  lemma AsciiIsNoCapital(c: char)
    requires c <= '~'
    ensures CapitalA(c) == CapitalE(c) == CapitalI(c) == CapitalO(c) == CapitalU(c) == CapitalY(c) == CapitalD(c) == None
  {
  }

  /** The table holds exactly the letters that a mark or a tone makes, each with what makes it. */
  lemma GlyphExact(c: char)
    ensures Glyph(c).Some? <==> exists s: Strokes :: (s.mark > 0 || s.tone > 0) && Composed(s) == Some(c)
    ensures Glyph(c).Some? ==> Composed(Glyph(c).value) == Some(c)
  {
    hide Glyph, SmallComposed, CapitalComposed;
    GlyphMeans(c);
    if Glyph(c).Some? && Glyph(c).value.mark == 0 && Glyph(c).value.tone == 0 {
      AsciiIsNoGlyph(c);
    }
    forall s: Strokes | (s.mark > 0 || s.tone > 0) && Composed(s) == Some(c)
      ensures Glyph(c).Some?
    {
      if 'a' <= s.letter <= 'z' {
        SmallHas(s, c);
      } else {
        CapitalHas(s, c);
      }
    }
  }

  // ---------- reversal ----------

  /** `chars_from_composed`: a glyph, a letter or a digit; any other character is dropped. */
  function Reverse(c: char): string {
    var glyph := Glyph(c);
    if glyph.Some? then Keys(glyph.value)
    else if IsAsciiAlphabetic(c) || '0' <= c <= '9' then [c]
    else ""
  }

  predicate IsDigit(c: char) {
    '0' <= c <= '9'
  }

  /** The letters of a composed Vietnamese text. */
  predicate IsVniLetter(c: char) {
    Glyph(c).Some? || IsAsciiAlphabetic(c)
  }

  // ---------- reading keys ----------

  /** The mark that digits in front of `keys` give, and the digits it takes. */
  function MarkIn(keys: string): nat {
    if keys != "" && '6' <= keys[0] <= '9' then (keys[0] - '0') as nat else 0
  }

  function ToneIn(keys: string): nat {
    if keys != "" && '1' <= keys[0] <= '5' then (keys[0] - '0') as nat else 0
  }

  function Past(n: nat, keys: string): string
    requires n > 0 ==> keys != ""
  {
    if n > 0 then keys[1..] else keys
  }

  /** Splits at the letters: each takes the mark and the tone that follow it. */
  function Read(keys: string): Option<string>
    decreases |keys|
  {
    if keys == "" then Some("")
    else
      var mark := MarkIn(keys[1..]);
      var toned := Past(mark, keys[1..]);
      var tone := ToneIn(toned);
      var c := Composed(Strokes(keys[0], mark, tone));
      var rest := Read(Past(tone, toned));
      if c.Some? && rest.Some? then Some([c.value] + rest.value) else None
  }

  /** The strokes of any letter. */
  function StrokesOf(c: char): Strokes
    requires IsVniLetter(c)
  {
    if Glyph(c).Some? then Glyph(c).value else Strokes(c, 0, 0)
  }

  lemma StrokesOfMeans(c: char)
    requires IsVniLetter(c)
    ensures Means(Some(StrokesOf(c)), c)
    ensures Reverse(c) == Keys(StrokesOf(c))
  {
    hide Glyph, SmallComposed, CapitalComposed;
    GlyphMeans(c);
  }

  lemma DigitValue(n: nat)
    requires 0 < n < 10
    ensures |Digit(n)| == 1 && '1' <= Digit(n)[0] <= '9' && (Digit(n)[0] - '0') as nat == n
    ensures n <= 5 <==> Digit(n)[0] <= '5'
  {
  }

  lemma ReadMark(mark: nat, tail: string)
    requires IsMark(mark) && (tail == "" || !('6' <= tail[0] <= '9'))
    ensures MarkIn(Digit(mark) + tail) == mark && Past(mark, Digit(mark) + tail) == tail
  {
    if mark > 0 {
      DigitValue(mark);
      hide Digit;
    }
  }

  lemma ReadTone(tone: nat, tail: string)
    requires tone <= 5 && (tail == "" || !('1' <= tail[0] <= '5'))
    ensures ToneIn(Digit(tone) + tail) == tone && Past(tone, Digit(tone) + tail) == tail
  {
    if tone > 0 {
      DigitValue(tone);
      hide Digit;
    }
  }

  lemma ReadKeys(s: Strokes, rest: string)
    requires IsMark(s.mark) && s.tone <= 5
    requires rest == "" || !IsDigit(rest[0])
    ensures var keys := Keys(s) + rest;
            && keys[0] == s.letter && MarkIn(keys[1..]) == s.mark
            && ToneIn(Past(s.mark, keys[1..])) == s.tone
            && Past(s.tone, Past(s.mark, keys[1..])) == rest
  {
    var toned := Digit(s.tone) + rest;
    assert toned == "" || !('6' <= toned[0] <= '9') by {
      if s.tone > 0 {
        DigitValue(s.tone);
      }
    }
    hide Digit, MarkIn, ToneIn, Past;
    assert (Keys(s) + rest)[1..] == Digit(s.mark) + toned;
    ReadMark(s.mark, toned);
    ReadTone(s.tone, rest);
  }

  /** A Vietnamese text is read back from the keys that the VNI reversal gives for it. */
  lemma {:induction false} ContextReads(text: string)
    requires forall c <- text :: IsVniLetter(c)
    ensures Read(ContextFrom(Reverse, text)) == Some(text)
    ensures text != "" ==> ContextFrom(Reverse, text) != "" && IsAsciiAlphabetic(ContextFrom(Reverse, text)[0])
    decreases |text|
  {
    hide Glyph, Composed, Reverse, IsVniLetter, MarkIn, ToneIn, Past;
    if text != "" {
      var c := text[0];
      assert c in text && forall x <- text[1..] :: x in text;
      ContextReads(text[1..]);
      var rest := ContextFrom(Reverse, text[1..]);
      StrokesOfMeans(c);
      assert rest == "" || !IsDigit(rest[0]);
      ReadKeys(StrokesOf(c), rest);
      assert [c] + text[1..] == text;
    }
  }

  /** No two texts share their keys. */
  lemma ContextInjective(a: string, b: string)
    requires forall c <- a :: IsVniLetter(c)
    requires forall c <- b :: IsVniLetter(c)
    requires ContextFrom(Reverse, a) == ContextFrom(Reverse, b)
    ensures a == b
  {
    hide *;
    ContextReads(a);
    ContextReads(b);
  }

  lemma {:induction false} AsciiPasses(keys: string)
    requires forall c <- keys :: IsAsciiAlphabetic(c) || IsDigit(c)
    ensures ContextFrom(Reverse, keys) == keys
    decreases |keys|
  {
    hide Glyph, Composed;
    if keys != "" {
      assert keys[0] in keys && forall c <- keys[1..] :: c in keys;
      AsciiPasses(keys[1..]);
      GlyphMeans(keys[0]);
      assert Reverse(keys[0]) == [keys[0]];
      assert [keys[0]] + keys[1..] == keys;
    }
  }

  /** Digits of the text itself pass through, and then texts do share their keys: every accented letter
  with the letter and digits that spell it. */
  lemma DigitsCollide(c: char)
    requires Glyph(c).Some?
    ensures var spelled := Keys(Glyph(c).value);
            ContextFrom(Reverse, [c]) == ContextFrom(Reverse, spelled) == spelled
  {
    hide Glyph, Composed;
    GlyphMeans(c);
    var s := Glyph(c).value;
    assert forall x <- Keys(s) :: IsAsciiAlphabetic(x) || IsDigit(x) by {
      if s.mark > 0 {
        DigitValue(s.mark);
      }
      if s.tone > 0 {
        DigitValue(s.tone);
      }
    }
    AsciiPasses(Keys(s));
    assert [c][1..] == "";
    assert Keys(s) + "" == Keys(s);
  }
}
