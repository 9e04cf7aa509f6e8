/** The keyed emoji cipher of the back end: a Vigenère-style shift over the
    62-symbol alphabet of digits, lower-case and upper-case ASCII letters, followed
    by a character-by-character substitution through EMOJI_MAP; decryption pulls
    the emoji code points out of its input, maps them back through TEXT_MAP and
    undoes the shift.

    Strings are sequences of Unicode code points, as Python's `str` is. Character
    classes (`isalnum`, `isdigit`, `islower`) are taken on ASCII only. */
module Cipher {
  import opened EmojiTable

  // ---------------------------------------------------------------------------
  // Character classes and the 62-symbol alphabet
  // ---------------------------------------------------------------------------

  predicate IsDigit(c: char) { '0' <= c <= '9' }
  predicate IsLower(c: char) { 'a' <= c <= 'z' }
  predicate IsUpper(c: char) { 'A' <= c <= 'Z' }
  predicate IsAlnum(c: char) { IsDigit(c) || IsLower(c) || IsUpper(c) }

  /** The number of a character: 0-9 for digits, 10-35 for lower-case letters,
      36-61 for upper-case letters. Any other character falls into the last branch
      and gets `ord(c) - ord('A') + 36`, which may lie outside 0..61; only key
      characters reach it. */
  function CharNum(c: char): (n: int)
    ensures IsAlnum(c) <==> (0 <= n < 62 && (IsDigit(c) || IsLower(c) || 36 <= n))
    ensures IsDigit(c) ==> n < 10
    ensures IsLower(c) ==> 10 <= n < 36
    ensures IsUpper(c) ==> 36 <= n
  {
    if IsDigit(c) then c as int - '0' as int
    else if IsLower(c) then c as int - 'a' as int + 10
    else c as int - 'A' as int + 36
  }

  /** The character with number n. */
  function NumChar(n: int): (c: char)
    requires 0 <= n < 62
    ensures IsAlnum(c) && CharNum(c) == n
  {
    if n < 10 then (n + '0' as int) as char
    else if n < 36 then (n - 10 + 'a' as int) as char
    else (n - 36 + 'A' as int) as char
  }

  /** NumChar and CharNum are inverse bijections between 0..61 and the
      alphanumeric characters. */
  lemma NumCharOfCharNum(c: char)
    requires IsAlnum(c)
    ensures NumChar(CharNum(c)) == c
  {
  }

  // ---------------------------------------------------------------------------
  // shift_char and unshift_char
  // ---------------------------------------------------------------------------

  /** Python's `a % 62`. Python's remainder takes the sign of the divisor; for the
      positive divisor 62 that is the Euclidean remainder Dafny's `%` computes. */
  function PyMod62(a: int): (r: int)
    ensures 0 <= r < 62
    ensures (a - r) % 62 == 0
  {
    a % 62
  }

  /** shift_char: an alphanumeric character moves forward by the key character's
      number, modulo 62; any other character is returned as it is. */
  function ShiftChar(c: char, k: char): (r: char)
    ensures !IsAlnum(c) ==> r == c
    ensures IsAlnum(c) ==> IsAlnum(r) && CharNum(r) == (CharNum(c) + CharNum(k)) % 62
  {
    if !IsAlnum(c) then c
    else NumChar(PyMod62(CharNum(c) + CharNum(k)))
  }

  /** unshift_char: the same with the key's number subtracted. The source adds 62
      when the remainder is negative; Python's remainder never is, so that branch
      does nothing (UnshiftFixUpIsDead). */
  function UnshiftChar(c: char, k: char): (r: char)
    ensures !IsAlnum(c) ==> r == c
    ensures IsAlnum(c) ==> IsAlnum(r) && CharNum(r) == (CharNum(c) - CharNum(k)) % 62
  {
    if !IsAlnum(c) then c
    else
      var shifted := PyMod62(CharNum(c) - CharNum(k));
      var fixed := if shifted < 0 then shifted + 62 else shifted;
      NumChar(fixed)
  }

  /** The remainder unshift_char computes is never negative, so its fix-up branch
      changes nothing: an alphanumeric character is unshifted to the character whose
      number is the remainder itself. */
  lemma UnshiftFixUpIsDead(c: char, k: char)
    requires IsAlnum(c)
    ensures UnshiftChar(c, k) == NumChar(PyMod62(CharNum(c) - CharNum(k)))
  {
  }

  /** Two numbers of the alphabet that agree modulo 62 are equal. */
  lemma SameResidue(a: int, b: int)
    requires 0 <= a < 62 && 0 <= b < 62 && (a - b) % 62 == 0
    ensures a == b
  {
  }

  /** unshift_char undoes shift_char for every character and every key character. */
  lemma UnshiftShift(c: char, k: char)
    ensures UnshiftChar(ShiftChar(c, k), k) == c
  {
    if IsAlnum(c) {
      var s := ShiftChar(c, k);
      var r := UnshiftChar(s, k);
      var x := CharNum(r) - CharNum(s) + CharNum(k);
      var y := CharNum(s) - CharNum(c) - CharNum(k);
      assert (x + y) % 62 == 0 by {
        assert x % 62 == 0 && y % 62 == 0;
      }
      SameResidue(CharNum(r), CharNum(c));
      NumCharOfCharNum(r);
      NumCharOfCharNum(c);
    }
  }

  /** shift_char undoes unshift_char: for a fixed key character both are
      bijections of the alphabet. */
  lemma ShiftUnshift(c: char, k: char)
    ensures ShiftChar(UnshiftChar(c, k), k) == c
  {
    if IsAlnum(c) {
      var u := UnshiftChar(c, k);
      var r := ShiftChar(u, k);
      var x := CharNum(r) - CharNum(u) - CharNum(k);
      var y := CharNum(u) - CharNum(c) + CharNum(k);
      assert (x + y) % 62 == 0 by {
        assert x % 62 == 0 && y % 62 == 0;
      }
      SameResidue(CharNum(r), CharNum(c));
      NumCharOfCharNum(r);
      NumCharOfCharNum(c);
    }
  }

  /** Shifting keeps a character inside EMOJI_MAP and outside it: alphanumeric
      characters stay alphanumeric and all of those are keys, the others do not move. */
  lemma ShiftKeepsTableMembership(c: char, k: char)
    ensures EmojiMap(ShiftChar(c, k)).Some? <==> EmojiMap(c).Some?
  {
    AlnumHasGlyph(c);
    AlnumHasGlyph(ShiftChar(c, k));
  }

  /** Every alphanumeric character is a key of EMOJI_MAP. */
  lemma AlnumHasGlyph(c: char)
    ensures IsAlnum(c) ==> EmojiMap(c).Some?
  {
  }

  // ---------------------------------------------------------------------------
  // The key: `if custom_key:` and the cycling loop
  // ---------------------------------------------------------------------------

  /** Python's truth value of `custom_key`: neither None nor the empty string. */
  predicate HasKey(customKey: Option<string>)
  {
    customKey.Some? && customKey.value != []
  }

  /** The key loop: character i goes through `step` together with key character
      i mod |key|, counting every character, alphanumeric or not. */
  function KeyCycle(text: string, key: string, step: (char, char) -> char): (r: string)
    requires key != []
    ensures |r| == |text|
    ensures forall i :: 0 <= i < |text| ==> r[i] == step(text[i], key[i % |key|])
    decreases |text|
  {
    if text == [] then []
    else KeyCycle(text[..|text| - 1], key, step) + [step(text[|text| - 1], key[(|text| - 1) % |key|])]
  }

  /** The text after the key stage of encrypt_text (step ShiftChar) or of
      decrypt_text (step UnshiftChar): unchanged without a key. */
  function ApplyKey(text: string, customKey: Option<string>, step: (char, char) -> char): (r: string)
    ensures !HasKey(customKey) ==> r == text
    ensures HasKey(customKey) ==> |r| == |text|
    ensures HasKey(customKey) ==>
      forall i :: 0 <= i < |text| ==> r[i] == step(text[i], customKey.value[i % |customKey.value|])
  {
    if HasKey(customKey) then KeyCycle(text, customKey.value, step) else text
  }

  /** Decryption's key stage undoes encryption's: both use key character
      i mod |key| for character i. */
  lemma UnshiftUndoesShift(text: string, customKey: Option<string>)
    ensures ApplyKey(ApplyKey(text, customKey, ShiftChar), customKey, UnshiftChar) == text
  {
    if HasKey(customKey) {
      var key := customKey.value;
      var s := ApplyKey(text, customKey, ShiftChar);
      var u := ApplyKey(s, customKey, UnshiftChar);
      forall i | 0 <= i < |text|
        ensures u[i] == text[i]
      {
        UnshiftShift(text[i], key[i % |key|]);
      }
    }
  }

  // ---------------------------------------------------------------------------
  // encrypt_text
  // ---------------------------------------------------------------------------

  /** The glyph emitted for one character: its EMOJI_MAP entry, or the fallback. */
  function GlyphOf(c: char): (g: string)
    ensures g == FALLBACK <==> EmojiMap(c).None?
    ensures EmojiMap(c).Some? ==> EmojiMap(c) == Some(g)
    ensures 1 <= |g| <= 2
  {
    FallbackIsNoGlyph(c);
    match EmojiMap(c)
    case Some(glyph) => GlyphLength(c, glyph); glyph
    case None => FALLBACK
  }

  /** The glyphs of a text, one per character. */
  function Glyphs(text: string): (gs: seq<string>)
    ensures |gs| == |text|
    ensures forall i :: 0 <= i < |text| ==> gs[i] == GlyphOf(text[i])
  {
    seq(|text|, i requires 0 <= i < |text| => GlyphOf(text[i]))
  }

  /** The substitution loop appends the glyph of the next character. */
  lemma GlyphsStep(t: string, i: nat)
    requires i < |t|
    ensures Glyphs(t[..i + 1]) == Glyphs(t[..i]) + [GlyphOf(t[i])]
  {
  }

  /** Python's `''.join(parts)`. Parts of one or two code points each join into a
      string between one and two times as long as the list. */
  function Concat(parts: seq<string>): (s: string)
    ensures (forall i :: 0 <= i < |parts| ==> 1 <= |parts[i]| <= 2) ==>
      |parts| <= |s| <= 2 * |parts|
  {
    if parts == [] then [] else parts[0] + Concat(parts[1..])
  }

  /** What encrypt_text returns: one or two code points per character. */
  function Encrypt(text: string, customKey: Option<string>): (r: string)
    ensures |text| <= |r| <= 2 * |text|
  {
    Concat(Glyphs(ApplyKey(text, customKey, ShiftChar)))
  }

  /** The loop encrypt_text and decrypt_text share: character i goes through `step`
      with key character i mod |key|. */
  method KeyLoop(text: string, key: string, step: (char, char) -> char) returns (transformed: string)
    requires key != []
    ensures transformed == KeyCycle(text, key, step)
  {
    transformed := [];
    var keyLen := |key|;
    for i := 0 to |text|
      invariant transformed == KeyCycle(text[..i], key, step)
    {
      assert text[..i + 1][..i] == text[..i];
      var keyChar := key[i % keyLen];
      transformed := transformed + [step(text[i], keyChar)];
    }
    assert text[..|text|] == text;
  }

  /** encrypt_text: the key loop, then the substitution loop, then the join. */
  method EncryptText(text: string, customKey: Option<string>) returns (result: string)
    ensures result == Encrypt(text, customKey)
  {
    var t := text;
    if HasKey(customKey) {
      t := KeyLoop(text, customKey.value, ShiftChar);
    }
    var encrypted: seq<string> := [];
    for i := 0 to |t|
      invariant encrypted == Glyphs(t[..i])
    {
      GlyphsStep(t, i);
      var entry := EmojiMap(t[i]);
      if entry.Some? {
        encrypted := encrypted + [entry.value];
      } else {
        encrypted := encrypted + [FALLBACK];
      }
    }
    assert t[..|t|] == t;
    result := Concat(encrypted);
  }

  /** encrypt_text emits one glyph per input character; the fallback exactly for the
      characters that are not keys of EMOJI_MAP (shifting never moves a character
      into or out of the table), and otherwise the glyph of the shifted character. */
  lemma EncryptGlyphs(text: string, customKey: Option<string>)
    ensures var gs := Glyphs(ApplyKey(text, customKey, ShiftChar));
      && |gs| == |text|
      && (forall i :: 0 <= i < |text| ==> (gs[i] == FALLBACK <==> EmojiMap(text[i]).None?))
      && (forall i :: 0 <= i < |text| && gs[i] != FALLBACK ==>
            Some(gs[i]) == EmojiMap(ApplyKey(text, customKey, ShiftChar)[i]))
  {
    var s := ApplyKey(text, customKey, ShiftChar);
    forall i | 0 <= i < |text|
      ensures EmojiMap(s[i]).Some? <==> EmojiMap(text[i]).Some?
    {
      if HasKey(customKey) {
        ShiftKeepsTableMembership(text[i], customKey.value[i % |customKey.value|]);
      }
    }
  }

  // ---------------------------------------------------------------------------
  // decrypt_text
  // ---------------------------------------------------------------------------

  /** The character class of the emoji pattern: nine code-point ranges. Together
      they cover U+2600-U+27BF and U+1F000-U+1FA6F. */
  predicate InEmojiPattern(cp: char): (b: bool)
    ensures b ==> '\U{2600}' <= cp <= '\U{1FA6F}'
  {
    || '\U{1F000}' <= cp <= '\U{1F9FF}'
    || '\U{1FA00}' <= cp <= '\U{1FA6F}'
    || '\U{1F600}' <= cp <= '\U{1F64F}'
    || '\U{2600}' <= cp <= '\U{26FF}'
    || '\U{2700}' <= cp <= '\U{27BF}'
    || '\U{1F300}' <= cp <= '\U{1F5FF}'
    || '\U{1F680}' <= cp <= '\U{1F6FF}'
    || '\U{1F700}' <= cp <= '\U{1F77F}'
    || '\U{1F900}' <= cp <= '\U{1F9FF}'
  }

  /** `findall` with that one-character pattern: every matching code point, in
      order, as a one-code-point string. */
  function FindAll(s: string): (ms: seq<string>)
    ensures |ms| <= |s|
    ensures forall j :: 0 <= j < |ms| ==> |ms[j]| == 1 && InEmojiPattern(ms[j][0])
  {
    if s == [] then []
    else (if InEmojiPattern(s[0]) then [[s[0]]] else []) + FindAll(s[1..])
  }

  /** The character a matched glyph decrypts to: its TEXT_MAP entry, or '?'. A
      character that came from the table encrypts back to the same glyph, and it is
      never '_' or '#'. */
  function CharOf(emoji: string): (c: char)
    ensures TextMap(emoji).None? ==> c == '?'
    ensures TextMap(emoji).Some? ==> c == TextMap(emoji).value && EmojiMap(c) == Some(emoji)
    ensures c != '_' && c != '#'
  {
    match TextMap(emoji)
    case Some(c) => TextMapSound(emoji, c); c
    case None => '?'
  }

  /** The characters of a list of matched glyphs, one per glyph. */
  function Decode(emojis: seq<string>): (text: string)
    ensures |text| == |emojis|
    ensures forall j :: 0 <= j < |emojis| ==> text[j] == CharOf(emojis[j])
  {
    seq(|emojis|, j requires 0 <= j < |emojis| => CharOf(emojis[j]))
  }

  /** What decrypt_text returns: at most one character per code point of its input. */
  function Decrypt(emojiText: string, customKey: Option<string>): (r: string)
    ensures |r| <= |emojiText|
  {
    ApplyKey(Decode(FindAll(emojiText)), customKey, UnshiftChar)
  }

  /** decrypt_text: findall, the lookup loop, then the key loop. */
  method DecryptText(emojiText: string, customKey: Option<string>) returns (text: string)
    ensures text == Decrypt(emojiText, customKey)
  {
    var emojis := FindAll(emojiText);
    var decrypted: string := [];
    for j := 0 to |emojis|
      invariant decrypted == Decode(emojis[..j])
    {
      var entry := TextMap(emojis[j]);
      if entry.Some? {
        decrypted := decrypted + [entry.value];
      } else {
        decrypted := decrypted + ['?'];
      }
    }
    assert emojis[..|emojis|] == emojis;
    text := decrypted;
    if HasKey(customKey) {
      text := KeyLoop(decrypted, customKey.value, UnshiftChar);
    }
  }

  /** findall distributes over concatenation. */
  lemma {:induction false} FindAllAppend(a: string, b: string)
    ensures FindAll(a + b) == FindAll(a) + FindAll(b)
    decreases |a|
  {
    if a == [] {
      assert a + b == b;
    } else {
      assert (a + b)[1..] == a[1..] + b;
      FindAllAppend(a[1..], b);
    }
  }

  /** decrypt_text skips a code point outside the pattern and keeps one inside it
      as a match of its own, wherever it stands. */
  lemma FindAllAt(a: string, cp: char, b: string)
    ensures !InEmojiPattern(cp) ==> FindAll(a + [cp] + b) == FindAll(a + b)
    ensures InEmojiPattern(cp) ==> FindAll(a + [cp] + b) == FindAll(a) + [[cp]] + FindAll(b)
  {
    FindAllAppend(a + [cp], b);
    FindAllAppend(a, [cp]);
    FindAllAppend(a, b);
  }

  /** decrypt_text emits one character per matched code point: without a key its
      TEXT_MAP entry or '?', and with a key that character unshifted. */
  lemma DecryptCharacters(emojiText: string, customKey: Option<string>)
    ensures var ms := FindAll(emojiText);
      var d := Decrypt(emojiText, customKey);
      && |d| == |ms|
      && (!HasKey(customKey) ==> forall j :: 0 <= j < |ms| ==> d[j] == CharOf(ms[j]))
      && (HasKey(customKey) ==> forall j :: 0 <= j < |ms| ==>
            d[j] == UnshiftChar(CharOf(ms[j]), customKey.value[j % |customKey.value|]))
  {
  }

  // ---------------------------------------------------------------------------
  // The round trip
  // ---------------------------------------------------------------------------

  /** The character decrypt_text recovers, before unshifting, from the glyph
      encrypt_text emitted for c: the pattern matches the first code point of the
      glyph alone. */
  function Echo(c: char): char
  {
    CharOf([GlyphOf(c)[0]])
  }

  /** Each glyph encrypt_text emits, the fallback included, yields exactly one match:
      its first code point. The second code point of the glyph of 'A' (U+FE0F) lies
      outside the pattern. */
  lemma GlyphMatchesOnce(c: char)
    ensures FindAll(GlyphOf(c)) == [[GlyphOf(c)[0]]]
  {
    var g := GlyphOf(c);
    match EmojiMap(c)
    case None =>
    case Some(glyph) =>
      GlyphLength(c, glyph);
      GlyphInPattern(c);
      if c == 'A' {
        assert g == [g[0]] + [g[1]];
        FindAllAppend([g[0]], [g[1]]);
      }
  }

  /** The first code point of every glyph lies in the pattern. */
  lemma GlyphInPattern(c: char)
    requires EmojiMap(c).Some?
    ensures InEmojiPattern(EmojiMap(c).value[0])
  {
    if IsLower(c) {
      FaceGlyphInPattern(c);
    } else if IsDigit(c) {
      AnimalGlyphInPattern(c);
    } else if IsUpper(c) {
      TravelGlyphInPattern(c);
    } else {
      FoodGlyphInPattern(c);
    }
  }

  /** The same for the glyphs of the faces (the lower-case letters). */
  lemma FaceGlyphInPattern(c: char)
    requires FaceGlyph(c).Some?
    ensures InEmojiPattern(FaceGlyph(c).value[0])
  {
  }

  /** The same for the glyphs of the animals (the digits). */
  lemma AnimalGlyphInPattern(c: char)
    requires AnimalGlyph(c).Some?
    ensures InEmojiPattern(AnimalGlyph(c).value[0])
  {
  }

  /** The same for the glyphs of the vehicles (the upper-case letters). */
  lemma TravelGlyphInPattern(c: char)
    requires TravelGlyph(c).Some?
    ensures InEmojiPattern(TravelGlyph(c).value[0])
  {
  }

  /** The same for the glyphs of the food (punctuation). */
  lemma FoodGlyphInPattern(c: char)
    requires FoodGlyph(c).Some?
    ensures InEmojiPattern(FoodGlyph(c).value[0])
  {
  }

  /** What survives the trip through a glyph: every key of EMOJI_MAP comes back as
      itself except 'A' (its glyph is cut to U+2708, which is no key of TEXT_MAP), '_'
      and '#' (their glyphs decrypt to '[' and '}'); a character outside the table
      comes back as '?'. */
  lemma EchoOf(c: char)
    ensures Echo(c) == (if c == 'A' then '?'
                        else if c == '_' then '['
                        else if c == '#' then '}'
                        else if EmojiMap(c).Some? then c
                        else '?')
  {
    var g := GlyphOf(c);
    match EmojiMap(c)
    case None =>
      assert [g[0]] == FALLBACK;
    case Some(glyph) =>
      GlyphLength(c, glyph);
      if c == 'A' {
        assert TextMap([g[0]]) == None;
      } else {
        assert [g[0]] == glyph;
        TextMapComplete(c, glyph);
        SharedGlyphs();
      }
  }

  /** Joined strings each of which yields exactly its first code point as a match
      yield exactly those code points, in order. */
  lemma {:induction false} FindAllOfConcat(parts: seq<string>)
    requires forall i :: 0 <= i < |parts| ==> parts[i] != [] && FindAll(parts[i]) == [[parts[i][0]]]
    ensures FindAll(Concat(parts)) == seq(|parts|, i requires 0 <= i < |parts| => [parts[i][0]])
    decreases |parts|
  {
    if parts != [] {
      FindAllOfConcat(parts[1..]);
      FindAllAppend(parts[0], Concat(parts[1..]));
    }
  }

  /** The glyphs of a text, joined, yield one match per character: the first code
      point of its glyph. */
  lemma FindAllOfGlyphs(s: string)
    ensures FindAll(Concat(Glyphs(s))) == seq(|s|, i requires 0 <= i < |s| => [GlyphOf(s[i])[0]])
  {
    var gs := Glyphs(s);
    forall i | 0 <= i < |gs|
      ensures gs[i] != [] && FindAll(gs[i]) == [[gs[i][0]]]
    {
      GlyphMatchesOnce(s[i]);
    }
    FindAllOfConcat(gs);
  }

  /** Decrypting what encrypt_text produced, with the same key, gives character i of
      the plain text back exactly when its shifted character s survives the trip
      through its glyph (Echo(s) == s); otherwise it gives Echo(s), which is '?', '['
      or '}'. */
  lemma DecryptEncrypt(text: string, customKey: Option<string>)
    ensures var s := ApplyKey(text, customKey, ShiftChar);
      var d := Decrypt(Encrypt(text, customKey), customKey);
      && |d| == |text|
      && forall i :: 0 <= i < |text| ==> d[i] == if Echo(s[i]) == s[i] then text[i] else Echo(s[i])
  {
    var s := ApplyKey(text, customKey, ShiftChar);
    var ms := FindAll(Encrypt(text, customKey));
    FindAllOfGlyphs(s);
    var echoed := Decode(ms);
    assert forall i :: 0 <= i < |s| ==> echoed[i] == Echo(s[i]);
    var d := Decrypt(Encrypt(text, customKey), customKey);
    forall i | 0 <= i < |text|
      ensures d[i] == if Echo(s[i]) == s[i] then text[i] else Echo(s[i])
    {
      EchoOf(s[i]);
      if HasKey(customKey) {
        var k := customKey.value[i % |customKey.value|];
        UnshiftShift(text[i], k);
      }
    }
  }

  /** The round trip holds exactly when every shifted character is a key of
      EMOJI_MAP other than 'A', '_' and '#'. */
  lemma RoundTrip(text: string, customKey: Option<string>)
    ensures var s := ApplyKey(text, customKey, ShiftChar);
      Decrypt(Encrypt(text, customKey), customKey) == text <==>
        forall i :: 0 <= i < |s| ==> EmojiMap(s[i]).Some? && s[i] != 'A' && s[i] != '_' && s[i] != '#'
  {
    var s := ApplyKey(text, customKey, ShiftChar);
    var d := Decrypt(Encrypt(text, customKey), customKey);
    DecryptEncrypt(text, customKey);
    forall i | 0 <= i < |s|
      ensures d[i] == text[i] <==> (EmojiMap(s[i]).Some? && s[i] != 'A' && s[i] != '_' && s[i] != '#')
    {
      EchoOf(s[i]);
      if Echo(s[i]) != s[i] {
        // Echo(s[i]) is '?', '[' or '}', none alphanumeric, so s[i] == text[i]
        // unless the key shifted an alphanumeric character to 'A'.
        if HasKey(customKey) && IsAlnum(text[i]) {
          assert IsAlnum(s[i]);
        }
      }
    }
  }

  /** 'A' comes back from the round trip as '?'. */
  lemma LossOfA()
    ensures Decrypt(Encrypt("A", None), None) == "?"
  {
    DecryptEncrypt("A", None);
    EchoOf('A');
  }

  /** '_' comes back from the round trip as '['. */
  lemma LossOfUnderscore()
    ensures Decrypt(Encrypt("_", None), None) == "["
  {
    DecryptEncrypt("_", None);
    EchoOf('_');
  }

  /** With key "1" the letter 'z' shifts to 'A' and comes back as '?'. */
  lemma LossOfShiftedZ()
    ensures Decrypt(Encrypt("z", Some("1")), Some("1")) == "?"
  {
    assert ApplyKey("z", Some("1"), ShiftChar)[0] == 'A';
    DecryptEncrypt("z", Some("1"));
    EchoOf('A');
  }

  // ---------------------------------------------------------------------------
  // The two endpoints
  // ---------------------------------------------------------------------------

  /** An endpoint's answer: the transformed text, or HTTP 400 with a message. */
  datatype Response = Ok(body: string) | BadRequest(detail: string)

  /** POST /encrypt: empty text is refused before anything is transformed. */
  method EncryptEndpoint(text: string, customKey: Option<string>) returns (r: Response)
    ensures text == [] ==> r == BadRequest("Text cannot be empty")
    ensures text != [] ==> r == Ok(Encrypt(text, customKey))
  {
    if text == [] {
      return BadRequest("Text cannot be empty");
    }
    var encrypted := EncryptText(text, customKey);
    return Ok(encrypted);
  }

  /** POST /decrypt: empty input is refused; decrypt_text itself cannot fail. */
  method DecryptEndpoint(emojiText: string, customKey: Option<string>) returns (r: Response)
    ensures emojiText == [] ==> r == BadRequest("Emoji text cannot be empty")
    ensures emojiText != [] ==> r == Ok(Decrypt(emojiText, customKey))
  {
    if emojiText == [] {
      return BadRequest("Emoji text cannot be empty");
    }
    var decrypted := DecryptText(emojiText, customKey);
    return Ok(decrypted);
  }
}
