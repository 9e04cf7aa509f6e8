/** The two lookup tables of the emoji cipher back end.

    EMOJI_MAP sends each of 92 characters (26 lower-case letters, 10 digits, 30
    punctuation characters, 26 upper-case letters) to a glyph. TEXT_MAP is built
    from it by a dictionary comprehension that swaps every (character, glyph) item
    in insertion order, so when two characters share a glyph the one written later
    in EMOJI_MAP wins.

    Strings are sequences of Unicode code points. Every glyph is one code point
    except the one for 'A', which is U+2708 followed by the variation selector
    U+FE0F.

    Each table is written as a function that dispatches to smaller sub-tables:
    EMOJI_MAP by the four groups of keys the source lists separately, TEXT_MAP by
    the Unicode block of the code point. The key sets of the sub-tables are
    disjoint, so the functions are the same lookups as the flat dictionaries. */
module EmojiTable {

  datatype Option<T> = None | Some(value: T)

  /** The glyph emitted for a character that EMOJI_MAP does not contain (U+2753). */
  const FALLBACK: string := "\U{2753}"

  /** EMOJI_MAP[c] when c is a key of EMOJI_MAP, None otherwise. Every ASCII letter
      and digit is a key, and every glyph is one or two code points long. */
  function EmojiMap(c: char): (r: Option<string>)
    ensures ('a' <= c <= 'z' || '0' <= c <= '9' || 'A' <= c <= 'Z') ==> r.Some?
    ensures r.Some? ==> 1 <= |r.value| <= 2
  {
    if 'a' <= c <= 'z' then FaceGlyph(c)
    else if '0' <= c <= '9' then AnimalGlyph(c)
    else if 'A' <= c <= 'Z' then TravelGlyph(c)
    else FoodGlyph(c)
  }

  /** EMOJI_MAP on lower-case letters: the faces. */
  function FaceGlyph(c: char): Option<string>
  {
    match c
    case 'a' => Some("\U{1F600}")
    case 'b' => Some("\U{1F603}")
    case 'c' => Some("\U{1F604}")
    case 'd' => Some("\U{1F601}")
    case 'e' => Some("\U{1F606}")
    case 'f' => Some("\U{1F605}")
    case 'g' => Some("\U{1F602}")
    case 'h' => Some("\U{1F923}")
    case 'i' => Some("\U{1F60A}")
    case 'j' => Some("\U{1F607}")
    case 'k' => Some("\U{1F642}")
    case 'l' => Some("\U{1F643}")
    case 'm' => Some("\U{1F609}")
    case 'n' => Some("\U{1F60C}")
    case 'o' => Some("\U{1F60D}")
    case 'p' => Some("\U{1F970}")
    case 'q' => Some("\U{1F618}")
    case 'r' => Some("\U{1F617}")
    case 's' => Some("\U{1F619}")
    case 't' => Some("\U{1F61A}")
    case 'u' => Some("\U{1F60B}")
    case 'v' => Some("\U{1F61B}")
    case 'w' => Some("\U{1F61D}")
    case 'x' => Some("\U{1F61C}")
    case 'y' => Some("\U{1F92A}")
    case 'z' => Some("\U{1F928}")
    case _ => None
  }

  /** EMOJI_MAP on digits: the animals. */
  function AnimalGlyph(c: char): Option<string>
  {
    match c
    case '0' => Some("\U{1F436}")
    case '1' => Some("\U{1F431}")
    case '2' => Some("\U{1F42D}")
    case '3' => Some("\U{1F439}")
    case '4' => Some("\U{1F430}")
    case '5' => Some("\U{1F98A}")
    case '6' => Some("\U{1F43B}")
    case '7' => Some("\U{1F43C}")
    case '8' => Some("\U{1F428}")
    case '9' => Some("\U{1F42F}")
    case _ => None
  }

  /** EMOJI_MAP on the 30 punctuation characters: the food. */
  function FoodGlyph(c: char): Option<string>
  {
    match c
    case ' ' => Some("\U{1F34E}")
    case '.' => Some("\U{1F34C}")
    case ',' => Some("\U{1F347}")
    case '!' => Some("\U{1F349}")
    case '?' => Some("\U{1F352}")
    case '\'' => Some("\U{1F351}")
    case '"' => Some("\U{1F353}")
    case '-' => Some("\U{1F34D}")
    case '_' => Some("\U{1F96D}")
    case '+' => Some("\U{1F34F}")
    case '=' => Some("\U{1F350}")
    case '/' => Some("\U{1F34B}")
    case '\\' => Some("\U{1F34A}")
    case '@' => Some("\U{1F965}")
    case '#' => Some("\U{1F951}")
    case '$' => Some("\U{1F346}")
    case '%' => Some("\U{1F954}")
    case '^' => Some("\U{1F955}")
    case '&' => Some("\U{1F33D}")
    case '*' => Some("\U{1F966}")
    case '(' => Some("\U{1F952}")
    case ')' => Some("\U{1F96C}")
    case '[' => Some("\U{1F96D}")
    case ']' => Some("\U{1F345}")
    case '{' => Some("\U{1F336}")
    case '}' => Some("\U{1F951}")
    case '<' => Some("\U{1F968}")
    case '>' => Some("\U{1F95E}")
    case ';' => Some("\U{1F9C0}")
    case ':' => Some("\U{1F356}")
    case _ => None
  }

  /** EMOJI_MAP on upper-case letters: the vehicles. */
  function TravelGlyph(c: char): Option<string>
  {
    match c
    case 'A' => Some("\U{2708}\U{FE0F}")
    case 'B' => Some("\U{1F680}")
    case 'C' => Some("\U{1F681}")
    case 'D' => Some("\U{1F682}")
    case 'E' => Some("\U{1F683}")
    case 'F' => Some("\U{1F684}")
    case 'G' => Some("\U{1F685}")
    case 'H' => Some("\U{1F686}")
    case 'I' => Some("\U{1F687}")
    case 'J' => Some("\U{1F688}")
    case 'K' => Some("\U{1F689}")
    case 'L' => Some("\U{1F68A}")
    case 'M' => Some("\U{1F68B}")
    case 'N' => Some("\U{1F68C}")
    case 'O' => Some("\U{1F68D}")
    case 'P' => Some("\U{1F68E}")
    case 'Q' => Some("\U{1F690}")
    case 'R' => Some("\U{1F691}")
    case 'S' => Some("\U{1F692}")
    case 'T' => Some("\U{1F693}")
    case 'U' => Some("\U{1F694}")
    case 'V' => Some("\U{1F695}")
    case 'W' => Some("\U{1F696}")
    case 'X' => Some("\U{1F697}")
    case 'Y' => Some("\U{1F698}")
    case 'Z' => Some("\U{1F699}")
    case _ => None
  }

  /** TEXT_MAP[g] when g is a key of TEXT_MAP, None otherwise. TEXT_MAP holds 90
      glyphs, because two glyphs occur twice among the 92 items of EMOJI_MAP: the 89
      one-code-point glyphs, looked up by their code point, and the glyph of 'A'.
      No glyph leads to '_' or '#': the later keys took theirs over. */
  function TextMap(g: string): (r: Option<char>)
    ensures r.Some? ==> 1 <= |g| <= 2
    ensures r.Some? ==> r.value != '_' && r.value != '#'
  {
    if |g| == 1 then TextMapCodePoint(g[0])
    else if g == "\U{2708}\U{FE0F}" then Some('A')
    else None
  }

  /** TEXT_MAP at the one-code-point string [cp]. */
  function TextMapCodePoint(cp: char): Option<char>
  {
    if '\U{1F300}' <= cp <= '\U{1F5FF}' then PictographText(cp)
    else if '\U{1F600}' <= cp <= '\U{1F64F}' then EmoticonText(cp)
    else if '\U{1F680}' <= cp <= '\U{1F6FF}' then TransportText(cp)
    else if '\U{1F900}' <= cp <= '\U{1F9FF}' then SupplementalText(cp)
    else None
  }

  /** TEXT_MAP on the glyphs in the Unicode block Miscellaneous Symbols and Pictographs. */
  function PictographText(cp: char): Option<char>
  {
    match cp
    case '\U{1F436}' => Some('0')
    case '\U{1F431}' => Some('1')
    case '\U{1F42D}' => Some('2')
    case '\U{1F439}' => Some('3')
    case '\U{1F430}' => Some('4')
    case '\U{1F43B}' => Some('6')
    case '\U{1F43C}' => Some('7')
    case '\U{1F428}' => Some('8')
    case '\U{1F42F}' => Some('9')
    case '\U{1F34E}' => Some(' ')
    case '\U{1F34C}' => Some('.')
    case '\U{1F347}' => Some(',')
    case '\U{1F349}' => Some('!')
    case '\U{1F352}' => Some('?')
    case '\U{1F351}' => Some('\'')
    case '\U{1F353}' => Some('"')
    case '\U{1F34D}' => Some('-')
    case '\U{1F34F}' => Some('+')
    case '\U{1F350}' => Some('=')
    case '\U{1F34B}' => Some('/')
    case '\U{1F34A}' => Some('\\')
    case '\U{1F346}' => Some('$')
    case '\U{1F33D}' => Some('&')
    case '\U{1F345}' => Some(']')
    case '\U{1F336}' => Some('{')
    case '\U{1F356}' => Some(':')
    case _ => None
  }

  /** TEXT_MAP on the glyphs in the Unicode block Emoticons. */
  function EmoticonText(cp: char): Option<char>
  {
    match cp
    case '\U{1F600}' => Some('a')
    case '\U{1F603}' => Some('b')
    case '\U{1F604}' => Some('c')
    case '\U{1F601}' => Some('d')
    case '\U{1F606}' => Some('e')
    case '\U{1F605}' => Some('f')
    case '\U{1F602}' => Some('g')
    case '\U{1F60A}' => Some('i')
    case '\U{1F607}' => Some('j')
    case '\U{1F642}' => Some('k')
    case '\U{1F643}' => Some('l')
    case '\U{1F609}' => Some('m')
    case '\U{1F60C}' => Some('n')
    case '\U{1F60D}' => Some('o')
    case '\U{1F618}' => Some('q')
    case '\U{1F617}' => Some('r')
    case '\U{1F619}' => Some('s')
    case '\U{1F61A}' => Some('t')
    case '\U{1F60B}' => Some('u')
    case '\U{1F61B}' => Some('v')
    case '\U{1F61D}' => Some('w')
    case '\U{1F61C}' => Some('x')
    case _ => None
  }

  /** TEXT_MAP on the glyphs in the Unicode block Transport and Map Symbols. */
  function TransportText(cp: char): Option<char>
  {
    match cp
    case '\U{1F680}' => Some('B')
    case '\U{1F681}' => Some('C')
    case '\U{1F682}' => Some('D')
    case '\U{1F683}' => Some('E')
    case '\U{1F684}' => Some('F')
    case '\U{1F685}' => Some('G')
    case '\U{1F686}' => Some('H')
    case '\U{1F687}' => Some('I')
    case '\U{1F688}' => Some('J')
    case '\U{1F689}' => Some('K')
    case '\U{1F68A}' => Some('L')
    case '\U{1F68B}' => Some('M')
    case '\U{1F68C}' => Some('N')
    case '\U{1F68D}' => Some('O')
    case '\U{1F68E}' => Some('P')
    case '\U{1F690}' => Some('Q')
    case '\U{1F691}' => Some('R')
    case '\U{1F692}' => Some('S')
    case '\U{1F693}' => Some('T')
    case '\U{1F694}' => Some('U')
    case '\U{1F695}' => Some('V')
    case '\U{1F696}' => Some('W')
    case '\U{1F697}' => Some('X')
    case '\U{1F698}' => Some('Y')
    case '\U{1F699}' => Some('Z')
    case _ => None
  }

  /** TEXT_MAP on the glyphs in the Unicode block Supplemental Symbols and Pictographs. */
  function SupplementalText(cp: char): Option<char>
  {
    match cp
    case '\U{1F923}' => Some('h')
    case '\U{1F970}' => Some('p')
    case '\U{1F92A}' => Some('y')
    case '\U{1F928}' => Some('z')
    case '\U{1F98A}' => Some('5')
    case '\U{1F96D}' => Some('[')  // also the glyph of '_', which EMOJI_MAP lists before '['
    case '\U{1F965}' => Some('@')
    case '\U{1F951}' => Some('}')  // also the glyph of '#', which EMOJI_MAP lists before '}'
    case '\U{1F954}' => Some('%')
    case '\U{1F955}' => Some('^')
    case '\U{1F966}' => Some('*')
    case '\U{1F952}' => Some('(')
    case '\U{1F96C}' => Some(')')
    case '\U{1F968}' => Some('<')
    case '\U{1F95E}' => Some('>')
    case '\U{1F9C0}' => Some(';')
    case _ => None
  }

  /** The keys outside the letters, the digits and the range ' ' to '/'. */
  predicate IsPunctuationHigh(c: char)
  {
    !(' ' <= c <= '9') && !('A' <= c <= 'Z') && !('a' <= c <= 'z')
  }

  /** Every TEXT_MAP entry undoes an EMOJI_MAP entry. */
  lemma TextMapSound(g: string, c: char)
    requires TextMap(g) == Some(c)
    ensures EmojiMap(c) == Some(g)
  {
    if |g| == 1 {
      assert g == [g[0]];
    }
    if 'a' <= c <= 'm' {
      SoundLowerAM(c, g);
    } else if 'n' <= c <= 'z' {
      SoundLowerNZ(c, g);
    } else if '0' <= c <= '9' {
      SoundDigits(c, g);
    } else if 'A' <= c <= 'M' {
      SoundUpperAM(c, g);
    } else if 'N' <= c <= 'Z' {
      SoundUpperNZ(c, g);
    } else if ' ' <= c <= '/' {
      SoundPunctuationLow(c, g);
    } else {
      SoundPunctuationHigh(c, g);
    }
  }

  /** Every glyph of EMOJI_MAP is a key of TEXT_MAP, and it leads back to the character
      it came from for every key except '_' and '#', whose glyphs were taken over by
      later keys. */
  lemma TextMapComplete(c: char, g: string)
    requires EmojiMap(c) == Some(g)
    ensures TextMap(g).Some?
    ensures TextMap(g) == Some(c) <==> c != '_' && c != '#'
  {
    if c == '_' || c == '#' {
      SharedGlyphs();
    } else if 'a' <= c <= 'm' {
      CompleteLowerAM(c, g);
    } else if 'n' <= c <= 'z' {
      CompleteLowerNZ(c, g);
    } else if '0' <= c <= '9' {
      CompleteDigits(c, g);
    } else if 'A' <= c <= 'M' {
      CompleteUpperAM(c, g);
    } else if 'N' <= c <= 'Z' {
      CompleteUpperNZ(c, g);
    } else if ' ' <= c <= '/' {
      CompletePunctuationLow(c, g);
    } else {
      CompletePunctuationHigh(c, g);
    }
  }

  // The two lemmas above, checked one block of keys at a time.

  lemma CompleteLowerAM(c: char, g: string)
    requires EmojiMap(c) == Some(g) && 'a' <= c <= 'm'
    ensures TextMap(g) == Some(c)
  {
  }

  lemma CompleteLowerNZ(c: char, g: string)
    requires EmojiMap(c) == Some(g) && 'n' <= c <= 'z'
    ensures TextMap(g) == Some(c)
  {
  }

  lemma CompleteDigits(c: char, g: string)
    requires EmojiMap(c) == Some(g) && '0' <= c <= '9'
    ensures TextMap(g) == Some(c)
  {
  }

  lemma CompleteUpperAM(c: char, g: string)
    requires EmojiMap(c) == Some(g) && 'A' <= c <= 'M'
    ensures TextMap(g) == Some(c)
  {
  }

  lemma CompleteUpperNZ(c: char, g: string)
    requires EmojiMap(c) == Some(g) && 'N' <= c <= 'Z'
    ensures TextMap(g) == Some(c)
  {
  }

  lemma CompletePunctuationLow(c: char, g: string)
    requires EmojiMap(c) == Some(g) && ' ' <= c <= '/' && c != '#'
    ensures TextMap(g) == Some(c)
  {
  }

  lemma CompletePunctuationHigh(c: char, g: string)
    requires EmojiMap(c) == Some(g) && IsPunctuationHigh(c) && c != '_'
    ensures TextMap(g) == Some(c)
  {
  }

  lemma SoundLowerAM(c: char, g: string)
    requires TextMap(g) == Some(c) && 'a' <= c <= 'm'
    ensures EmojiMap(c) == Some(g)
  {
    if |g| == 1 {
      assert g == [g[0]];
    }
  }

  lemma SoundLowerNZ(c: char, g: string)
    requires TextMap(g) == Some(c) && 'n' <= c <= 'z'
    ensures EmojiMap(c) == Some(g)
  {
    if |g| == 1 {
      assert g == [g[0]];
    }
  }

  lemma SoundDigits(c: char, g: string)
    requires TextMap(g) == Some(c) && '0' <= c <= '9'
    ensures EmojiMap(c) == Some(g)
  {
    if |g| == 1 {
      assert g == [g[0]];
    }
  }

  lemma SoundUpperAM(c: char, g: string)
    requires TextMap(g) == Some(c) && 'A' <= c <= 'M'
    ensures EmojiMap(c) == Some(g)
  {
    if |g| == 1 {
      assert g == [g[0]];
    }
  }

  lemma SoundUpperNZ(c: char, g: string)
    requires TextMap(g) == Some(c) && 'N' <= c <= 'Z'
    ensures EmojiMap(c) == Some(g)
  {
    if |g| == 1 {
      assert g == [g[0]];
    }
  }

  lemma SoundPunctuationLow(c: char, g: string)
    requires TextMap(g) == Some(c) && ' ' <= c <= '/'
    ensures EmojiMap(c) == Some(g)
  {
    if |g| == 1 {
      assert g == [g[0]];
    }
  }

  lemma SoundPunctuationHigh(c: char, g: string)
    requires TextMap(g) == Some(c) && IsPunctuationHigh(c)
    ensures EmojiMap(c) == Some(g)
  {
    if |g| == 1 {
      assert g == [g[0]];
    }
  }

  /** EMOJI_MAP is not injective: '_' and '[' share a glyph, and so do '#' and '}'.
      TEXT_MAP keeps the later key of each pair. */
  lemma SharedGlyphs()
    ensures EmojiMap('_') == EmojiMap('[') == Some("\U{1F96D}")
    ensures EmojiMap('#') == EmojiMap('}') == Some("\U{1F951}")
    ensures TextMap("\U{1F96D}") == Some('[') && TextMap("\U{1F951}") == Some('}')
  {
  }

  /** The two pairs above are the only keys that share a glyph. */
  lemma OnlySharedGlyphs(c1: char, c2: char)
    requires c1 != c2 && EmojiMap(c1).Some? && EmojiMap(c1) == EmojiMap(c2)
    ensures (c1 == '_' && c2 == '[') || (c1 == '[' && c2 == '_')
         || (c1 == '#' && c2 == '}') || (c1 == '}' && c2 == '#')
  {
    var g := EmojiMap(c1).value;
    TextMapComplete(c1, g);
    TextMapComplete(c2, g);
    SharedGlyphs();
  }

  /** The fallback glyph is neither a glyph of EMOJI_MAP nor a key of TEXT_MAP. */
  lemma FallbackIsNoGlyph(c: char)
    ensures EmojiMap(c) != Some(FALLBACK)
    ensures TextMap(FALLBACK) == None
  {
  }

  /** Every glyph is a single code point, except the one for 'A', which is two. */
  lemma GlyphLength(c: char, g: string)
    requires EmojiMap(c) == Some(g)
    ensures c == 'A' ==> g == "\U{2708}\U{FE0F}"
    ensures c != 'A' ==> |g| == 1
  {
  }
}
