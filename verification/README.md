# Hypemoji text-to-emoji cipher and fingerprint, in Dafny

This project models the two pieces of hypemoji that transform text into emoji.

- **The back-end cipher** (`Backend/api/index.py`). Two pieces of data drive it:
  - `EMOJI_MAP` maps 92 characters to emoji. Lower-case letters get faces, digits get animals, punctuation gets food and upper-case letters get vehicles.
  - `TEXT_MAP` is its reverse.

  `encrypt_text` optionally shifts every alphanumeric character forward by a key character, modulo the 62-symbol alphabet `0-9a-zA-Z`. It then replaces each character with its emoji, using `❓` for characters outside the table. `decrypt_text` pulls the emoji code points out of its input with a one-character regular expression. It maps each one back through `TEXT_MAP`, using `?` when there is no entry, and then undoes the shift. The `/encrypt` and `/decrypt` endpoints answer 400 for empty input.
- **The front-end fingerprint** (`src/App.jsx`). `simpleHash` is a 31-multiplier string hash wrapped to 32 bits. `textToEmoji` writes the absolute value of that hash in base *n*, one emoji per digit, least significant digit first. Here *n* is the size of the emoji list. It pads the result to four emojis with the first emoji and joins them with spaces.

Files:

- `emoji_table.dfy` (`EmojiTable`): both tables and their relationship.
  - The tables are split into sub-tables, one per group of keys (forward direction) and one per Unicode block (reverse direction). Each one stays small enough to reason about.
  - The reverse table is proved sound: every entry of `TEXT_MAP` is an entry of `EMOJI_MAP`.
  - It is also proved complete: every emoji of `EMOJI_MAP` has an entry, and it leads back to its own key except for `_` and `#`.
- `cipher.dfy` (`Cipher`):
  - `shift_char` and `unshift_char`, as functions;
  - the three loops of `encrypt_text` and `decrypt_text`, as methods proved against the functions `Encrypt` and `Decrypt`;
  - the endpoints;
  - the round-trip theorem: which characters survive encryption followed by decryption, and which come back as something else.
- `hash_emoji.dfy` (`HashEmoji`): `simpleHash` and `textToEmoji`, as methods proved against recursive specifications. Also proved:
  - the hash is the polynomial hash reduced to 32 bits;
  - reading the fingerprint's emojis back as base-*n* digits gives the absolute value of the hash.

Two facts about the fingerprint code shape the model:

- `textToEmoji` has no guard on the size of the emoji list. With one emoji and a non-zero hash its digit loop never ends, so `TextToEmoji` requires two emojis or more.
- JavaScript numbers are doubles, so `Math.abs` of the smallest 32-bit integer, -2^31, is exactly 2^31 and does not wrap (`AbsOfInt32`).

What the round trip loses follows from the tables as written:

- `'_'` and `'['` share one emoji, and so do `'#'` and `'}'`. The dictionary comprehension that builds `TEXT_MAP` keeps the later key, so `_` decrypts to `[` and `#` decrypts to `}`.
- The emoji for `'A'` is U+2708 followed by the variation selector U+FE0F. The pattern only matches the first of the two code points, and U+2708 alone is no key of `TEXT_MAP`, so `A` decrypts to `?`.
- With a key, any character that shifts onto `A`, `_` or `#` is lost the same way. Only `A` can be reached like this, because shifting maps alphanumerics to alphanumerics.

## Model

| member | source | states |
|---|---|---|
| `EmojiTable.EmojiMap` | Backend/api/index.py:19-45 | the lookup `EMOJI_MAP[c]`: every ASCII letter and digit has an entry, and every entry is one or two code points long; the other table lemmas state the rest |
| `EmojiTable.TextMap` | Backend/api/index.py:48 | the lookup in the reversed dictionary: its keys are one or two code points long, and no key leads to `_` or `#`; `TextMapSound` and `TextMapComplete` pin it down |
| `EmojiTable.GlyphLength` | Backend/api/index.py:19-45 | every emoji of `EMOJI_MAP` is one code point, except the one for `A`, which is U+2708 U+FE0F |
| `EmojiTable.TextMapSound` | Backend/api/index.py:48 | every entry of the reverse table is an entry of the forward table read backwards |
| `EmojiTable.TextMapComplete` | Backend/api/index.py:19-48 | every emoji of `EMOJI_MAP` is a key of `TEXT_MAP`, and it maps back to its own character exactly when that character is neither `_` nor `#` |
| `EmojiTable.SharedGlyphs` | Backend/api/index.py:33-37 | `_` and `[` share U+1F96D, `#` and `}` share U+1F951, and `TEXT_MAP` keeps the later keys `[` and `}` |
| `EmojiTable.OnlySharedGlyphs` | Backend/api/index.py:19-45 | two distinct characters with the same emoji are `_`/`[` or `#`/`}`; `EMOJI_MAP` is otherwise injective |
| `EmojiTable.FallbackIsNoGlyph` | Backend/api/index.py:141-142 | the fallback `❓` is no emoji of the table and has no `TEXT_MAP` entry |
| `Cipher.IsDigit` | Backend/api/index.py:64 | definition: `str.isdigit` on ASCII only (`'0'`..`'9'`); non-ASCII digits are under "## Left out" |
| `Cipher.IsLower` | Backend/api/index.py:66 | definition: `str.islower` on ASCII only (`'a'`..`'z'`); non-ASCII lower-case letters are under "## Left out" |
| `Cipher.IsAlnum` | Backend/api/index.py:60 | definition: `str.isalnum` on ASCII only (ASCII digits and letters); non-ASCII letters and digits are under "## Left out" |
| `Cipher.CharNum` | Backend/api/index.py:64-77 | alphanumeric characters get numbers in 0..61 (digits below 10, lower case 10..35, upper case from 36); a non-alphanumeric key character falls into the upper-case branch, and its number may lie outside 0..61 (characters below U+001D or above `'Z'`), which `% 62` absorbs |
| `Cipher.NumChar` | Backend/api/index.py:83-88 | turning a number in 0..61 back into a character gives an alphanumeric character with that number |
| `Cipher.NumCharOfCharNum` | Backend/api/index.py:64-88 | converting to a number and back is the identity on alphanumeric characters |
| `Cipher.PyMod62` | Backend/api/index.py:80 | Python's `% 62` lies in 0..61 and is congruent to its argument |
| `Cipher.ShiftChar` | Backend/api/index.py:58-88 | non-alphanumeric characters are returned unchanged; an alphanumeric one stays alphanumeric, and its number moves forward by the key's number modulo 62 |
| `Cipher.UnshiftChar` | Backend/api/index.py:90-122 | the same with the key's number subtracted |
| `Cipher.UnshiftFixUpIsDead` | Backend/api/index.py:111-122 | the remainder is never negative, so the `+ 62` fix-up changes nothing: an alphanumeric character unshifts to the character numbered by the remainder itself |
| `Cipher.UnshiftShift` | Backend/api/index.py:58-122 | `unshift_char(shift_char(c, k), k) == c` for every character and key character |
| `Cipher.ShiftUnshift` | Backend/api/index.py:58-122 | `shift_char(unshift_char(c, k), k) == c`, so for a fixed key character both functions are bijections |
| `Cipher.AlnumHasGlyph` | Backend/api/index.py:19-45 | every ASCII letter and digit is a key of `EMOJI_MAP` |
| `Cipher.ShiftKeepsTableMembership` | Backend/api/index.py:19-45 | shifting never moves a character into or out of `EMOJI_MAP` |
| `Cipher.HasKey` | Backend/api/index.py:127 | definition: Python's truth value of `custom_key`, false for None and for the empty string; `ApplyKey` states its effect |
| `Cipher.KeyCycle` | Backend/api/index.py:127-133 | the key loop keeps the length, and character i is transformed with key character i modulo the key length |
| `Cipher.ApplyKey` | Backend/api/index.py:126-133 | without a key (None or empty) the text is unchanged; with one it is transformed character by character with the cycled key |
| `Cipher.KeyLoop` | Backend/api/index.py:128-133 | the imperative key loop computes `KeyCycle` |
| `Cipher.UnshiftUndoesShift` | Backend/api/index.py:165-172 | decryption's key stage undoes encryption's for every text and every key |
| `Cipher.GlyphOf` | Backend/api/index.py:137-142 | the emitted emoji is the table entry when there is one and `❓` exactly when there is none; it is one or two code points long |
| `Cipher.Glyphs` | Backend/api/index.py:136-142 | the `encrypted` list: one glyph per character, the `GlyphOf` of each |
| `Cipher.Concat` | Backend/api/index.py:144 | `''.join(parts)`: parts of one or two code points join into a string between one and two times as long as the list |
| `Cipher.Encrypt` | Backend/api/index.py:124-144 | what `encrypt_text` returns has one or two code points per input character; `EncryptGlyphs` and `RoundTrip` state which |
| `Cipher.EncryptText` | Backend/api/index.py:124-144 | `encrypt_text` returns the joined emoji of the shifted text |
| `Cipher.EncryptGlyphs` | Backend/api/index.py:124-144 | there is one emoji per input character; the fallback appears exactly at characters outside the table, and every other emoji is the table entry of the shifted character |
| `Cipher.InEmojiPattern` | Backend/api/index.py:149-151 | the pattern's character class; every code point it admits lies in U+2600..U+1FA6F, so ASCII and U+FE0F are never matched |
| `Cipher.FindAll` | Backend/api/index.py:149-152 | `findall` returns at most one match per code point, and each match is a single code point inside the pattern |
| `Cipher.CharOf` | Backend/api/index.py:157-161 | a matched glyph decrypts to its `TEXT_MAP` entry when it has one and to `?` when it has none; an entry encrypts back to the same glyph, and the result is never `_` or `#` |
| `Cipher.Decode` | Backend/api/index.py:155-161 | the `decrypted` list: one character per match, the `CharOf` of each |
| `Cipher.Decrypt` | Backend/api/index.py:146-174 | what `decrypt_text` returns has at most one character per code point of its input; `DecryptCharacters` and `RoundTrip` state which |
| `Cipher.DecryptText` | Backend/api/index.py:146-174 | `decrypt_text` maps each matched code point through `TEXT_MAP` or to `?`, then unshifts with the cycled key |
| `Cipher.FindAllAppend` | Backend/api/index.py:152 | `findall` distributes over concatenation |
| `Cipher.FindAllAt` | Backend/api/index.py:149-152 | a code point outside the pattern is skipped wherever it stands, and one inside it becomes a match of its own |
| `Cipher.DecryptCharacters` | Backend/api/index.py:146-174 | decryption emits one character per match: its `TEXT_MAP` entry or `?`, unshifted by the key character at that position |
| `Cipher.GlyphInPattern` | Backend/api/index.py:19-45 | the first code point of every emoji in the table lies in the pattern |
| `Cipher.GlyphMatchesOnce` | Backend/api/index.py:136-152 | every emitted emoji, including the fallback, yields exactly one match, its first code point; the U+FE0F of `A` is dropped |
| `Cipher.EchoOf` | Backend/api/index.py:136-163 | passing through an emoji gives a character back unchanged, except `A` → `?`, `_` → `[`, `#` → `}` and characters outside the table → `?` |
| `Cipher.FindAllOfGlyphs` | Backend/api/index.py:136-152 | the encrypted text yields exactly one match per plain-text character, in order |
| `Cipher.DecryptEncrypt` | Backend/api/index.py:124-174 | decrypting the encryption with the same key gives character i back exactly when its shifted character survives the emoji, and that lossy character otherwise |
| `Cipher.RoundTrip` | Backend/api/index.py:124-174 | decryption inverts encryption if and only if every shifted character is in the table and is not `A`, `_` or `#` |
| `Cipher.LossOfA` | Backend/api/index.py:40 | `"A"` comes back as `"?"` |
| `Cipher.LossOfUnderscore` | Backend/api/index.py:33-36 | `"_"` comes back as `"["` |
| `Cipher.LossOfShiftedZ` | Backend/api/index.py:80-88 | with key `"1"`, `"z"` shifts to `A` and comes back as `"?"` |
| `Cipher.EncryptEndpoint` | Backend/api/index.py:176-183 | empty text gets 400 "Text cannot be empty"; anything else gets the encryption |
| `Cipher.DecryptEndpoint` | Backend/api/index.py:185-195 | empty input gets 400 "Emoji text cannot be empty"; anything else gets the decryption |
| `HashEmoji.ToInt32` | src/App.jsx:7-8 | the result is a signed 32-bit integer congruent to the argument modulo 2^32, and 32-bit arguments are left alone |
| `HashEmoji.HashStep` | src/App.jsx:7-8 | one step of the loop yields a signed 32-bit integer |
| `HashEmoji.HashStepIsTimes31` | src/App.jsx:7-8 | `(h << 5) - h + c` followed by the bitwise or with 0 is `31*h + c` wrapped to 32 bits |
| `HashEmoji.Hash` | src/App.jsx:4-11 | the hash is always a signed 32-bit integer |
| `HashEmoji.HashIsWrappedPolynomial` | src/App.jsx:4-11 | the hash is the polynomial sum of c_i * 31^(n-1-i), wrapped to 32 bits once at the end |
| `HashEmoji.HashOfShortText` | src/App.jsx:5-10 | the empty text hashes to 0, and a single code unit hashes to itself |
| `HashEmoji.SimpleHash` | src/App.jsx:4-11 | the loop computes the hash, which equals the wrapped polynomial |
| `HashEmoji.Abs` | src/App.jsx:14 | definition: `Math.abs`; `AbsOfInt32` states its range on a hash |
| `HashEmoji.AbsOfInt32` | src/App.jsx:14 | the absolute hash is at most 2^31, reaches it only for -2^31 and is 0 only for 0 |
| `HashEmoji.Digits` | src/App.jsx:18-23 | every digit is below the base, there are no digits exactly for 0, and the most significant digit is not 0 |
| `HashEmoji.DigitsValue` | src/App.jsx:18-23 | the digits read back, least significant first, give the number |
| `HashEmoji.DigitAt` | src/App.jsx:18-23 | digit i is (n / base^i) mod base: least significant first, no reversal |
| `HashEmoji.DigitsLength` | src/App.jsx:18-23 | n has at most k digits if and only if n < base^k |
| `HashEmoji.DigitsOfHash` | src/App.jsx:14-23 | an absolute hash has at most 32 digits in any base of two or more |
| `HashEmoji.DigitGlyphs` | src/App.jsx:20-21 | one emoji per digit: the digit's entry in the list |
| `HashEmoji.DigitLoopStep` | src/App.jsx:19-23 | each turn of the digit loop keeps its invariant, and the loop ends |
| `HashEmoji.Pad` | src/App.jsx:25-27 | padding gives max(4, length) elements, keeps the prefix, and fills the rest with the given emoji |
| `HashEmoji.ValueOfZeroPadding` | src/App.jsx:25-27 | padding with digit 0 at the most significant end does not change the value |
| `HashEmoji.EmojiSequence` | src/App.jsx:13-27 | definition: the emoji list of `textToEmoji` before the join; `EmojiSequenceShape` and `FingerprintDecodes` state its properties |
| `HashEmoji.JoinWithSpace` | src/App.jsx:29 | definition: `join(' ')`; `SplitOfJoin` states its inverse |
| `HashEmoji.TextToEmoji` | src/App.jsx:13-30 | `textToEmoji` returns the space-joined emoji sequence of the absolute hash |
| `HashEmoji.SplitOfJoin` | src/App.jsx:29 | joining with single spaces and splitting on spaces gives the emojis back when none contains a space |
| `HashEmoji.EmojiSequenceShape` | src/App.jsx:13-27 | 4 to 32 emojis, all from the list; the digits of the absolute hash first, then copies of the first emoji |
| `HashEmoji.ZeroHash` | src/App.jsx:18-27 | a zero hash gives four copies of the first emoji |
| `HashEmoji.SevenInBaseFive` | src/App.jsx:13-27 | with five emojis, hash 7 gives emojis 2, 1, 0, 0 |
| `HashEmoji.FingerprintDecodes` | src/App.jsx:13-27 | when no emoji is listed twice, the fingerprint read back as base-n digits gives the absolute hash |

## Left out

- The FastAPI application, the CORS middleware and the pydantic request models (Backend/api/index.py:1-17 and 50-56) are framework wiring. Each endpoint is a method taking the request's fields and returning `Ok` or `BadRequest`.
- `Cipher.DecryptEndpoint`: the `except` branch that turns an exception into "Decryption failed" is not modelled. `decrypt_text` has no failing step in the model.
- The regular expression engine is not modelled. Its one-character class is written as a predicate over code points (`InEmojiPattern`), and `findall` as a filter.
- `str.isalnum`, `str.isdigit` and `str.islower` are taken on ASCII only. Python also counts non-ASCII letters and digits as alphanumeric and runs them through the arithmetic of `shift_char`. The model passes them through unchanged, so the following hold of the model only, for texts with non-ASCII letters or digits:
  - In the source, `'é'` with key `"0"` takes the `islower` branch, gets number 146 and shifts to `'m'`. Its emoji is then that of `'m'`, not `❓`, and it decrypts to `'m'`.
  - So `ShiftKeepsTableMembership`, `EncryptGlyphs` and `UnshiftShift` (for every character) are statements about the model; in the source a non-ASCII letter or digit can be shifted into the table.
  - A non-ASCII digit or lower-case key character gets another key number in the source: for `'é'` the source gives 146 and the model's upper-case branch gives 204, a shift of 22 against 18.
  - The front end's ASCII `\D` filter on the key leaves only the text side of this reachable from the user interface.
- Python strings may hold lone surrogate code points; Dafny's `char` cannot. Such strings are outside the model.
- The two tables are written as match functions split into sub-tables, not as dictionaries. Lookups and contents are the same; hashing and dictionary iteration order are not modelled.
- `emojis.json` is not part of this model. The emoji list is a parameter of `TextToEmoji`.
- `HashEmoji.TextToEmoji` requires at least two emojis. With one emoji and a non-zero hash the source's digit loop never ends. With none and a non-zero hash it never ends either: `tempHash % 0` is NaN and `Math.floor(tempHash / 0)` is Infinity. Only a zero hash terminates with an empty list, giving four `undefined` entries that join to three spaces. With one emoji and a zero hash the digit loop never runs and the source returns four copies of `emojis[0]`; the requires excludes that input as well, which `ZeroHash` covers only for two emojis or more.
- JavaScript numbers are modelled as exact integers. Every intermediate value of `simpleHash` and `textToEmoji` stays below 2^53, so doubles compute the same values. The 32-bit wrap-around of `<<` and `|=` is modelled explicitly by `ToInt32`.
- The `App` React component, its state and its `console.log` are left out (src/App.jsx:32 onward). So is Frontend/src/App.jsx, which is presentation and calls to the service.
