/** The front end's text-to-emoji fingerprint: a 32-bit string hash of the input,
    written in base n (n the size of the emoji list) with one emoji per digit, least
    significant digit first, padded to at least four emojis and joined with spaces.

    Text is a sequence of UTF-16 code units, as `charCodeAt` sees it. JavaScript
    numbers are modelled as mathematical integers; the 32-bit wrap-around of the
    bitwise operators is written out as ToInt32. */
module HashEmoji {

  /** A UTF-16 code unit. */
  type CodeUnit = n: int | 0 <= n < 0x1_0000

  const TWO_32: int := 0x1_0000_0000
  const TWO_31: int := 0x8000_0000

  // ---------------------------------------------------------------------------
  // 32-bit integers
  // ---------------------------------------------------------------------------

  predicate IsInt32(x: int) { -TWO_31 <= x < TWO_31 }

  /** ECMAScript's ToInt32: the signed 32-bit integer congruent to x modulo 2^32. */
  function ToInt32(x: int): (r: int)
    ensures IsInt32(r)
    ensures (r - x) % TWO_32 == 0
    ensures IsInt32(x) ==> r == x
  {
    var m := x % TWO_32;
    if m >= TWO_31 then m - TWO_32 else m
  }

  /** ToInt32 depends on its argument modulo 2^32 only. */
  lemma ToInt32Congruent(x: int, y: int, q: int)
    requires x - y == TWO_32 * q
    ensures ToInt32(x) == ToInt32(y)
  {
    assert x % TWO_32 == y % TWO_32 by {
      var qx, qy := x / TWO_32, y / TWO_32;
      assert x == TWO_32 * qx + x % TWO_32;
      assert y == TWO_32 * qy + y % TWO_32;
      assert TWO_32 * (qx - qy - q) == y % TWO_32 - x % TWO_32;
    }
  }

  // ---------------------------------------------------------------------------
  // simpleHash
  // ---------------------------------------------------------------------------

  /** One turn of the loop: `hash << 5` (which converts hash to 32 bits, shifts and
      wraps), minus hash, plus the code unit, exactly, then `|= 0`. */
  function HashStep(hash: int, code: CodeUnit): (r: int)
    requires IsInt32(hash)
    ensures IsInt32(r)
  {
    ToInt32(ToInt32(hash * 32) - hash + code)
  }

  /** A turn of the loop multiplies by 31 and adds the code unit, modulo 2^32. */
  lemma HashStepIsTimes31(hash: int, code: CodeUnit)
    requires IsInt32(hash)
    ensures HashStep(hash, code) == ToInt32(31 * hash + code)
  {
    var shifted := ToInt32(hash * 32);
    var q := (shifted - hash * 32) / TWO_32;
    assert shifted - hash * 32 == TWO_32 * q;
    ToInt32Congruent(shifted - hash + code, 31 * hash + code, q);
  }

  /** The value of `hash` after the loop has read all of text. */
  function Hash(text: seq<CodeUnit>): (h: int)
    ensures IsInt32(h)
    decreases |text|
  {
    if text == [] then 0 else HashStep(Hash(text[..|text| - 1]), text[|text| - 1])
  }

  /** The polynomial the hash approximates, without wrap-around:
      the sum of text[i] * 31^(|text|-1-i). */
  function Poly(text: seq<CodeUnit>): int
    decreases |text|
  {
    if text == [] then 0 else 31 * Poly(text[..|text| - 1]) + text[|text| - 1]
  }

  /** simpleHash is the polynomial hash reduced to a signed 32-bit integer. */
  lemma {:induction false} HashIsWrappedPolynomial(text: seq<CodeUnit>)
    ensures Hash(text) == ToInt32(Poly(text))
    decreases |text|
  {
    if text != [] {
      var prefix, last := text[..|text| - 1], text[|text| - 1];
      HashIsWrappedPolynomial(prefix);
      var h, p := Hash(prefix), Poly(prefix);
      HashStepIsTimes31(h, last);
      var q := (h - p) / TWO_32;
      assert h - p == TWO_32 * q;
      ToInt32Congruent(31 * h + last, 31 * p + last, 31 * q);
    }
  }

  /** On texts whose polynomial stays within 32 bits, such as every text of at most
      one code unit, no wrap-around happens. */
  lemma HashOfShortText(text: seq<CodeUnit>)
    requires |text| <= 1
    ensures Hash(text) == Poly(text) == if text == [] then 0 else text[0]
  {
    if text != [] {
      assert text[..0] == [];
    }
  }

  /** simpleHash: the loop over the code units. */
  method SimpleHash(text: seq<CodeUnit>) returns (hash: int)
    ensures hash == Hash(text)
    ensures hash == ToInt32(Poly(text))
  {
    hash := 0;
    for i := 0 to |text|
      invariant hash == Hash(text[..i])
    {
      assert text[..i + 1][..i] == text[..i];
      hash := ToInt32(ToInt32(hash * 32) - hash + text[i]);
    }
    assert text[..|text|] == text;
    HashIsWrappedPolynomial(text);
  }

  // ---------------------------------------------------------------------------
  // Math.abs and the base-n digits
  // ---------------------------------------------------------------------------

  /** Math.abs on a number. */
  function Abs(x: int): nat
  {
    if x < 0 then -x else x
  }

  /** The absolute value of a 32-bit hash is at most 2^31, reached only by -2^31
      (which Math.abs does not wrap, numbers being doubles). */
  lemma AbsOfInt32(h: int)
    requires IsInt32(h)
    ensures Abs(h) <= TWO_31
    ensures Abs(h) == TWO_31 <==> h == -TWO_31
    ensures Abs(h) == 0 <==> h == 0
  {
  }

  /** The digits of n in the given base, least significant first: what the first
      while loop computes with `%` and `Math.floor(/)`. */
  function Digits(n: nat, base: nat): (ds: seq<nat>)
    requires base >= 2
    ensures forall i :: 0 <= i < |ds| ==> ds[i] < base
    ensures ds == [] <==> n == 0
    ensures ds != [] ==> ds[|ds| - 1] != 0
    decreases n
  {
    if n == 0 then [] else [n % base] + Digits(n / base, base)
  }

  /** The number a little-endian digit sequence stands for. */
  function Value(ds: seq<nat>, base: nat): nat
  {
    if ds == [] then 0 else ds[0] + base * Value(ds[1..], base)
  }

  /** The digits stand for n: the loop loses nothing. */
  lemma {:induction false} DigitsValue(n: nat, base: nat)
    requires base >= 2
    ensures Value(Digits(n, base), base) == n
    decreases n
  {
    if n != 0 {
      DivLess(n, base);
      var q, d := n / base, n % base;
      DigitsValue(q, base);
      var ds := Digits(n, base);
      assert ds[0] == d && ds[1..] == Digits(q, base);
      assert Value(ds, base) == d + base * Value(Digits(q, base), base);
      DivMod(n, base);
    }
  }

  /** The quotient is smaller than a positive dividend: the first while loop ends. */
  lemma DivLess(n: nat, base: nat)
    requires n > 0 && base >= 2
    ensures 0 <= n / base < n
  {
    var q := n / base;
    DivMod(n, base);
    assert base * q == 2 * q + (base - 2) * q;
    assert (base - 2) * q >= 0;
  }

  lemma DivMod(n: nat, base: nat)
    requires base >= 2
    ensures n == base * (n / base) + n % base
  {
  }

  /** Digit i of n is (n / base^i) mod base: the loop emits the least significant
      digit first and never reverses. */
  lemma {:induction false} DigitAt(n: nat, base: nat, i: nat)
    requires base >= 2 && i < |Digits(n, base)|
    ensures Pow(base, i) > 0
    ensures Digits(n, base)[i] == (n / Pow(base, i)) % base
    decreases i
  {
    PowPositive(base, i);
    if i > 0 {
      DivLess(n, base);
      var q := n / base;
      assert Digits(n, base)[i] == Digits(q, base)[i - 1];
      DigitAt(q, base, i - 1);
      DivDiv(n, base, Pow(base, i - 1));
    }
  }

  /** Dividing by b and then by p is dividing by b * p. */
  lemma DivDiv(n: nat, b: nat, p: nat)
    requires b > 0 && p > 0
    ensures n / b / p == n / (b * p)
  {
    var q: int, r: int := n / b, n % b;
    DivModOf(n, b);
    var q2: int, r2: int := q / p, q % p;
    DivModOf(q, p);
    RemainderBelow(b, p, r, r2);
    NestedDivision(n, b, p, q, r, q2, r2);
    DivUnique(n, b * p, q2, b * r2 + r);
  }

  lemma DivModOf(n: int, d: int)
    requires d > 0
    ensures n == d * (n / d) + n % d && 0 <= n % d < d
    ensures n >= 0 ==> n / d >= 0
  {
  }

  lemma RemainderBelow(b: int, p: int, r: int, r2: int)
    requires 0 <= r < b && 0 <= r2 < p
    ensures 0 <= b * r2 + r < b * p
  {
    MulLe(b, r2, p - 1);
  }

  lemma NestedDivision(n: int, b: int, p: int, q: int, r: int, q2: int, r2: int)
    requires n == b * q + r && q == p * q2 + r2
    ensures n == (b * p) * q2 + (b * r2 + r)
  {
    assert b * (p * q2 + r2) == (b * p) * q2 + b * r2;
  }

  /** The quotient is the only q with n == d * q + r and 0 <= r < d. */
  lemma DivUnique(n: nat, d: nat, q: nat, r: nat)
    requires d > 0 && n == d * q + r && r < d
    ensures n / d == q
  {
    var q': int, r': int := n / d, n % d;
    assert n == d * q' + r' && 0 <= r' < d;
    if q' < q {
      assert q' + 1 <= q;
      MulLe(d, q' + 1, q);
    } else if q' > q {
      MulLe(d, q + 1, q');
    }
  }

  lemma MulLe(d: int, x: int, y: int)
    requires d >= 0 && x <= y
    ensures d * x <= d * y
  {
    assert d * y - d * x == d * (y - x);
  }

  /** Padding with zero digits at the most significant end keeps the value. */
  lemma {:induction false} ValueOfZeroPadding(ds: seq<nat>, k: nat, base: nat)
    ensures Value(ds + seq(k, _ => 0), base) == Value(ds, base)
    decreases |ds| + k
  {
    if ds == [] {
      if k > 0 {
        assert seq(k, _ => 0)[1..] == seq(k - 1, _ => 0);
        ValueOfZeroPadding([], k - 1, base);
        assert [] + seq(k - 1, _ => 0) == seq(k - 1, _ => 0);
      }
      assert ds + seq(k, _ => 0) == seq(k, _ => 0);
    } else {
      assert (ds + seq(k, _ => 0))[1..] == ds[1..] + seq(k, _ => 0);
      ValueOfZeroPadding(ds[1..], k, base);
    }
  }

  function Pow(base: nat, k: nat): nat
  {
    if k == 0 then 1 else base * Pow(base, k - 1)
  }

  /** n has at most k digits exactly when it is below base^k. */
  lemma {:induction false} DigitsLength(n: nat, base: nat, k: nat)
    requires base >= 2
    ensures |Digits(n, base)| <= k <==> n < Pow(base, k)
    decreases k
  {
    if k == 0 {
    } else if n == 0 {
      PowPositive(base, k);
    } else {
      var q := n / base;
      DigitsLength(q, base, k - 1);
      var p := Pow(base, k - 1);
      assert |Digits(n, base)| == 1 + |Digits(q, base)|;
      assert Pow(base, k) == base * p;
      DivBelow(n, base, p);
    }
  }

  /** n is below base * p exactly when n / base is below p. */
  lemma DivBelow(n: nat, base: nat, p: nat)
    requires base >= 2
    ensures n < base * p <==> n / base < p
  {
    var q, r := n / base, n % base;
    assert n == base * q + r && 0 <= r < base;
    if q < p {
      assert q + 1 <= p;
      assert base * (q + 1) <= base * p;
    } else {
      assert base * q >= base * p;
    }
  }

  lemma {:induction false} PowPositive(base: nat, k: nat)
    requires base >= 1
    ensures Pow(base, k) >= 1
  {
    if k > 0 {
      PowPositive(base, k - 1);
    }
  }

  lemma {:induction false} PowMonotone(a: nat, b: nat, k: nat)
    requires 1 <= a <= b
    ensures Pow(a, k) <= Pow(b, k)
  {
    if k > 0 {
      PowMonotone(a, b, k - 1);
      PowPositive(a, k - 1);
      var pa, pb := Pow(a, k - 1), Pow(b, k - 1);
      MulMonotone(a, b, pa, pb);
    }
  }

  lemma MulMonotone(a: nat, b: nat, x: nat, y: nat)
    requires a <= b && x <= y
    ensures a * x <= b * y
  {
    assert a * x <= b * x;
    assert b * x <= b * y;
  }

  lemma {:induction false} PowOfTwo(k: nat)
    ensures k == 32 ==> Pow(2, k) == TWO_32
    ensures Pow(2, k) >= 1
  {
    if k > 0 {
      PowOfTwo(k - 1);
    }
    if k == 32 {
      assert Pow(2, 32) == 2 * Pow(2, 31) == 4 * Pow(2, 30) == 8 * Pow(2, 29) == 16 * Pow(2, 28);
      assert Pow(2, 28) == 16 * Pow(2, 24) == 256 * Pow(2, 20);
      assert Pow(2, 20) == 16 * Pow(2, 16) == 256 * Pow(2, 12);
      assert Pow(2, 12) == 16 * Pow(2, 8) == 256 * Pow(2, 4) == 4096;
    }
  }

  /** The absolute hash has at most 32 digits in any base of two or more, so the
      fingerprint has at most 32 emojis. */
  lemma DigitsOfHash(n: nat, base: nat)
    requires base >= 2 && n <= TWO_31
    ensures |Digits(n, base)| <= 32
  {
    PowOfTwo(32);
    PowMonotone(2, base, 32);
    DigitsLength(n, base, 32);
  }

  // ---------------------------------------------------------------------------
  // textToEmoji
  // ---------------------------------------------------------------------------

  /** The emojis for a list of digits, one per digit. */
  function DigitGlyphs(ds: seq<nat>, emojis: seq<string>): (r: seq<string>)
    requires forall i :: 0 <= i < |ds| ==> ds[i] < |emojis|
    ensures |r| == |ds|
    ensures forall i :: 0 <= i < |ds| ==> r[i] == emojis[ds[i]]
  {
    if ds == [] then [] else [emojis[ds[0]]] + DigitGlyphs(ds[1..], emojis)
  }

  /** One turn of the first while loop: the emoji of the lowest digit, then those
      of the quotient. */
  lemma DigitGlyphsStep(n: nat, emojis: seq<string>)
    requires n > 0 && |emojis| >= 2
    ensures DigitGlyphs(Digits(n, |emojis|), emojis)
         == [emojis[n % |emojis|]] + DigitGlyphs(Digits(n / |emojis|, |emojis|), emojis)
  {
    var rest := Digits(n / |emojis|, |emojis|);
    assert Digits(n, |emojis|) == [n % |emojis|] + rest;
    assert ([n % |emojis|] + rest)[1..] == rest;
  }

  /** A turn of the first while loop keeps its invariant: the emojis pushed so far,
      followed by those of the digits still in tempHash, are those of all the digits
      of the hash. */
  lemma DigitLoopStep(pushed: seq<string>, tempHash: nat, hash: nat, emojis: seq<string>)
    requires tempHash > 0 && |emojis| >= 2
    requires pushed + DigitGlyphs(Digits(tempHash, |emojis|), emojis) == DigitGlyphs(Digits(hash, |emojis|), emojis)
    ensures 0 <= tempHash / |emojis| < tempHash
    ensures (pushed + [emojis[tempHash % |emojis|]]) + DigitGlyphs(Digits(tempHash / |emojis|, |emojis|), emojis)
         == DigitGlyphs(Digits(hash, |emojis|), emojis)
  {
    DivLess(tempHash, |emojis|);
    DigitGlyphsStep(tempHash, emojis);
    AppendAssociative(pushed, emojis[tempHash % |emojis|], DigitGlyphs(Digits(tempHash / |emojis|, |emojis|), emojis));
  }

  lemma AppendAssociative(a: seq<string>, x: string, b: seq<string>)
    ensures a + ([x] + b) == (a + [x]) + b
  {
  }

  /** The second while loop: fill is appended until there are four elements. */
  function Pad(s: seq<string>, fill: string): (r: seq<string>)
    ensures |r| == if |s| >= 4 then |s| else 4
    ensures r[..|s|] == s
    ensures forall i :: |s| <= i < |r| ==> r[i] == fill
    decreases 4 - |s|
  {
    if |s| >= 4 then s else Pad(s + [fill], fill)
  }

  /** The emoji sequence textToEmoji builds, before the join. */
  function EmojiSequence(text: seq<CodeUnit>, emojis: seq<string>): seq<string>
    requires |emojis| >= 2
  {
    Pad(DigitGlyphs(Digits(Abs(Hash(text)), |emojis|), emojis), emojis[0])
  }

  /** JavaScript's `parts.join(' ')`. */
  function JoinWithSpace(parts: seq<string>): string
  {
    if parts == [] then []
    else if |parts| == 1 then parts[0]
    else parts[0] + " " + JoinWithSpace(parts[1..])
  }

  /** JavaScript's `s.split(' ')`: the pieces between single spaces, an empty piece
      for each space at an end or next to another space. */
  function SplitOnSpace(s: string): (parts: seq<string>)
    ensures |parts| >= 1
    decreases |s|
  {
    if s == [] then [[]]
    else
      var rest := SplitOnSpace(s[1..]);
      if s[0] == ' ' then [[]] + rest else [[s[0]] + rest[0]] + rest[1..]
  }

  /** A string without a space splits into itself. */
  lemma {:induction false} SplitWithoutSpace(a: string)
    requires ' ' !in a
    ensures SplitOnSpace(a) == [a]
    decreases |a|
  {
    if a != [] {
      SplitWithoutSpace(a[1..]);
      assert [a[0]] + a[1..] == a;
    }
  }

  /** Splitting a, a space, then b gives a followed by the pieces of b. */
  lemma {:induction false} SplitAfterSpace(a: string, b: string)
    requires ' ' !in a
    ensures SplitOnSpace(a + " " + b) == [a] + SplitOnSpace(b)
    decreases |a|
  {
    if a == [] {
      assert a + " " + b == [' '] + b;
      assert (a + " " + b)[1..] == b;
    } else {
      assert (a + " " + b)[1..] == a[1..] + " " + b;
      SplitAfterSpace(a[1..], b);
      assert [a[0]] + a[1..] == a;
    }
  }

  /** Joining with single spaces and splitting on them gives the parts back when no
      part holds a space, which is what a reader of the fingerprint relies on. */
  lemma {:induction false} SplitOfJoin(parts: seq<string>)
    requires parts != []
    requires forall i :: 0 <= i < |parts| ==> ' ' !in parts[i]
    ensures SplitOnSpace(JoinWithSpace(parts)) == parts
    decreases |parts|
  {
    if |parts| == 1 {
      SplitWithoutSpace(parts[0]);
    } else {
      SplitOfJoin(parts[1..]);
      SplitAfterSpace(parts[0], JoinWithSpace(parts[1..]));
      assert [parts[0]] + parts[1..] == parts;
    }
  }

  /** textToEmoji: hash, take the absolute value, emit the base-n digits as emojis
      least significant first, pad with the first emoji to four, join with spaces. */
  method TextToEmoji(text: seq<CodeUnit>, emojis: seq<string>) returns (r: string)
    requires |emojis| >= 2
    ensures r == JoinWithSpace(EmojiSequence(text, emojis))
  {
    var h := SimpleHash(text);
    var hash := Abs(h);
    var emojiSequence: seq<string> := [];
    var base: nat := |emojis|;
    var tempHash: nat := hash;
    while tempHash > 0
      invariant emojiSequence + DigitGlyphs(Digits(tempHash, base), emojis)
             == DigitGlyphs(Digits(hash, base), emojis)
      decreases tempHash
    {
      DigitLoopStep(emojiSequence, tempHash, hash, emojis);
      var index := tempHash % base;
      emojiSequence := emojiSequence + [emojis[index]];
      tempHash := tempHash / base;
    }
    assert Digits(tempHash, base) == [];
    assert emojiSequence == DigitGlyphs(Digits(Abs(Hash(text)), base), emojis);
    while |emojiSequence| < 4
      invariant Pad(emojiSequence, emojis[0]) == EmojiSequence(text, emojis)
      decreases 4 - |emojiSequence|
    {
      assert Pad(emojiSequence, emojis[0]) == Pad(emojiSequence + [emojis[0]], emojis[0]);
      emojiSequence := emojiSequence + [emojis[0]];
    }
    assert Pad(emojiSequence, emojis[0]) == emojiSequence;
    r := JoinWithSpace(emojiSequence);
  }

  /** The shape of the fingerprint: between 4 and 32 emojis, all from the list; the
      first ones are the digits of |hash|, the rest the first emoji. */
  lemma EmojiSequenceShape(text: seq<CodeUnit>, emojis: seq<string>)
    requires |emojis| >= 2
    ensures var s := EmojiSequence(text, emojis);
      var ds := Digits(Abs(Hash(text)), |emojis|);
      && 4 <= |s| <= 32
      && |s| == (if |ds| >= 4 then |ds| else 4)
      && (forall i :: 0 <= i < |s| ==> s[i] in emojis)
      && (forall i :: 0 <= i < |ds| ==> s[i] == emojis[ds[i]])
      && (forall i :: |ds| <= i < |s| ==> s[i] == emojis[0])
  {
    AbsOfInt32(Hash(text));
    DigitsOfHash(Abs(Hash(text)), |emojis|);
    var s := EmojiSequence(text, emojis);
    var ds := Digits(Abs(Hash(text)), |emojis|);
    var g := DigitGlyphs(ds, emojis);
    forall i | 0 <= i < |ds|
      ensures s[i] == emojis[ds[i]]
    {
      assert s[i] == s[..|g|][i];
    }
  }

  /** A hash of zero (the empty text among others) gives four copies of the first
      emoji. */
  lemma ZeroHash(text: seq<CodeUnit>, emojis: seq<string>)
    requires |emojis| >= 2 && Hash(text) == 0
    ensures EmojiSequence(text, emojis) == [emojis[0], emojis[0], emojis[0], emojis[0]]
  {
  }

  /** With five emojis, the text made of the single code unit 7 hashes to 7, whose
      base-5 digits are 2 and 1 (7 = 1*5 + 2): the fingerprint is emojis 2, 1, 0, 0. */
  lemma SevenInBaseFive(emojis: seq<string>)
    requires |emojis| == 5
    ensures EmojiSequence([7], emojis) == [emojis[2], emojis[1], emojis[0], emojis[0]]
  {
    HashOfShortText([7]);
    assert Digits(7, 5) == [2] + Digits(1, 5);
    assert Digits(1, 5) == [1] + Digits(0, 5);
    var g := DigitGlyphs([2, 1], emojis);
    assert g == [emojis[2], emojis[1]];
    assert Pad(g, emojis[0]) == Pad(g + [emojis[0]], emojis[0]);
  }

  /** The position of the first occurrence of e in the list. */
  function IndexOf(e: string, emojis: seq<string>): (i: nat)
    requires e in emojis
    ensures i < |emojis| && emojis[i] == e
    ensures forall j :: 0 <= j < i ==> emojis[j] != e
  {
    if emojis[0] == e then 0 else 1 + IndexOf(e, emojis[1..])
  }

  /** With no emoji listed twice, an emoji's position is the index it was taken from. */
  lemma IndexOfDistinct(emojis: seq<string>, d: nat)
    requires d < |emojis|
    requires forall i, j :: 0 <= i < j < |emojis| ==> emojis[i] != emojis[j]
    ensures IndexOf(emojis[d], emojis) == d
  {
  }

  /** The positions of a digit sequence's emojis followed by copies of the first
      emoji are those digits followed by zeros. */
  lemma IndicesOfPadded(s: seq<string>, ds: seq<nat>, emojis: seq<string>)
    requires |emojis| >= 1 && |ds| <= |s|
    requires forall i, j :: 0 <= i < j < |emojis| ==> emojis[i] != emojis[j]
    requires forall i :: 0 <= i < |ds| ==> ds[i] < |emojis| && s[i] == emojis[ds[i]]
    requires forall i :: |ds| <= i < |s| ==> s[i] == emojis[0]
    ensures forall i :: 0 <= i < |s| ==> s[i] in emojis
    ensures seq(|s|, i requires 0 <= i < |s| => IndexOf(s[i], emojis))
         == ds + seq(|s| - |ds|, _ => 0)
  {
    forall i | 0 <= i < |s|
      ensures s[i] in emojis && IndexOf(s[i], emojis) == (ds + seq(|s| - |ds|, _ => 0))[i]
    {
      if i < |ds| {
        IndexOfDistinct(emojis, ds[i]);
      } else {
        IndexOfDistinct(emojis, 0);
      }
    }
  }

  /** With no emoji listed twice, reading the fingerprint back as base-n digits,
      least significant first, gives the absolute value of the hash: the padding
      emojis stand for leading zeros. */
  lemma FingerprintDecodes(text: seq<CodeUnit>, emojis: seq<string>)
    requires |emojis| >= 2
    requires forall i, j :: 0 <= i < j < |emojis| ==> emojis[i] != emojis[j]
    ensures var s := EmojiSequence(text, emojis);
      Value(seq(|s|, i requires 0 <= i < |s| => IndexOf(s[i], emojis)), |emojis|) == Abs(Hash(text))
  {
    EmojiSequenceShape(text, emojis);
    var s := EmojiSequence(text, emojis);
    var ds := Digits(Abs(Hash(text)), |emojis|);
    IndicesOfPadded(s, ds, emojis);
    ValueOfZeroPadding(ds, |s| - |ds|, |emojis|);
    DigitsValue(Abs(Hash(text)), |emojis|);
  }
}
