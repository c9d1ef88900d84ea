/**
 * Text utilities of the search engine: `normalize` (transliterate to ASCII,
 * lower-case, trim) and the Python string primitives it and the searches use
 * (`str.isspace`, `str.lower`, `str.strip`, `str.find`, substring test).
 */
module Text {
  import opened Wrappers

  /** Python's `str.isspace` for one character (the whitespace `strip()` removes). */
  predicate IsSpace(c: char) {
    var n := c as int;
    (9 <= n <= 13) || (28 <= n <= 32) || n == 0x85 || n == 0xA0 || n == 0x1680
    || (0x2000 <= n <= 0x200A) || n == 0x2028 || n == 0x2029 || n == 0x202F
    || n == 0x205F || n == 0x3000
  }

  predicate IsAscii(c: char) { (c as int) < 0x80 }

  predicate AllAscii(s: string) { forall i :: 0 <= i < |s| ==> IsAscii(s[i]) }

  predicate IsUpperAscii(c: char) { 'A' <= c <= 'Z' }

  predicate NoUpperAscii(s: string) { forall i :: 0 <= i < |s| ==> !IsUpperAscii(s[i]) }

  /** No whitespace at either end: what `strip()` guarantees. */
  predicate Trimmed(s: string) { s == [] || (!IsSpace(s[0]) && !IsSpace(s[|s| - 1])) }

  // ---------------------------------------------------------------------------
  // Transliteration (unidecode)
  // ---------------------------------------------------------------------------

  /**
   * unidecode for one character: ASCII is kept, the Latin-1 letters and the
   * ligatures OE/oe get their ASCII spelling (sometimes two letters), a
   * no-break space becomes a space, anything else becomes "".
   */
  function TransliterateChar(c: char): (r: string)
    ensures AllAscii(r)
    ensures IsAscii(c) ==> r == [c]
  {
    var n := c as int;
    if n < 0x80 then [c]
    else if n == 0xA0 then " "
    else if 0xC0 <= n <= 0xC5 then "A"
    else if n == 0xC6 then "AE"
    else if n == 0xC7 then "C"
    else if 0xC8 <= n <= 0xCB then "E"
    else if 0xCC <= n <= 0xCF then "I"
    else if n == 0xD0 then "D"
    else if n == 0xD1 then "N"
    else if 0xD2 <= n <= 0xD6 then "O"
    else if n == 0xD7 then "x"
    else if n == 0xD8 then "O"
    else if 0xD9 <= n <= 0xDC then "U"
    else if n == 0xDD then "Y"
    else if n == 0xDE then "Th"
    else if n == 0xDF then "ss"
    else if 0xE0 <= n <= 0xE5 then "a"
    else if n == 0xE6 then "ae"
    else if n == 0xE7 then "c"
    else if 0xE8 <= n <= 0xEB then "e"
    else if 0xEC <= n <= 0xEF then "i"
    else if n == 0xF0 then "d"
    else if n == 0xF1 then "n"
    else if 0xF2 <= n <= 0xF6 then "o"
    else if n == 0xF7 then "/"
    else if n == 0xF8 then "o"
    else if 0xF9 <= n <= 0xFC then "u"
    else if n == 0xFD || n == 0xFF then "y"
    else if n == 0xFE then "th"
    else if n == 0x152 then "OE"
    else if n == 0x153 then "oe"
    else ""
  }

  /** unidecode on a string: the result is ASCII, and ASCII input comes back unchanged. */
  function Transliterate(s: string): (r: string)
    ensures AllAscii(r)
    ensures AllAscii(s) ==> r == s
  {
    if s == [] then []
    else
      var head := TransliterateChar(s[0]);
      var tail := Transliterate(s[1..]);
      assert forall i :: 0 <= i < |head + tail| ==>
        (head + tail)[i] == if i < |head| then head[i] else tail[i - |head|];
      head + tail
  }

  // ---------------------------------------------------------------------------
  // Lower-casing (str.lower)
  // ---------------------------------------------------------------------------

  /** `str.lower` on one character, for ASCII and the Latin-1 capitals. */
  function LowerChar(c: char): char {
    var n := c as int;
    if 'A' <= c <= 'Z' then (n + 32) as char
    else if 0xC0 <= n <= 0xDE && n != 0xD7 then (n + 32) as char
    else c
  }

  function Lower(s: string): (r: string)
    ensures |r| == |s|
  {
    seq(|s|, i requires 0 <= i < |s| => LowerChar(s[i]))
  }

  /** Lower-casing keeps ASCII text ASCII and leaves no ASCII capital in it. */
  lemma LowerAscii(s: string)
    requires AllAscii(s)
    ensures AllAscii(Lower(s)) && NoUpperAscii(Lower(s))
  {
  }

  /** Lower-casing twice is lower-casing once. */
  lemma LowerIdempotent(s: string)
    ensures Lower(Lower(s)) == Lower(s)
  {
    forall i | 0 <= i < |s|
      ensures Lower(Lower(s))[i] == Lower(s)[i]
    {
      var c := s[i];
      assert Lower(s)[i] == LowerChar(c);
    }
  }

  /** Lower-casing ASCII text that has no capital changes nothing. */
  lemma LowerKeepsLowercase(s: string)
    requires AllAscii(s) && NoUpperAscii(s)
    ensures Lower(s) == s
  {
  }

  // ---------------------------------------------------------------------------
  // Trimming (str.strip)
  // ---------------------------------------------------------------------------

  /** `str.lstrip()`: the longest suffix of `s` that does not start with whitespace. */
  function StripLeft(s: string): (r: string)
    ensures |r| <= |s| && r == s[|s| - |r|..]
    ensures r == [] || !IsSpace(r[0])
    ensures forall i :: 0 <= i < |s| - |r| ==> IsSpace(s[i])
  {
    if |s| > 0 && IsSpace(s[0]) then StripLeft(s[1..]) else s
  }

  /** `str.rstrip()`: the longest prefix of `s` that does not end with whitespace. */
  function StripRight(s: string): (r: string)
    ensures |r| <= |s| && r == s[..|r|]
    ensures r == [] || !IsSpace(r[|r| - 1])
    ensures forall i :: |r| <= i < |s| ==> IsSpace(s[i])
  {
    if |s| > 0 && IsSpace(s[|s| - 1]) then StripRight(s[..|s| - 1]) else s
  }

  /** `r` is `s[lo..]` cut to its length, and all of `s` around it is whitespace. */
  predicate TrimmedSlice(s: string, r: string, lo: int) {
    0 <= lo <= lo + |r| <= |s| && r == s[lo..lo + |r|]
    && (forall i :: 0 <= i < lo ==> IsSpace(s[i]))
    && (forall i :: lo + |r| <= i < |s| ==> IsSpace(s[i]))
  }

  /** `str.strip()`: drops the whitespace at both ends; no whitespace is left at either end. */
  function Strip(s: string): (r: string)
    ensures Trimmed(r)
  {
    StripRight(StripLeft(s))
  }

  /** Cutting leading whitespace and then trailing whitespace leaves a trimmed slice. */
  lemma CutTwice(s: string, l: string, r: string)
    requires |l| <= |s| && l == s[|s| - |l|..] && forall i :: 0 <= i < |s| - |l| ==> IsSpace(s[i])
    requires |r| <= |l| && r == l[..|r|] && forall i :: |r| <= i < |l| ==> IsSpace(l[i])
    ensures TrimmedSlice(s, r, |s| - |l|)
  {
    var lo := |s| - |l|;
    assert s[lo..][..|r|] == s[lo..lo + |r|];
    forall i | lo + |r| <= i < |s|
      ensures IsSpace(s[i])
    {
      assert s[i] == l[i - lo];
    }
  }

  /** What `str.strip()` keeps is a slice of `s`, and everything it cuts off is whitespace. */
  lemma StripCutsWhitespace(s: string)
    ensures exists lo :: TrimmedSlice(s, Strip(s), lo)
  {
    var l := StripLeft(s);
    CutTwice(s, l, StripRight(l));
    assert TrimmedSlice(s, Strip(s), |s| - |l|);
  }

  /** Stripping text that is already trimmed changes nothing. */
  lemma StripTrimmed(s: string)
    requires Trimmed(s)
    ensures Strip(s) == s
  {
  }

  // ---------------------------------------------------------------------------
  // normalize
  // ---------------------------------------------------------------------------

  /**
   * `normalize`: `None` becomes "", anything else is transliterated,
   * lower-cased and trimmed. The result is ASCII, has no capital letter and
   * no whitespace at either end.
   */
  function Normalize(s: Option<string>): (r: string)
    ensures s.None? ==> r == ""
    ensures AllAscii(r) && NoUpperAscii(r) && Trimmed(r)
  {
    match s
    case None => ""
    case Some(t) =>
      var lowered := Lower(Transliterate(t));
      LowerAscii(Transliterate(t));
      Strip(lowered)
  }

  /** ASCII text is normalized by lower-casing and trimming alone. */
  lemma NormalizeAscii(s: string)
    requires AllAscii(s)
    ensures Normalize(Some(s)) == StripRight(StripLeft(Lower(s)))
  {
    assert Transliterate(s) == s;
  }

  /** Normalizing ASCII text never makes it longer. */
  lemma NormalizeAsciiShorter(s: string)
    requires AllAscii(s)
    ensures |Normalize(Some(s))| <= |s|
  {
    NormalizeAscii(s);
  }

  /** Text that does not start with whitespace keeps its start when lower-cased and left-trimmed. */
  lemma StripLeftLower(s: string)
    requires s == [] || !IsSpace(s[0])
    ensures StripLeft(Lower(s)) == Lower(s)
  {
    if s != [] {
      assert Lower(s)[0] == LowerChar(s[0]);
    }
  }

  /** Text that does not end with whitespace keeps its end when lower-cased and right-trimmed. */
  lemma StripRightLower(s: string)
    requires s == [] || !IsSpace(s[|s| - 1])
    ensures StripRight(Lower(s)) == Lower(s)
  {
    if s != [] {
      assert Lower(s)[|s| - 1] == LowerChar(s[|s| - 1]);
    }
  }

  /** Trimmed ASCII text is normalized by lower-casing alone. */
  lemma NormalizeTrimmedAscii(s: string)
    requires AllAscii(s) && Trimmed(s)
    ensures Normalize(Some(s)) == Lower(s)
  {
    NormalizeAscii(s);
    StripLeftLower(s);
    StripRightLower(s);
  }

  /** `r` is a prefix of `s` lower-cased: character `i` of `r` is `s[i]` lower-cased. */
  predicate LowerCasedPrefix(r: string, s: string) {
    |r| <= |s| && forall i :: 0 <= i < |r| ==> r[i] == LowerChar(s[i])
  }

  /**
   * ASCII text that does not start with whitespace normalizes to a prefix of
   * its lower-cased self, so positions in the normalized text are positions
   * in the original text.
   */
  lemma NormalizeAsciiPrefix(s: string)
    requires AllAscii(s) && (s == [] || !IsSpace(s[0]))
    ensures LowerCasedPrefix(Normalize(Some(s)), s)
  {
    NormalizeAsciiNoLeadingSpace(s);
    var r := StripRight(Lower(s));
    forall i | 0 <= i < |r|
      ensures r[i] == LowerChar(s[i])
    {
      assert r[i] == Lower(s)[i];
    }
  }

  /** ASCII text that does not start with whitespace is only lower-cased and right-trimmed. */
  lemma NormalizeAsciiNoLeadingSpace(s: string)
    requires AllAscii(s) && (s == [] || !IsSpace(s[0]))
    ensures Normalize(Some(s)) == StripRight(Lower(s))
  {
    NormalizeAscii(s);
    StripLeftLower(s);
  }

  /** Normalizing twice is normalizing once. */
  lemma NormalizeIdempotent(s: Option<string>)
    ensures Normalize(Some(Normalize(s))) == Normalize(s)
  {
    var n := Normalize(s);
    assert Transliterate(n) == n;
    LowerKeepsLowercase(n);
    StripTrimmed(n);
  }

  /** Lower-casing distributes over concatenation. */
  lemma LowerAppend(a: string, b: string)
    ensures Lower(a + b) == Lower(a) + Lower(b)
  {
  }

  /** Concatenation is associative (stated once, so that proofs need not expand both sides). */
  lemma ConcatAssoc<T>(x: seq<T>, y: seq<T>, z: seq<T>)
    ensures x + (y + z) == (x + y) + z
  {
  }

  /** unidecode of a non-empty text is that of its first character, then that of the rest. */
  lemma TransliterateFirst(a: string, b: string)
    requires a != []
    ensures Transliterate(a + b) == TransliterateChar(a[0]) + Transliterate(a[1..] + b)
  {
    assert (a + b)[0] == a[0] && (a + b)[1..] == a[1..] + b;
  }

  /** unidecode of a concatenation is the concatenation of the two transliterations. */
  lemma {:induction false} TransliterateAppend(a: string, b: string)
    ensures Transliterate(a + b) == Transliterate(a) + Transliterate(b)
    decreases |a|
  {
    if a == [] {
      assert a + b == b;
    } else {
      TransliterateAppend(a[1..], b);
      TransliterateFirst(a, b);
      ConcatAssoc(TransliterateChar(a[0]), Transliterate(a[1..]), Transliterate(b));
    }
  }

  /** A capital and its small letter transliterate to the same text once lower-cased. */
  lemma TransliterateLowerChar(c: char)
    ensures Lower(TransliterateChar(LowerChar(c))) == Lower(TransliterateChar(c))
  {
  }

  /** Lower-casing before unidecode makes no difference once the result is lower-cased. */
  lemma {:induction false} TransliterateLower(s: string)
    ensures Lower(Transliterate(Lower(s))) == Lower(Transliterate(s))
    decreases |s|
  {
    if s != [] {
      var l := Lower(s);
      assert l[1..] == Lower(s[1..]);
      TransliterateLower(s[1..]);
      TransliterateLowerChar(s[0]);
      assert Transliterate(l) == TransliterateChar(LowerChar(s[0])) + Transliterate(Lower(s[1..]));
      LowerAppend(TransliterateChar(LowerChar(s[0])), Transliterate(Lower(s[1..])));
      LowerAppend(TransliterateChar(s[0]), Transliterate(s[1..]));
    }
  }

  /** `normalize` ignores case: a text and its lower-cased form normalize alike. */
  lemma NormalizeIgnoresCase(s: string)
    ensures Normalize(Some(Lower(s))) == Normalize(Some(s))
  {
    TransliterateLower(s);
  }

  /**
   * `normalize` ignores accents that unidecode drops: a letter that unidecode
   * spells as one ASCII letter may be replaced by that letter anywhere in the text.
   */
  lemma NormalizeIgnoresAccent(front: string, c: char, d: char, back: string)
    requires TransliterateChar(c) == [d]
    ensures Normalize(Some(front + [c] + back)) == Normalize(Some(front + [d] + back))
  {
    assert IsAscii(d);
    TransliterateAppend(front + [c], back);
    TransliterateAppend(front, [c]);
    TransliterateAppend(front + [d], back);
    TransliterateAppend(front, [d]);
    assert Transliterate([c]) == [d] == Transliterate([d]);
  }

  /** "mamouni abd\U{e9}laziz" and "mamouni abdelaziz" normalize alike. */
  lemma AccentedNameAgrees()
    ensures Normalize(Some("mamouni abd" + "\U{e9}" + "laziz")) == Normalize(Some("mamouni abd" + "e" + "laziz"))
  {
    NormalizeIgnoresAccent("mamouni abd", '\U{e9}', 'e', "laziz");
  }

  // ---------------------------------------------------------------------------
  // Substring search (str.find, `in`)
  // ---------------------------------------------------------------------------

  /** `s[p + i..]` agrees with `sub[i..]` over the length of `sub`. */
  predicate AgreesFrom(s: string, sub: string, p: nat, i: nat)
    requires p + |sub| <= |s|
    decreases |sub| - i
  {
    i >= |sub| || (s[p + i] == sub[i] && AgreesFrom(s, sub, p, i + 1))
  }

  /** `sub` occurs in `s` at position `p`. */
  predicate MatchAt(s: string, sub: string, p: int) {
    0 <= p && p + |sub| <= |s| && AgreesFrom(s, sub, p, 0)
  }

  lemma {:induction false} AgreesFromIff(s: string, sub: string, p: nat, i: nat)
    requires p + |sub| <= |s|
    ensures AgreesFrom(s, sub, p, i) <==> forall j :: i <= j < |sub| ==> s[p + j] == sub[j]
    decreases |sub| - i
  {
    if i < |sub| {
      AgreesFromIff(s, sub, p, i + 1);
    }
  }

  /** `MatchAt` is the slice comparison `s[p..p + |sub|] == sub`. */
  lemma MatchAtSlice(s: string, sub: string, p: int)
    ensures MatchAt(s, sub, p) <==> 0 <= p && p + |sub| <= |s| && s[p..p + |sub|] == sub
  {
    if 0 <= p && p + |sub| <= |s| {
      AgreesFromIff(s, sub, p, 0);
      assert s[p..p + |sub|] == sub <==> forall j :: 0 <= j < |sub| ==> s[p + j] == sub[j];
    }
  }

  /**
   * Python's `s.find(sub, start)`: a position at or after `start` where `sub`
   * occurs, or -1; FindLeftmost shows it is the lowest such position.
   */
  function Find(s: string, sub: string, start: nat): (r: int)
    ensures r == -1 || (start <= r && MatchAt(s, sub, r))
    decreases |s| - start
  {
    if start + |sub| > |s| then -1
    else if MatchAt(s, sub, start) then start
    else Find(s, sub, start + 1)
  }

  /** No match lies between `start` and what `Find` returns (or the end, for -1). */
  lemma {:induction false} FindLeftmost(s: string, sub: string, start: nat, p: int)
    requires start <= p && MatchAt(s, sub, p)
    ensures Find(s, sub, start) != -1 && Find(s, sub, start) <= p
    decreases |s| - start
  {
    if start < p && !MatchAt(s, sub, start) {
      FindLeftmost(s, sub, start + 1, p);
    }
  }

  /** Literal substring test (`sub in s`). */
  predicate Contains(s: string, sub: string) {
    Find(s, sub, 0) != -1
  }

  /** `Contains` holds exactly when `sub` occurs somewhere in `s`. */
  lemma ContainsIff(s: string, sub: string)
    ensures Contains(s, sub) <==> exists p :: MatchAt(s, sub, p)
  {
    if p :| MatchAt(s, sub, p) {
      FindLeftmost(s, sub, 0, p);
    }
  }
}
