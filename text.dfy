/** Character classes and string helpers shared by the name cleaners.
    Strings are sequences of Unicode scalar values, like Python's `str`. */
module Text {
  import opened Wrappers

  /** The CJK Unified Ideographs block, `[一-鿿]` in the sources. */
  predicate IsCjk(c: char) {
    '\U{4E00}' <= c <= '\U{9FFF}'
  }

  /** Python's `str.isspace()`, which is also what `\s` and `strip()` use on
      `str`: the ASCII controls 9..13 and 28..31, the space, U+0085, U+00A0,
      U+1680, U+2000..U+200A, U+2028, U+2029, U+202F, U+205F and U+3000. */
  predicate IsSpace(c: char) {
    || '\U{0009}' <= c <= '\U{000D}'
    || '\U{001C}' <= c <= '\U{0020}'
    || c == '\U{0085}' || c == '\U{00A0}' || c == '\U{1680}'
    || '\U{2000}' <= c <= '\U{200A}'
    || c == '\U{2028}' || c == '\U{2029}' || c == '\U{202F}' || c == '\U{205F}'
    || c == '\U{3000}'
  }

  /** Python's `str.isalpha()` on one character, restricted to the scripts a
      ROM name realistically contains: ASCII and Latin letters, Greek,
      Cyrillic, kana, CJK ideographs and Hangul syllables. */
  predicate IsAlpha(c: char) {
    || 'A' <= c <= 'Z' || 'a' <= c <= 'z'
    || ('\U{00C0}' <= c <= '\U{024F}' && c != '\U{00D7}' && c != '\U{00F7}')
    || ('\U{0391}' <= c <= '\U{03C9}' && c != '\U{03A2}' && !('\U{03AA}' <= c <= '\U{03B0}'))
    || '\U{0410}' <= c <= '\U{044F}'
    || '\U{3041}' <= c <= '\U{3096}' || '\U{30A1}' <= c <= '\U{30FA}'
    || IsCjk(c)
    || '\U{AC00}' <= c <= '\U{D7A3}'
  }

  predicate IsAsciiUpper(c: char) { 'A' <= c <= 'Z' }

  /** `str.lower()` on one character, folding the ASCII letters. */
  function LowerChar(c: char): (r: char)
    ensures !IsAsciiUpper(r)
    ensures !IsAsciiUpper(c) ==> r == c
  {
    if IsAsciiUpper(c) then (c as int - 'A' as int + 'a' as int) as char else c
  }

  /** `str.lower()`, folding the ASCII letters. */
  function Lower(s: string): (r: string)
    ensures |r| == |s|
    ensures forall i :: 0 <= i < |s| ==> r[i] == LowerChar(s[i])
  {
    if s == [] then [] else [LowerChar(s[0])] + Lower(s[1..])
  }

  /** No ASCII capital letter in `s`. */
  predicate IsLowerCase(s: string) {
    forall k :: 0 <= k < |s| ==> !IsAsciiUpper(s[k])
  }

  /** A string without capitals is its own lower-case form. */
  lemma LowerOfLowerCase(s: string)
    requires IsLowerCase(s)
    ensures Lower(s) == s
  {
  }

  /** Lower-casing twice is lower-casing once. */
  lemma LowerIdempotent(s: string)
    ensures Lower(Lower(s)) == Lower(s)
  {
    assert forall i :: 0 <= i < |s| ==> Lower(Lower(s))[i] == Lower(s)[i];
  }

  /** `str.rstrip()`: drop trailing whitespace. */
  function RStrip(s: string): (r: string)
    ensures |r| <= |s| && r == s[..|r|]
    ensures r == [] || !IsSpace(r[|r| - 1])
    ensures forall k :: |r| <= k < |s| ==> IsSpace(s[k])
  {
    if s != [] && IsSpace(s[|s| - 1]) then RStrip(s[..|s| - 1]) else s
  }

  /** `str.lstrip()`: drop leading whitespace. */
  function LStrip(s: string): (r: string)
    ensures |r| <= |s| && r == s[|s| - |r|..]
    ensures r == [] || !IsSpace(r[0])
    ensures forall k :: 0 <= k < |s| - |r| ==> IsSpace(s[k])
  {
    if s != [] && IsSpace(s[0]) then LStrip(s[1..]) else s
  }

  /** `r` is `s` with the whitespace before index `i` and after `r` dropped. */
  predicate StrippedAt(s: string, r: string, i: int) {
    && 0 <= i <= |s| - |r|
    && r == s[i..i + |r|]
    && (forall k :: 0 <= k < i ==> IsSpace(s[k]))
    && (forall k :: i + |r| <= k < |s| ==> IsSpace(s[k]))
  }

  /** Where the stripped piece of `s` starts. */
  function StripStart(s: string): nat {
    |RStrip(s)| - |LStrip(RStrip(s))|
  }

  /** `r` is `s` stripped: the piece of it from `StripStart(s)`, with no
      whitespace at either end, obtained by dropping only whitespace. */
  predicate IsStripOf(s: string, r: string) {
    && StrippedAt(s, r, StripStart(s))
    && (r == [] || (!IsSpace(r[0]) && !IsSpace(r[|r| - 1])))
  }

  /** `str.strip()`. */
  function Strip(s: string): (r: string)
    ensures IsStripOf(s, r)
  {
    StripsBothEnds(s);
    LStrip(RStrip(s))
  }

  lemma StripsBothEnds(s: string)
    ensures IsStripOf(s, LStrip(RStrip(s)))
  {
    StripPiece(s);
    StripEndsClean(s);
  }

  lemma StripPiece(s: string)
    ensures StrippedAt(s, LStrip(RStrip(s)), StripStart(s))
  {
    StripPieceIsSlice(s);
    StripPieceAfterSpaces(s);
  }

  lemma StripPieceIsSlice(s: string)
    ensures var r := LStrip(RStrip(s)); r == s[StripStart(s)..StripStart(s) + |r|]
  {
    var t := RStrip(s);
    var r := LStrip(t);
    SuffixOfPrefix(s, t, r);
    assert StripStart(s) == |t| - |r|;
  }

  /** A suffix of a prefix is a slice. */
  lemma SuffixOfPrefix(s: string, t: string, r: string)
    requires |t| <= |s| && t == s[..|t|]
    requires |r| <= |t| && r == t[|t| - |r|..]
    ensures r == s[|t| - |r|..|t|]
  {
  }

  lemma StripPieceAfterSpaces(s: string)
    ensures forall k :: 0 <= k < StripStart(s) ==> IsSpace(s[k])
  {
    var t := RStrip(s);
    forall k | 0 <= k < StripStart(s)
      ensures IsSpace(s[k])
    {
      assert s[k] == t[k];
    }
  }

  lemma StripEndsClean(s: string)
    ensures var r := LStrip(RStrip(s)); r == [] || (!IsSpace(r[0]) && !IsSpace(r[|r| - 1]))
  {
    var t := RStrip(s);
    var r := LStrip(t);
    if r != [] {
      assert r[|r| - 1] == t[|t| - 1];
    }
  }

  /** The stripped string as a slice of the original. */
  lemma StripIsPiece(s: string)
    ensures StripStart(s) + |Strip(s)| <= |s| && Strip(s) == s[StripStart(s)..StripStart(s) + |Strip(s)|]
  {
  }

  /** A string with no whitespace at either end is its own strip. */
  lemma StripOfTrimmed(s: string)
    requires s == [] || (!IsSpace(s[0]) && !IsSpace(s[|s| - 1]))
    ensures Strip(s) == s
  {
    assert RStrip(s) == s;
  }

  /** Stripping a trimmed string with one space appended gives the string
      back. */
  lemma StripDropsTrailingSpace(s: string)
    requires s == [] || (!IsSpace(s[0]) && !IsSpace(s[|s| - 1]))
    ensures Strip(s + [' ']) == s
  {
    assert (s + [' '])[..|s|] == s;
    assert RStrip(s + [' ']) == RStrip(s) == s;
  }

  lemma StripKeepsAbsent(s: string, c: char)
    requires c !in s
    ensures c !in Strip(s)
  {
    StripIsPiece(s);
    PieceKeepsAbsent(s, Strip(s), StripStart(s), c);
  }

  lemma PieceKeepsAbsent(s: string, t: string, i: nat, c: char)
    requires i + |t| <= |s| && t == s[i..i + |t|] && c !in s
    ensures c !in t
  {
    forall k | 0 <= k < |t|
      ensures t[k] != c
    {
      assert t[k] == s[i + k];
    }
  }

  /** Python's `needle in haystack` on strings. */
  predicate IsSubstring(needle: string, haystack: string)
    decreases |haystack|
  {
    needle <= haystack || (haystack != [] && IsSubstring(needle, haystack[1..]))
  }

  function Digit(d: nat): (c: char)
    requires d < 10
    ensures '0' <= c <= '9'
  {
    ('0' as int + d) as char
  }

  /** `str(n)` for a non-negative integer. */
  function Decimal(n: nat): (r: string)
    ensures |r| >= 1
    ensures forall k :: 0 <= k < |r| ==> '0' <= r[k] <= '9'
    ensures |r| == 1 <==> n < 10
  {
    if n < 10 then [Digit(n)] else Decimal(n / 10) + [Digit(n % 10)]
  }

  /** Different numbers print differently. */
  lemma {:induction false} DecimalInjective(a: nat, b: nat)
    requires Decimal(a) == Decimal(b)
    ensures a == b
  {
    if a >= 10 && b >= 10 {
      var da, db := Decimal(a), Decimal(b);
      assert da[..|da| - 1] == Decimal(a / 10);
      assert db[..|db| - 1] == Decimal(b / 10);
      DecimalInjective(a / 10, b / 10);
      assert Digit(a % 10) == da[|da| - 1] == db[|db| - 1] == Digit(b % 10);
    }
  }

  /** `s.replace(pat, rep)`: every non-overlapping occurrence of `pat`,
      scanning from the left, replaced by `rep`. */
  function ReplaceAll(s: string, pat: string, rep: string): string
    requires pat != []
    decreases |s|
  {
    if s == [] then []
    else if pat <= s then rep + ReplaceAll(s[|pat|..], pat, rep)
    else [s[0]] + ReplaceAll(s[1..], pat, rep)
  }

  /** Replacing a string by one with none of `c` leaves no `c` that `s` did
      not already have elsewhere: if neither `s` nor `rep` contains `c`,
      neither does the result; and an `pat` that is just `c` is gone. */
  /** Replacing a one-character pattern that does not occur changes
      nothing. */
  lemma {:induction false} ReplaceAllWithoutPattern(s: string, pat: string, rep: string)
    requires |pat| == 1 && pat[0] !in s
    ensures ReplaceAll(s, pat, rep) == s
    decreases |s|
  {
    if s != [] {
      assert s[0] != pat[0];
      ReplaceAllWithoutPattern(s[1..], pat, rep);
      assert s == [s[0]] + s[1..];
    }
  }

  lemma {:induction false} ReplaceAllRemoves(s: string, pat: string, rep: string, c: char)
    requires pat != [] && c !in rep
    requires pat == [c] || c !in s
    ensures c !in ReplaceAll(s, pat, rep)
  {
    if s != [] {
      if pat <= s {
        ReplaceAllRemoves(s[|pat|..], pat, rep, c);
      } else {
        assert s[0] != c by {
          if pat == [c] { assert [s[0]] == s[..1]; }
        }
        ReplaceAllRemoves(s[1..], pat, rep, c);
      }
    }
  }

  /** A string with no occurrence of the pattern's first character, followed
      by the pattern: only that final occurrence is replaced. */
  lemma {:induction false} ReplaceAllTail(s: string, pat: string, rep: string)
    requires pat != [] && pat[0] !in s
    ensures ReplaceAll(s + pat, pat, rep) == s + rep
    decreases |s|
  {
    if s == [] {
      assert s + pat == pat && s + rep == rep;
      ReplaceAllWhole(pat, rep);
    } else {
      ReplaceAllTail(s[1..], pat, rep);
      assert s + pat == [s[0]] + (s[1..] + pat);
      ReplaceAllKeepsHead(s[0], s[1..] + pat, pat, rep);
      assert s + rep == [s[0]] + (s[1..] + rep);
    }
  }

  lemma ReplaceAllWhole(pat: string, rep: string)
    requires pat != []
    ensures ReplaceAll(pat, pat, rep) == rep
  {
    assert pat[|pat|..] == [];
  }

  lemma ReplaceAllKeepsHead(c: char, s: string, pat: string, rep: string)
    requires pat != [] && c != pat[0]
    ensures ReplaceAll([c] + s, pat, rep) == [c] + ReplaceAll(s, pat, rep)
  {
    assert ([c] + s)[1..] == s;
  }
}
