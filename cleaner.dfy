/** The file-name normalisers: `FileNameCleaner.clean_prefix` / `clean`
    (shared verbatim by the two newer front ends), `is_chinese_filename`,
    and the older `clean_filename`. Each regular-expression substitution is
    a total function on strings. */
module Cleaner {
  import opened Wrappers
  import opened Seqs
  import opened Text

  /** `is_chinese_filename`: the name holds a CJK ideograph. */
  function IsChineseFilename(name: string): (r: bool)
    ensures r <==> exists k :: 0 <= k < |name| && IsCjk(name[k])
  {
    FirstIndex(name, IsCjk).Some?
  }

  /** The stripped prefix ends in a letter that stands alone or follows a
      non-letter (the `GBA` of `GBA-` does not, the `A` of `A ` does). */
  predicate EndsInLoneLetter(p: string) {
    p != [] && IsAlpha(p[|p| - 1]) && (|p| == 1 || !IsAlpha(p[|p| - 2]))
  }

  predicate HasLetter(p: string) {
    exists k :: 0 <= k < |p| && IsAlpha(p[k])
  }

  /** `clean_prefix`: drop what precedes the first CJK ideograph when that
      prefix, right-stripped, ends in a lone letter or holds no letter. */
  function CleanPrefix(name: string): (r: string)
    ensures |r| <= |name| && r == name[|name| - |r|..]
    ensures !IsChineseFilename(name) ==> r == name
    ensures r != name ==> r != [] && IsCjk(r[0]) && forall k :: 0 <= k < |name| - |r| ==> !IsCjk(name[k])
    ensures IsChineseFilename(r) == IsChineseFilename(name)
  {
    match FirstIndex(name, IsCjk)
    case None => name
    case Some(pos) =>
      var prefix := RStrip(name[..pos]);
      if EndsInLoneLetter(prefix) then name[pos..]
      else if !HasLetter(prefix) then name[pos..]
      else name
  }

  /** No whitespace character is a letter. */
  lemma SpaceIsNotLetter(c: char)
    requires IsSpace(c)
    ensures !IsAlpha(c)
  {
  }

  /** When the name holds a CJK ideograph at `pos` and none before, the
      prefix is dropped exactly when its stripped form ends in a lone letter
      or it holds no letter at all; otherwise the whole name is kept. */
  lemma {:induction false} CleanPrefixCases(name: string, pos: nat)
    requires pos < |name| && IsCjk(name[pos])
    requires forall k :: 0 <= k < pos ==> !IsCjk(name[k])
    ensures CleanPrefix(name) == name[pos..] || CleanPrefix(name) == name
    ensures CleanPrefix(name) == name[pos..] <==>
              EndsInLoneLetter(RStrip(name[..pos])) || !HasLetter(name[..pos])
  {
    FirstIndexIsOnlyCandidate(name, IsCjk, pos);
    var p := name[..pos];
    var q := RStrip(p);
    assert HasLetter(q) <==> HasLetter(p) by {
      if HasLetter(p) {
        var k :| 0 <= k < |p| && IsAlpha(p[k]);
        if k >= |q| {
          SpaceIsNotLetter(p[k]);
        }
        assert q[k] == p[k];
      }
    }
    if pos == 0 {
      assert name[pos..] == name;
    } else {
      assert |name[pos..]| < |name|;
    }
  }

  /** The openers and closers of `[\[\(].*?[\]\)]` in `clean`. */
  const Openers: set<char> := {'[', '('}
  const Closers: set<char> := {']', ')'}

  /** Where a lazy `.*?` followed by a closer stops: the offset in `t` of
      the first closer, provided no line break comes before it (`.` does
      not match `\n`). */
  function CloserOffset(t: string, close: set<char>): (r: Option<nat>)
    ensures r.Some? ==> r.value < |t| && t[r.value] in close
    ensures r.Some? ==> forall k :: 0 <= k < r.value ==> t[k] !in close
    ensures r.None? && (forall k :: 0 <= k < |t| ==> t[k] != '\n') ==>
              forall k :: 0 <= k < |t| ==> t[k] !in close
  {
    if t == [] then None
    else if t[0] in close then Some(0)
    else if t[0] == '\n' then None
    else match CloserOffset(t[1..], close)
      case None => None
      case Some(q) => Some(q + 1)
  }

  /** `re.sub('[open].*?[close]', '', s)`: scanning from the left, every
      opener that has a closer later on its line is deleted together with
      everything up to and including the nearest such closer; an opener
      without one is kept and the scan goes on after it. */
  function RemoveSpans(s: string, open: set<char>, close: set<char>): (r: string)
    ensures |r| <= |s|
    ensures forall k :: 0 <= k < |r| ==> r[k] in s
    decreases |s|
  {
    if s == [] then []
    else if s[0] in open then
      match CloserOffset(s[1..], close)
      case Some(q) => RemoveSpans(s[q + 2..], open, close)
      case None => [s[0]] + RemoveSpans(s[1..], open, close)
    else [s[0]] + RemoveSpans(s[1..], open, close)
  }

  /** The lazy `.*?` runs over a stretch with no closer and no line break
      and stops at the closer that ends it. */
  lemma {:induction false} CloserOffsetAfterPlain(m: string, c: char, q: string, close: set<char>)
    requires c in close
    requires forall k :: 0 <= k < |m| ==> m[k] !in close && m[k] != '\n'
    ensures CloserOffset(m + [c] + q, close) == Some(|m|)
    decreases |m|
  {
    if m != [] {
      assert (m + [c] + q)[1..] == m[1..] + [c] + q;
      CloserOffsetAfterPlain(m[1..], c, q, close);
    }
  }

  /** A span `o m c` opening at the front, whose middle holds no closer
      and no line break, is deleted as a whole. */
  lemma RemoveSpansDropsSpan(o: char, m: string, c: char, q: string, open: set<char>, close: set<char>)
    requires o in open && c in close
    requires forall k :: 0 <= k < |m| ==> m[k] !in close && m[k] != '\n'
    ensures RemoveSpans([o] + m + [c] + q, open, close) == RemoveSpans(q, open, close)
  {
    var s := [o] + m + [c] + q;
    assert s[1..] == m + [c] + q;
    CloserOffsetAfterPlain(m, c, q, close);
    assert s[|m| + 2..] == q;
  }

  /** A character that is not an opener is copied. */
  lemma RemoveSpansCons(c: char, t: string, open: set<char>, close: set<char>)
    requires c !in open
    ensures RemoveSpans([c] + t, open, close) == [c] + RemoveSpans(t, open, close)
  {
    assert ([c] + t)[1..] == t;
  }

  /** Text before the first opener survives unchanged. */
  lemma {:induction false} RemoveSpansCopiesPlainPrefix(p: string, q: string, open: set<char>, close: set<char>)
    requires forall i :: 0 <= i < |p| ==> p[i] !in open
    ensures RemoveSpans(p + q, open, close) == p + RemoveSpans(q, open, close)
    decreases |p|
  {
    if p == [] {
      assert p + q == q;
    } else {
      var t := p[1..];
      assert p + q == [p[0]] + (t + q);
      RemoveSpansCons(p[0], t + q, open, close);
      RemoveSpansCopiesPlainPrefix(t, q, open, close);
      ConsCat(p[0], t, RemoveSpans(q, open, close), p);
    }
  }

  /** A name without an opener is left as it is. */
  lemma RemoveSpansWithoutOpener(s: string, open: set<char>, close: set<char>)
    requires forall i :: 0 <= i < |s| ==> s[i] !in open
    ensures RemoveSpans(s, open, close) == s
  {
    RemoveSpansCopiesPlainPrefix(s, [], open, close);
    assert s + [] == s;
  }

  /** Deleting spans adds no character. */
  lemma RemoveSpansKeepsAbsent(s: string, open: set<char>, close: set<char>, c: char)
    requires c !in s
    ensures c !in RemoveSpans(s, open, close)
  {
    var r := RemoveSpans(s, open, close);
    forall k | 0 <= k < |r|
      ensures r[k] != c
    {
      assert r[k] in s;
    }
  }

  /** No opener in `s` is followed, anywhere later, by a closer. */
  predicate NoBracketPair(s: string, open: set<char>, close: set<char>) {
    forall i, j :: 0 <= i < j < |s| && s[i] in open ==> s[j] !in close
  }

  lemma NoPairCons(c: char, t: string, open: set<char>, close: set<char>)
    requires NoBracketPair(t, open, close)
    requires c in open ==> forall k :: 0 <= k < |t| ==> t[k] !in close
    ensures NoBracketPair([c] + t, open, close)
  {
    var s := [c] + t;
    forall i, j | 0 <= i < j < |s| && s[i] in open
      ensures s[j] !in close
    {
      assert s[j] == t[j - 1];
      if i > 0 {
        assert s[i] == t[i - 1];
      }
    }
  }

  lemma NoPairSnoc(t: string, c: char, open: set<char>, close: set<char>)
    requires NoBracketPair(t, open, close)
    requires c in close ==> forall k :: 0 <= k < |t| ==> t[k] !in open
    ensures NoBracketPair(t + [c], open, close)
  {
    var s := t + [c];
    forall i, j | 0 <= i < j < |s| && s[i] in open
      ensures s[j] !in close
    {
      assert s[i] == t[i];
      if j < |t| {
        assert s[j] == t[j];
      }
    }
  }

  /** On a single line, deleting the bracketed spans leaves no opener with
      a closer after it. */
  lemma {:induction false} RemoveSpansLeavesNoPair(s: string, open: set<char>, close: set<char>)
    requires forall k :: 0 <= k < |s| ==> s[k] != '\n'
    ensures NoBracketPair(RemoveSpans(s, open, close), open, close)
    decreases |s|
  {
    if s != [] {
      var t := s[1..];
      assert forall k :: 0 <= k < |t| ==> t[k] == s[k + 1];
      if s[0] in open && CloserOffset(t, close).Some? {
        var u := s[CloserOffset(t, close).value + 2..];
        assert forall k :: 0 <= k < |u| ==> u[k] in s;
        RemoveSpansLeavesNoPair(u, open, close);
      } else {
        RemoveSpansLeavesNoPair(t, open, close);
        KeptHeadLeavesNoPair(s, open, close);
      }
    }
  }

  /** The step of the above where the first character is kept: it is not
      an opener, or no closer follows it on the line. */
  lemma KeptHeadLeavesNoPair(s: string, open: set<char>, close: set<char>)
    requires s != [] && forall k :: 0 <= k < |s| ==> s[k] != '\n'
    requires !(s[0] in open && CloserOffset(s[1..], close).Some?)
    requires NoBracketPair(RemoveSpans(s[1..], open, close), open, close)
    ensures NoBracketPair(RemoveSpans(s, open, close), open, close)
  {
    var t := s[1..];
    var r := RemoveSpans(t, open, close);
    if s[0] in open {
      assert forall k :: 0 <= k < |t| ==> t[k] == s[k + 1];
      forall k | 0 <= k < |r|
        ensures r[k] !in close
      {
        assert r[k] in t;
      }
    }
    NoPairCons(s[0], r, open, close);
    assert RemoveSpans(s, open, close) == [s[0]] + r;
  }

  /** Deleting characters keeps the order of the rest, so it cannot create
      an opener-closer pair. */
  lemma {:induction false} FilterKeepsNoPair(s: string, p: char -> bool, open: set<char>, close: set<char>)
    requires NoBracketPair(s, open, close)
    ensures NoBracketPair(Filter(s, p), open, close)
  {
    if s != [] {
      var s' := s[..|s| - 1];
      var c := s[|s| - 1];
      assert NoBracketPair(s', open, close) by {
        forall i, j | 0 <= i < j < |s'| && s'[i] in open
          ensures s'[j] !in close
        {
          assert s[i] == s'[i] && s[j] == s'[j];
        }
      }
      FilterKeepsNoPair(s', p, open, close);
      if p(c) {
        var f' := Filter(s', p);
        forall k | 0 <= k < |f'| && c in close
          ensures f'[k] !in open
        {
          var i :| 0 <= i < |s'| && s'[i] == f'[k];
          assert s[i] == f'[k];
        }
        NoPairSnoc(f', c, open, close);
      }
    }
  }

  /** A contiguous piece of a string without a pair has none either. */
  lemma SliceKeepsNoPair(s: string, i: nat, j: nat, open: set<char>, close: set<char>)
    requires i <= j <= |s|
    requires NoBracketPair(s, open, close)
    ensures NoBracketPair(s[i..j], open, close)
  {
    var t := s[i..j];
    forall a, b | 0 <= a < b < |t| && t[a] in open
      ensures t[b] !in close
    {
      assert t[a] == s[i + a] && t[b] == s[i + b];
    }
  }

  lemma PieceKeepsNoPair(s: string, t: string, i: nat, open: set<char>, close: set<char>)
    requires i + |t| <= |s| && t == s[i..i + |t|]
    requires NoBracketPair(s, open, close)
    ensures NoBracketPair(t, open, close)
  {
    SliceKeepsNoPair(s, i, i + |t|, open, close);
  }

  /** The characters of `re.sub('[_\-\+]+', ..., name)`. */
  predicate IsSeparator(c: char) {
    c == '_' || c == '-' || c == '+'
  }

  function NotSeparator(c: char): bool { !IsSeparator(c) }

  function NotSpace(c: char): bool { !IsSpace(c) }

  /** `re.sub('Advance', 'A', s, flags=re.IGNORECASE)`: every occurrence of
      the word in any letter case, scanning from the left without overlap,
      becomes `A`. */
  function Abbreviate(s: string): (r: string)
    ensures |r| <= |s|
    ensures forall k :: 0 <= k < |r| ==> r[k] in s || r[k] == 'A'
    decreases |s|
  {
    if |s| >= 7 && Lower(s[..7]) == "advance" then "A" + Abbreviate(s[7..])
    else if s == [] then []
    else [s[0]] + Abbreviate(s[1..])
  }

  /** The word `Advance`, in any letter case, starts at index `i` of `s`. */
  predicate AdvanceAt(s: string, i: nat) {
    i + 7 <= |s| && Lower(s[i..i + 7]) == "advance"
  }

  /** A character at which no occurrence of the word starts is copied. */
  lemma AbbreviateCons(c: char, t: string)
    requires !AdvanceAt([c] + t, 0)
    ensures Abbreviate([c] + t) == [c] + Abbreviate(t)
  {
    var s := [c] + t;
    if |s| >= 7 {
      assert s[0..7] == s[..7];
    }
    assert s[1..] == t;
  }

  /** An occurrence one place further into `[c] + u` is one in `u`. */
  lemma AdvanceAtShift(c: char, u: string, i: nat)
    ensures AdvanceAt([c] + u, i + 1) == AdvanceAt(u, i)
  {
    if i + 7 <= |u| {
      assert ([c] + u)[i + 1..i + 8] == u[i..i + 7];
    }
  }

  /** Characters at which no occurrence of the word starts are copied
      unchanged. */
  lemma {:induction false} AbbreviateCopiesPlainPrefix(p: string, q: string)
    requires forall i :: 0 <= i < |p| ==> !AdvanceAt(p + q, i)
    ensures Abbreviate(p + q) == p + Abbreviate(q)
    decreases |p|
  {
    if p == [] {
      assert p + q == q;
    } else {
      var t := p[1..];
      assert p + q == [p[0]] + (t + q);
      AbbreviateCons(p[0], t + q);
      forall i | 0 <= i < |t|
        ensures !AdvanceAt(t + q, i)
      {
        AdvanceAtShift(p[0], t + q, i);
      }
      AbbreviateCopiesPlainPrefix(t, q);
      ConsCat(p[0], t, Abbreviate(q), p);
    }
  }

  /** Putting one character in front of a concatenation. */
  lemma ConsCat(c: char, t: string, r: string, p: string)
    requires p == [c] + t
    ensures [c] + (t + r) == p + r
  {
  }

  /** A string in which the word never occurs is left as it is. */
  lemma AbbreviateWithoutAdvanceIsIdentity(s: string)
    requires forall i :: 0 <= i < |s| ==> !AdvanceAt(s, i)
    ensures Abbreviate(s) == s
  {
    assert s + [] == s;
    AbbreviateCopiesPlainPrefix(s, []);
  }

  /** An occurrence of the word, in any letter case, becomes `A`, and the
      rest of the string is abbreviated after it. */
  lemma AbbreviateReplacesAdvance(p: string, q: string)
    requires |p| == 7 && Lower(p) == "advance"
    ensures Abbreviate(p + q) == "A" + Abbreviate(q)
  {
    assert (p + q)[..7] == p;
    assert (p + q)[7..] == q;
  }

  /** `AdvanceWars`, the squeezed title of a Game Boy Advance game,
      becomes `AWars`. */
  lemma AbbreviateAdvanceWars(title: string)
    requires title == "AdvanceWars"
    ensures Abbreviate(title) == "AWars"
  {
    var p, q := title[..7], title[7..];
    AdvanceWarsSplits(title);
    LowerOfAdvance(p);
    assert p + q == title;
    AbbreviateReplacesAdvance(p, q);
    AbbreviateWithoutAdvanceIsIdentity(q);
  }

  lemma AdvanceWarsSplits(title: string)
    requires title == "AdvanceWars"
    ensures title[..7] == "Advance" && title[7..] == "Wars"
  {
  }

  lemma LowerOfAdvance(p: string)
    requires p == "Advance"
    ensures Lower(p) == "advance"
  {
    assert Lower(p)[0] == LowerChar('A');
  }

  lemma {:induction false} AbbreviateKeepsNoPair(s: string, open: set<char>, close: set<char>)
    requires 'A' !in open && 'A' !in close
    requires NoBracketPair(s, open, close)
    ensures NoBracketPair(Abbreviate(s), open, close)
    decreases |s|
  {
    if |s| >= 7 && Lower(s[..7]) == "advance" {
      SliceKeepsNoPair(s, 7, |s|, open, close);
      AbbreviateKeepsNoPair(s[7..], open, close);
      NoPairCons('A', Abbreviate(s[7..]), open, close);
    } else if s != [] {
      var t := s[1..];
      SliceKeepsNoPair(s, 1, |s|, open, close);
      AbbreviateKeepsNoPair(t, open, close);
      var r := Abbreviate(t);
      forall k | 0 <= k < |r| && s[0] in open
        ensures r[k] !in close
      {
        if r[k] != 'A' {
          var i :| 0 <= i < |t| && t[i] == r[k];
          assert s[i + 1] == t[i];
        }
      }
      NoPairCons(s[0], r, open, close);
    }
  }

  /** Neither whitespace nor a separator anywhere in `s`. */
  predicate Squeezed(s: string) {
    forall k :: 0 <= k < |s| ==> !IsSpace(s[k]) && !IsSeparator(s[k])
  }

  /** The two deletions `re.sub('[_\-\+]+', '', s)` and `re.sub('\s+', '', s)`. */
  function Squeeze(s: string): (r: string)
    ensures Squeezed(r)
    ensures forall x :: !IsSpace(x) && !IsSeparator(x) ==> Count(r, x) == Count(s, x)
    ensures Squeezed(s) ==> r == s
  {
    var c := Filter(s, NotSeparator);
    var d := Filter(c, NotSpace);
    assert forall x :: !IsSpace(x) && !IsSeparator(x) ==> Count(d, x) == Count(s, x) by {
      forall x | !IsSpace(x) && !IsSeparator(x)
        ensures Count(d, x) == Count(s, x)
      {
        FilterKeepsCount(s, NotSeparator, x);
        FilterKeepsCount(c, NotSpace, x);
      }
    }
    assert Squeezed(s) ==> d == s by {
      if Squeezed(s) {
        FilterAllPass(s, NotSeparator);
        FilterAllPass(s, NotSpace);
      }
    }
    assert Squeezed(d) by {
      forall k | 0 <= k < |d|
        ensures !IsSpace(d[k]) && !IsSeparator(d[k])
      {
        assert NotSpace(d[k]);
        var j :| 0 <= j < |c| && c[j] == d[k];
        assert NotSeparator(c[j]);
      }
    }
    d
  }

  /** The deletions keep the order of what is left: squeezing a
      concatenation squeezes each part. */
  lemma SqueezeConcat(a: string, b: string)
    ensures Squeeze(a + b) == Squeeze(a) + Squeeze(b)
  {
    FilterConcat(a, b, NotSeparator);
    FilterConcat(Filter(a, NotSeparator), Filter(b, NotSeparator), NotSpace);
  }

  /** A strip of a squeezed string, and an abbreviation of it, stay
      squeezed. */
  lemma StripAbbreviateKeepSqueezed(d: string)
    requires Squeezed(d)
    ensures Squeezed(Abbreviate(Strip(d)))
  {
    StripKeepsSqueezed(d);
    AbbreviateKeepsSqueezed(Strip(d));
  }

  lemma StripKeepsSqueezed(d: string)
    requires Squeezed(d)
    ensures Squeezed(Strip(d))
  {
    StripIsPiece(d);
    PieceKeepsSqueezed(d, Strip(d), StripStart(d));
  }

  lemma PieceKeepsSqueezed(d: string, e: string, i: nat)
    requires i + |e| <= |d| && e == d[i..i + |e|] && Squeezed(d)
    ensures Squeezed(e)
  {
    forall k | 0 <= k < |e|
      ensures !IsSpace(e[k]) && !IsSeparator(e[k])
    {
      assert e[k] == d[i + k];
    }
  }

  lemma AbbreviateKeepsSqueezed(e: string)
    requires Squeezed(e)
    ensures Squeezed(Abbreviate(e))
  {
    var r := Abbreviate(e);
    forall k | 0 <= k < |r|
      ensures !IsSpace(r[k]) && !IsSeparator(r[k])
    {
      if r[k] != 'A' {
        var j :| 0 <= j < |e| && e[j] == r[k];
      }
    }
  }

  /** `FileNameCleaner.clean`: the prefix rule, then deletion of bracketed
      spans, of separators and of all whitespace, a strip, and `Advance`
      abbreviated to `A`. The result holds neither whitespace nor a
      separator. */
  function Clean(name: string): (r: string)
    ensures Squeezed(r)
  {
    var d := Squeeze(RemoveSpans(CleanPrefix(name), Openers, Closers));
    StripAbbreviateKeepSqueezed(d);
    Abbreviate(Strip(d))
  }

  /** On a single line, `clean` leaves no opener followed later by a
      closer, whatever the bracket kinds. */
  lemma CleanLeavesNoBracketPair(name: string)
    requires forall k :: 0 <= k < |name| ==> name[k] != '\n'
    ensures NoBracketPair(Clean(name), Openers, Closers)
  {
    CleanPrefixKeepsOneLine(name);
    SpansThenSqueezeLeaveNoPair(CleanPrefix(name));
    StripAbbreviateKeepNoPair(Squeeze(RemoveSpans(CleanPrefix(name), Openers, Closers)), Openers, Closers);
  }

  lemma SpansThenSqueezeLeaveNoPair(a: string)
    requires forall k :: 0 <= k < |a| ==> a[k] != '\n'
    ensures NoBracketPair(Squeeze(RemoveSpans(a, Openers, Closers)), Openers, Closers)
  {
    RemoveSpansLeavesNoPair(a, Openers, Closers);
    SqueezeKeepsNoPair(RemoveSpans(a, Openers, Closers));
  }

  lemma StripAbbreviateKeepNoPair(d: string, open: set<char>, close: set<char>)
    requires 'A' !in open && 'A' !in close
    requires NoBracketPair(d, open, close)
    ensures NoBracketPair(Abbreviate(Strip(d)), open, close)
  {
    StripKeepsNoPair(d, open, close);
    AbbreviateKeepsNoPair(Strip(d), open, close);
  }

  lemma CleanPrefixKeepsOneLine(name: string)
    requires forall k :: 0 <= k < |name| ==> name[k] != '\n'
    ensures forall k :: 0 <= k < |CleanPrefix(name)| ==> CleanPrefix(name)[k] != '\n'
  {
    var a := CleanPrefix(name);
    forall k | 0 <= k < |a|
      ensures a[k] != '\n'
    {
      assert a[k] == name[|name| - |a| + k];
    }
  }

  lemma SqueezeKeepsNoPair(b: string)
    requires NoBracketPair(b, Openers, Closers)
    ensures NoBracketPair(Squeeze(b), Openers, Closers)
  {
    FilterKeepsNoPair(b, NotSeparator, Openers, Closers);
    FilterKeepsNoPair(Filter(b, NotSeparator), NotSpace, Openers, Closers);
  }

  lemma StripKeepsNoPair(d: string, open: set<char>, close: set<char>)
    requires NoBracketPair(d, open, close)
    ensures NoBracketPair(Strip(d), open, close)
  {
    StripIsPiece(d);
    PieceKeepsNoPair(d, Strip(d), StripStart(d), open, close);
  }

  /** `s` after its leading run of `p` characters. */
  function SkipRun(s: string, p: char -> bool): (r: string)
    ensures |r| <= |s| && forall k :: 0 <= k < |r| ==> r[k] in s
    ensures r == [] || !p(r[0])
    ensures s != [] && p(s[0]) ==> |r| < |s|
  {
    if s != [] && p(s[0]) then SkipRun(s[1..], p) else s
  }

  /** `re.sub('[p]+', ' ', s)`: every maximal run of `p` characters becomes
      one space. */
  function CollapseRuns(s: string, p: char -> bool): (r: string)
    ensures forall k :: 0 <= k < |r| ==> r[k] == ' ' || (r[k] in s && !p(r[k]))
    ensures s != [] && !p(s[0]) ==> r != [] && r[0] == s[0]
    decreases |s|
  {
    if s == [] then []
    else if p(s[0]) then [' '] + CollapseRuns(SkipRun(s, p), p)
    else [s[0]] + CollapseRuns(s[1..], p)
  }

  /** When the space itself is a `p` character, collapsing leaves no two
      adjacent `p` characters. */
  lemma {:induction false} CollapseRunsLeavesNoAdjacent(s: string, p: char -> bool)
    requires p(' ')
    ensures forall k :: 0 <= k < |CollapseRuns(s, p)| - 1 ==>
              !(p(CollapseRuns(s, p)[k]) && p(CollapseRuns(s, p)[k + 1]))
    decreases |s|
  {
    if s != [] {
      var rest := if p(s[0]) then SkipRun(s, p) else s[1..];
      CollapseRunsLeavesNoAdjacent(rest, p);
    }
  }

  /** Collapsing keeps a string whose `p` characters are single spaces,
      never two adjacent: each run is already one space. */
  lemma {:induction false} CollapseRunsKeepsSingleSpaces(s: string, p: char -> bool)
    requires forall k :: 0 <= k < |s| && p(s[k]) ==> s[k] == ' '
    requires forall k :: 0 <= k < |s| - 1 ==> !(p(s[k]) && p(s[k + 1]))
    ensures CollapseRuns(s, p) == s
    decreases |s|
  {
    if s != [] {
      var t := s[1..];
      assert forall k :: 0 <= k < |t| ==> t[k] == s[k + 1];
      CollapseRunsKeepsSingleSpaces(t, p);
      if p(s[0]) {
        if t != [] {
          assert !p(t[0]);
        }
        assert SkipRun(s, p) == SkipRun(t, p) == t;
      }
      assert s == [s[0]] + t;
    }
  }

  /** A name without a `p` character is left as it is. */
  lemma CollapseRunsWithoutRun(s: string, p: char -> bool)
    requires forall k :: 0 <= k < |s| ==> !p(s[k])
    ensures CollapseRuns(s, p) == s
  {
    CollapseRunsKeepsSingleSpaces(s, p);
  }

  predicate NoSeparator(s: string) {
    forall k :: 0 <= k < |s| ==> !IsSeparator(s[k])
  }

  /** Never two whitespace characters in a row. */
  predicate NoDoubleSpace(s: string) {
    forall k :: 0 <= k < |s| - 1 ==> !(IsSpace(s[k]) && IsSpace(s[k + 1]))
  }

  /** Collapsing separator runs and then whitespace runs leaves neither a
      separator nor two adjacent whitespace characters. */
  lemma CollapseBothLeavesSingleSpaces(b: string)
    ensures NoSeparator(CollapseRuns(CollapseRuns(b, IsSeparator), IsSpace))
    ensures NoDoubleSpace(CollapseRuns(CollapseRuns(b, IsSeparator), IsSpace))
  {
    var c := CollapseRuns(b, IsSeparator);
    var d := CollapseRuns(c, IsSpace);
    CollapseRunsLeavesNoAdjacent(c, IsSpace);
    forall k | 0 <= k < |d|
      ensures !IsSeparator(d[k])
    {
      if d[k] != ' ' {
        var j :| 0 <= j < |c| && c[j] == d[k];
      }
    }
  }

  lemma StripKeepsSingleSpaces(d: string)
    requires NoSeparator(d) && NoDoubleSpace(d)
    ensures NoSeparator(Strip(d)) && NoDoubleSpace(Strip(d))
  {
    StripIsPiece(d);
    PieceKeepsSingleSpaces(d, Strip(d), StripStart(d));
  }

  lemma PieceKeepsSingleSpaces(d: string, r: string, i: nat)
    requires i + |r| <= |d| && r == d[i..i + |r|]
    requires NoSeparator(d) && NoDoubleSpace(d)
    ensures NoSeparator(r) && NoDoubleSpace(r)
  {
    assert forall k :: 0 <= k < |r| ==> r[k] == d[i + k];
  }

  /** `clean_filename`: `[...]` spans, then `(...)` spans removed, runs of
      separators and then runs of whitespace turned into one space, and the
      result stripped. The result holds no separator, has no whitespace at
      either end and never two whitespace characters in a row. */
  function CleanFilename(name: string): (r: string)
    ensures NoSeparator(r)
    ensures r == [] || (!IsSpace(r[0]) && !IsSpace(r[|r| - 1]))
    ensures NoDoubleSpace(r)
  {
    var b := RemoveSpans(RemoveSpans(name, {'['}, {']'}), {'('}, {')'});
    CollapseBothLeavesSingleSpaces(b);
    StripKeepsSingleSpaces(CollapseRuns(CollapseRuns(b, IsSeparator), IsSpace));
    Strip(CollapseRuns(CollapseRuns(b, IsSeparator), IsSpace))
  }

  /** A name that starts with a CJK ideograph keeps its whole prefix. */
  lemma CleanPrefixOfCjkStart(name: string)
    requires name != [] && IsCjk(name[0])
    ensures CleanPrefix(name) == name
  {
    FirstIndexIsOnlyCandidate(name, IsCjk, 0);
    assert RStrip(name[..0]) == [];
    assert name[0..] == name;
  }

  /** A title with no whitespace, separator, opener or `Advance` in it. */
  predicate PlainTitle(t: string) {
    && Squeezed(t)
    && (forall k :: 0 <= k < |t| ==> t[k] !in Openers)
    && (forall i :: 0 <= i < |t| ==> !AdvanceAt(t, i))
  }

  /** The steps of `clean` after the span deletion leave a plain title as
      it is. */
  lemma CleanTailKeepsPlainTitle(t: string)
    requires PlainTitle(t)
    ensures Abbreviate(Strip(Squeeze(t))) == t
  {
    StripOfTrimmed(t);
    AbbreviateWithoutAdvanceIsIdentity(t);
  }

  /** `clean` leaves a plain title alone when its prefix rule keeps it
      too: it has no CJK ideograph, or begins with one. */
  lemma CleanKeepsPlainTitle(t: string)
    requires PlainTitle(t)
    requires t == [] || IsCjk(t[0]) || !IsChineseFilename(t)
    ensures Clean(t) == t
  {
    if t != [] && IsCjk(t[0]) {
      CleanPrefixOfCjkStart(t);
    }
    RemoveSpansWithoutOpener(t, Openers, Closers);
    CleanTailKeepsPlainTitle(t);
  }

  /** `clean` drops a trailing bracketed tag, as in `超级马里奥(中文版)`,
      and keeps the title before it. */
  lemma CleanDropsTrailingTag(t: string, o: char, m: string, c: char)
    requires PlainTitle(t) && t != [] && IsCjk(t[0])
    requires o in Openers && c in Closers
    requires forall k :: 0 <= k < |m| ==> m[k] !in Closers && m[k] != '\n'
    ensures Clean(t + ([o] + m + [c])) == t
  {
    var name := t + ([o] + m + [c]);
    assert name[0] == t[0];
    CleanPrefixOfCjkStart(name);
    RemoveSpansCopiesPlainPrefix(t, [o] + m + [c], Openers, Closers);
    assert [o] + m + [c] == [o] + m + [c] + [];
    RemoveSpansDropsSpan(o, m, c, [], Openers, Closers);
    assert t + [] == t;
    CleanTailKeepsPlainTitle(t);
  }

  /** A name `clean_filename` has nothing to do to: no bracket, no
      separator, whitespace only as single inner spaces. */
  predicate CleanFileName(n: string) {
    && (forall k :: 0 <= k < |n| ==> n[k] != '[' && n[k] != '(')
    && NoSeparator(n)
    && (forall k :: 0 <= k < |n| && IsSpace(n[k]) ==> n[k] == ' ')
    && NoDoubleSpace(n)
    && (n == [] || (!IsSpace(n[0]) && !IsSpace(n[|n| - 1])))
  }

  /** `clean_filename` leaves an already clean name as it is. */
  lemma CleanFilenameKeepsCleanName(n: string)
    requires CleanFileName(n)
    ensures CleanFilename(n) == n
  {
    RemoveSpansWithoutOpener(n, {'['}, {']'});
    RemoveSpansWithoutOpener(n, {'('}, {')'});
    CollapseRunsWithoutRun(n, IsSeparator);
    CollapseRunsKeepsSingleSpaces(n, IsSpace);
    StripOfTrimmed(n);
  }

  /** The two span deletions of `clean_filename` remove a parenthesised
      tag after a space, leaving the space. */
  lemma RegionTagSpans(n: string, m: string)
    requires forall k :: 0 <= k < |n| ==> n[k] != '[' && n[k] != '('
    requires forall k :: 0 <= k < |m| ==> m[k] != '[' && m[k] != ')' && m[k] != '\n'
    ensures RemoveSpans(RemoveSpans(n + [' ', '('] + m + [')'], {'['}, {']'}), {'('}, {')'}) == n + [' ']
  {
    RegionTagHasNoSquare(n, m);
    RegionTagParens(n, m);
  }

  lemma RegionTagHasNoSquare(n: string, m: string)
    requires forall k :: 0 <= k < |n| ==> n[k] != '['
    requires forall k :: 0 <= k < |m| ==> m[k] != '['
    ensures RemoveSpans(n + [' ', '('] + m + [')'], {'['}, {']'}) == n + [' ', '('] + m + [')']
  {
    RegionTagSquareFree(n, m);
    RemoveSpansWithoutOpener(n + [' ', '('] + m + [')'], {'['}, {']'});
  }

  lemma RegionTagSquareFree(n: string, m: string)
    requires forall k :: 0 <= k < |n| ==> n[k] != '['
    requires forall k :: 0 <= k < |m| ==> m[k] != '['
    ensures var name := n + [' ', '('] + m + [')'];
      forall k :: 0 <= k < |name| ==> name[k] !in {'['}
  {
    var name := n + [' ', '('] + m + [')'];
    forall k | 0 <= k < |name|
      ensures name[k] !in {'['}
    {
      if k >= |n| + 2 && k < |n| + 2 + |m| {
        assert name[k] == m[k - |n| - 2];
      }
    }
  }

  lemma RegionTagParens(n: string, m: string)
    requires forall k :: 0 <= k < |n| ==> n[k] != '('
    requires forall k :: 0 <= k < |m| ==> m[k] != ')' && m[k] != '\n'
    ensures RemoveSpans(n + [' ', '('] + m + [')'], {'('}, {')'}) == n + [' ']
  {
    RegionTagSplits(n, m);
    SpaceThenParenTag(n, m, n + [' ', '('] + m + [')']);
  }

  lemma RegionTagSplits(n: string, m: string)
    ensures n + [' ', '('] + m + [')'] == (n + [' ']) + (['('] + m + [')'])
  {
  }

  lemma SpaceThenParenTag(n: string, m: string, name: string)
    requires forall k :: 0 <= k < |n| ==> n[k] != '('
    requires forall k :: 0 <= k < |m| ==> m[k] != ')' && m[k] != '\n'
    requires name == (n + [' ']) + (['('] + m + [')'])
    ensures RemoveSpans(name, {'('}, {')'}) == n + [' ']
  {
    ParenTagVanishes(m);
    PlainThenVanishing(n + [' '], ['('] + m + [')'], {'('}, {')'});
  }

  /** A plain prefix followed by a part that vanishes is all that remains. */
  lemma PlainThenVanishing(b: string, tag: string, open: set<char>, close: set<char>)
    requires forall k :: 0 <= k < |b| ==> b[k] !in open
    requires RemoveSpans(tag, open, close) == []
    ensures RemoveSpans(b + tag, open, close) == b
  {
    RemoveSpansCopiesPlainPrefix(b, tag, open, close);
    assert b + [] == b;
  }

  lemma ParenTagVanishes(m: string)
    requires forall k :: 0 <= k < |m| ==> m[k] != ')' && m[k] != '\n'
    ensures RemoveSpans(['('] + m + [')'], {'('}, {')'}) == []
  {
    assert ['('] + m + [')'] == ['('] + m + [')'] + [];
    RemoveSpansDropsSpan('(', m, ')', [], {'('}, {')'});
  }

  /** `clean_filename` drops a region tag after a space, as in
      `Super Mario (USA)`, and keeps the name before it. */
  lemma CleanFilenameDropsRegionTag(n: string, m: string)
    requires CleanFileName(n) && n != []
    requires forall k :: 0 <= k < |m| ==> m[k] != '[' && m[k] != ')' && m[k] != '\n'
    ensures CleanFilename(n + [' ', '('] + m + [')']) == n
  {
    RegionTagSpans(n, m);
    TrailingSpaceSettles(n);
  }

  /** The collapsing and the strip turn a clean name with a space appended
      back into the name. */
  lemma TrailingSpaceSettles(n: string)
    requires CleanFileName(n) && n != []
    ensures Strip(CollapseRuns(CollapseRuns(n + [' '], IsSeparator), IsSpace)) == n
  {
    var b := n + [' '];
    CollapseRunsWithoutRun(b, IsSeparator);
    CollapseRunsKeepsSingleSpaces(b, IsSpace);
    StripDropsTrailingSpace(n);
  }

  /** The name `GBA-冒险岛` keeps its `GBA-` prefix: the prefix does not
      end in a lone letter (`A` follows `B`) and it holds letters. */
  lemma CleanPrefixKeepsWordPrefix()
    ensures CleanPrefix("GBA-冒险岛") == "GBA-冒险岛"
  {
    var n := "GBA-冒险岛";
    assert n[..4] == "GBA-";
    assert IsCjk(n[4]);
    CleanPrefixCases(n, 4);
    WordPrefixIsKept();
    assert |n[4..]| < |n|;
  }

  lemma WordPrefixIsKept()
    ensures !EndsInLoneLetter(RStrip("GBA-")) && HasLetter("GBA-")
  {
    assert RStrip("GBA-") == "GBA-";
    assert IsAlpha("GBA-"[0]);
  }

  /** A lone letter before the title, as in `A 超级马里奥`, is dropped
      together with the space. */
  lemma CleanPrefixDropsLoneLetter()
    ensures CleanPrefix("A 超级马里奥") == "超级马里奥"
  {
    var n := "A 超级马里奥";
    assert n[..2] == "A ";
    assert IsCjk(n[2]);
    CleanPrefixCases(n, 2);
    LonePrefixIsDropped();
    assert n[2..] == "超级马里奥";
  }

  lemma LonePrefixIsDropped()
    ensures EndsInLoneLetter(RStrip("A "))
  {
    assert RStrip("A ") == "A" by {
      assert "A "[..1] == "A";
    }
  }
}
