/** The per-cell text operations of the purchase-order reader, one function
    per regular expression or string method that app/atc_po_reader.py
    applies to a cell. Each works on one `string`; the column-level
    machinery that applies them lives in module Frames. */
module Text {
  import opened Wrappers

  // ---------------------------------------------------------------------
  // Character classes
  // ---------------------------------------------------------------------

  /** Python's whitespace set (`str.isspace`), which is what `\s`, `\S`,
      `str.split()` and `str.strip()` all use. */
  predicate IsSpace(c: char) {
    || c == ' '
    || ('\t' <= c <= '\r')
    || ('\U{1c}' <= c <= '\U{1f}')
    || c == '\U{85}' || c == '\U{a0}' || c == '\U{1680}'
    || ('\U{2000}' <= c <= '\U{200a}')
    || c == '\U{2028}' || c == '\U{2029}' || c == '\U{202f}'
    || c == '\U{205f}' || c == '\U{3000}'
  }

  /** A word character for `\b`: letters, digits and underscore (ASCII). */
  predicate IsWordChar(c: char) {
    ('a' <= c <= 'z') || ('A' <= c <= 'Z') || ('0' <= c <= '9') || c == '_'
  }

  /** A decimal digit for `\d` (ASCII). */
  predicate IsDigit(c: char) {
    '0' <= c <= '9'
  }

  ghost predicate AllSpace(s: string) {
    forall i :: 0 <= i < |s| ==> IsSpace(s[i])
  }

  ghost predicate NoSpace(s: string) {
    forall i :: 0 <= i < |s| ==> !IsSpace(s[i])
  }

  // ---------------------------------------------------------------------
  // Scanning positions
  // ---------------------------------------------------------------------

  /** The first position at or after `i` that is not whitespace (or the end). */
  function SkipSpace(s: string, i: nat): (r: nat)
    requires i <= |s|
    ensures i <= r <= |s|
    ensures forall k :: i <= k < r ==> IsSpace(s[k])
    ensures r == |s| || !IsSpace(s[r])
    decreases |s| - i
  {
    if i == |s| || !IsSpace(s[i]) then i else SkipSpace(s, i + 1)
  }

  /** The first position at or after `i` that is whitespace (or the end). */
  function SkipToken(s: string, i: nat): (r: nat)
    requires i <= |s|
    ensures i <= r <= |s|
    ensures forall k :: i <= k < r ==> !IsSpace(s[k])
    ensures r == |s| || IsSpace(s[r])
    decreases |s| - i
  {
    if i == |s| || IsSpace(s[i]) then i else SkipToken(s, i + 1)
  }

  /** The end of `s[..j]` once its trailing whitespace is dropped. */
  function TrimEnd(s: string, j: nat): (r: nat)
    requires j <= |s|
    ensures r <= j
    ensures forall k :: r <= k < j ==> IsSpace(s[k])
    ensures r == 0 || !IsSpace(s[r - 1])
    decreases j
  {
    if j == 0 || !IsSpace(s[j - 1]) then j else TrimEnd(s, j - 1)
  }

  // ---------------------------------------------------------------------
  // str.strip()
  // ---------------------------------------------------------------------

  /** Python's `str.strip()` with no argument: the slice between the
      first and the last non-whitespace character. */
  function Strip(s: string): (r: string)
    ensures r == [] <==> AllSpace(s)
    ensures r != [] ==> !IsSpace(r[0]) && !IsSpace(r[|r| - 1])
    ensures |r| <= |s|
  {
    var lo := SkipSpace(s, 0);
    var hi := TrimEnd(s, |s|);
    if hi <= lo then
      assert lo == |s|;
      []
    else s[lo..hi]
  }

  /** Only whitespace is cut away, on each side. */
  lemma StripSlice(s: string)
    requires !AllSpace(s)
    ensures var lo := SkipSpace(s, 0);
      && lo + |Strip(s)| <= |s|
      && Strip(s) == s[lo..lo + |Strip(s)|]
      && AllSpace(s[..lo]) && AllSpace(s[lo + |Strip(s)|..])
  {
    var lo := SkipSpace(s, 0);
    var hi := TrimEnd(s, |s|);
    assert hi > lo;
    assert |Strip(s)| == hi - lo;
  }

  /** Stripping brings in no character the text did not have. */
  lemma StripWithout(s: string, c: char)
    requires c !in s
    ensures c !in Strip(s)
  {
    if !AllSpace(s) {
      StripSlice(s);
      var lo := SkipSpace(s, 0);
      forall k | 0 <= k < |Strip(s)| ensures Strip(s)[k] != c {
        assert Strip(s)[k] == s[lo + k];
      }
    }
  }

  /** Stripping twice is stripping once. */
  lemma StripIdempotent(s: string)
    ensures Strip(Strip(s)) == Strip(s)
  {
    var r := Strip(s);
    if r != [] {
      assert SkipSpace(r, 0) == 0;
      assert TrimEnd(r, |r|) == |r|;
      assert r[0..|r|] == r;
    }
  }

  // ---------------------------------------------------------------------
  // Tokens: `^(\S+)` and `str.split(n=1)`
  // ---------------------------------------------------------------------

  /** `str.extract(r'^(\S+)')`: the leading run of non-whitespace, missing
      when `s` is empty or starts with whitespace. */
  function LeadingToken(s: string): (r: Option<string>)
    ensures r.Some? <==> (s != [] && !IsSpace(s[0]))
    ensures r.Some? ==> |r.value| <= |s| && r.value == s[..|r.value|] && NoSpace(r.value)
    ensures r.Some? ==> |r.value| == |s| || IsSpace(s[|r.value|])
  {
    var e := SkipToken(s, 0);
    if e == 0 then None else Some(s[..e])
  }

  /** `str.split(n=1).str[1]`: split on whitespace runs, at most once, and
      take the second field; missing when there is no second field. The
      second field keeps its trailing whitespace, as Python's does. */
  function SplitRest(s: string): (r: Option<string>)
    ensures r.Some? ==> r.value != [] && !IsSpace(r.value[0])
    ensures r.Some? ==> |r.value| < |s| && r.value == s[|s| - |r.value|..]
  {
    var a := SkipSpace(s, 0);
    var b := SkipToken(s, a);
    var c := SkipSpace(s, b);
    if c == |s| then None else Some(s[c..])
  }

  /** When there is a second field, `s` is optional whitespace, a
      non-empty token, non-empty whitespace and then that field. */
  lemma SplitRestShape(s: string)
    requires SplitRest(s).Some?
    ensures var a := SkipSpace(s, 0);
      var b := SkipToken(s, a);
      var c := |s| - |SplitRest(s).value|;
      && a < b < c
      && AllSpace(s[..a]) && NoSpace(s[a..b]) && AllSpace(s[b..c])
  {
    var a := SkipSpace(s, 0);
    var b := SkipToken(s, a);
    assert a < b;
  }

  /** There is no second field exactly when the stripped text holds no
      whitespace, i.e. it is one token or nothing. */
  lemma SplitRestNoneIff(s: string)
    ensures SplitRest(s).None? <==> NoSpace(Strip(s))
  {
    var a := SkipSpace(s, 0);
    var b := SkipToken(s, a);
    var c := SkipSpace(s, b);
    var hi := TrimEnd(s, |s|);
    if c == |s| {
      if a < |s| {
        assert hi <= b;
        assert hi > a;
        assert Strip(s) == s[a..hi];
      }
    } else {
      assert a < b < c;
      assert hi > c;
      assert Strip(s) == s[a..hi];
      assert Strip(s)[b - a] == s[b];
    }
  }

  // ---------------------------------------------------------------------
  // Site code: `@(\S{6})`
  // ---------------------------------------------------------------------

  /** Position `i` starts a match of `@(\S{6})`. */
  ghost predicate SiteAt(s: string, i: int) {
    0 <= i && i + 7 <= |s| && s[i] == '@' && NoSpace(s[i + 1..i + 7])
  }

  /** The leftmost match position at or after `i`, as `re.search` finds it. */
  function SitePos(s: string, i: nat): (r: Option<nat>)
    ensures r.Some? ==> i <= r.value && SiteAt(s, r.value)
    ensures r.Some? ==> forall k :: i <= k < r.value ==> !SiteAt(s, k)
    ensures r.None? ==> forall k :: i <= k ==> !SiteAt(s, k)
    decreases |s| - i
  {
    if i + 7 > |s| then None
    else if s[i] == '@' && NoSpaceIn(s, i + 1, i + 7) then Some(i)
    else SitePos(s, i + 1)
  }

  /** No whitespace among `s[lo..hi]`, checked position by position. */
  predicate NoSpaceIn(s: string, lo: nat, hi: nat)
    requires lo <= hi <= |s|
    ensures NoSpaceIn(s, lo, hi) <==> NoSpace(s[lo..hi])
    decreases hi - lo
  {
    lo == hi || (!IsSpace(s[lo]) && NoSpaceIn(s, lo + 1, hi))
  }

  /** `str.extract(r'@(\S{6})')`: the six non-whitespace characters after
      the first `@` that has six of them; missing when there is none. */
  function ExtractSite(s: string): (r: Option<string>)
    ensures r.Some? ==> |r.value| == 6 && NoSpace(r.value)
    ensures r.None? <==> forall k :: !SiteAt(s, k)
    ensures r.Some? ==> exists k :: SiteAt(s, k) && r.value == s[k + 1..k + 7]
  {
    match SitePos(s, 0)
    case None => None
    case Some(k) => Some(s[k + 1..k + 7])
  }

  /** The site code comes from the leftmost `@` followed by six
      non-whitespace characters, as `str.extract` takes the first match. */
  lemma ExtractSiteLeftmost(s: string)
    ensures ExtractSite(s).Some? ==>
      exists k :: && SiteAt(s, k) && (forall j :: 0 <= j < k ==> !SiteAt(s, j))
                  && ExtractSite(s).value == s[k + 1..k + 7]
  {
    if ExtractSite(s).Some? {
      var k := SitePos(s, 0).value;
      assert SiteAt(s, k) && forall j :: 0 <= j < k ==> !SiteAt(s, j);
    }
  }

  // ---------------------------------------------------------------------
  // `@.*` replaced by '' (`.` does not match a newline)
  // ---------------------------------------------------------------------

  /** The suffix of `s` from its first newline, or nothing. */
  function FromNewline(s: string): (r: string)
    ensures |r| <= |s| && r == s[|s| - |r|..]
    ensures r == [] || r[0] == '\n'
    ensures '\n' !in s[..|s| - |r|]
    decreases |s|
  {
    if s == [] || s[0] == '\n' then s else FromNewline(s[1..])
  }

  /** `re.sub(r'@.*', '', s)`: every `@` and the rest of its line go. */
  function CutAtSign(s: string): (r: string)
    ensures |r| <= |s|
    ensures '@' !in r
    decreases |s|
  {
    if s == [] then []
    else if s[0] == '@' then CutAtSign(FromNewline(s))
    else [s[0]] + CutAtSign(s[1..])
  }

  /** The cut changes the text exactly when it holds an `@`. */
  lemma {:induction false} CutAtSignIdentityIff(s: string)
    ensures CutAtSign(s) == s <==> '@' !in s
    decreases |s|
  {
    if s == [] {
    } else if s[0] == '@' {
      assert |CutAtSign(FromNewline(s))| <= |FromNewline(s)| < |s|;
    } else {
      CutAtSignIdentityIff(s[1..]);
      assert s == [s[0]] + s[1..];
    }
  }

  /** On a single line the cut keeps exactly the text before the first `@`. */
  lemma {:induction false} CutAtSignOneLine(s: string, k: nat)
    requires '\n' !in s
    requires k < |s| && s[k] == '@' && '@' !in s[..k]
    ensures CutAtSign(s) == s[..k]
    decreases k
  {
    if k == 0 {
      assert FromNewline(s) == [];
    } else {
      assert s[0] != '@' by { assert s[0] == s[..k][0]; }
      var w := s[1..][..k - 1];
      assert '@' !in w by {
        forall j | 0 <= j < |w| ensures w[j] != '@' {
          assert w[j] == s[..k][j + 1];
        }
      }
      CutAtSignOneLine(s[1..], k - 1);
      assert s[..k] == [s[0]] + s[1..k];
    }
  }

  /** Once cut, a text has no site code left to extract. */
  lemma CutThenNoSite(s: string)
    ensures ExtractSite(CutAtSign(s)).None?
  {
    var r := CutAtSign(s);
    forall k ensures !SiteAt(r, k) {
      if 0 <= k < |r| { assert r[k] != '@'; }
    }
  }

  /** Text before a newline-free prefix's end changes nothing in where
      the next newline is. */
  lemma {:induction false} FromNewlineSkips(a: string, c: string)
    requires '\n' !in a
    ensures FromNewline(a + c) == FromNewline(c)
    decreases |a|
  {
    if a == [] {
      assert a + c == c;
    } else {
      assert a[0] in a;
      assert (a + c)[0] == a[0] != '\n';
      assert (a + c)[1..] == a[1..] + c;
      assert forall m :: 0 <= m < |a[1..]| ==> a[1..][m] == a[m + 1];
      FromNewlineSkips(a[1..], c);
    }
  }

  /** A newline-free text that starts with `@` is cut away entirely. */
  lemma CutSignLine(a: string)
    requires a != [] && a[0] == '@' && '\n' !in a
    ensures CutAtSign(a) == []
  {
    FromNewlineSkips(a, []);
    assert a + [] == a;
  }

  /** `.` stops at a newline, so a line and the text from its newline on
      are cut separately. */
  lemma {:induction false} CutAtSignLines(a: string, b: string)
    requires '\n' !in a && b != [] && b[0] == '\n'
    ensures CutAtSign(a + b) == CutAtSign(a) + CutAtSign(b)
    decreases |a|
  {
    if a == [] {
      assert a + b == b;
    } else if a[0] == '@' {
      assert (a + b)[0] == '@';
      FromNewlineSkips(a, b);
      CutSignLine(a);
    } else {
      assert (a + b)[0] == a[0] && (a + b)[1..] == a[1..] + b;
      assert a[0] in a;
      assert forall m :: 0 <= m < |a[1..]| ==> a[1..][m] == a[m + 1];
      CutAtSignLines(a[1..], b);
    }
  }

  // ---------------------------------------------------------------------
  // `\bReplacement\b` replaced by ''
  // ---------------------------------------------------------------------

  const Word: string := "Replacement"

  /** Position `i` starts a whole-word occurrence of "Replacement". Since
      the word begins and ends with word characters, `\b` on each side
      means "at the edge of the text, or next to a non-word character". */
  ghost predicate WholeWordAt(s: string, i: int) {
    && 0 <= i && i + |Word| <= |s|
    && s[i..i + |Word|] == Word
    && (i == 0 || !IsWordChar(s[i - 1]))
    && (i + |Word| == |s| || !IsWordChar(s[i + |Word|]))
  }

  ghost predicate HasWholeWord(s: string, i: int) {
    exists k :: i <= k && WholeWordAt(s, k)
  }

  /** The executable form of WholeWordAt. */
  predicate MatchesWordAt(s: string, i: nat)
    ensures MatchesWordAt(s, i) <==> WholeWordAt(s, i)
  {
    && i + |Word| <= |s|
    && s[i..i + |Word|] == Word
    && (i == 0 || !IsWordChar(s[i - 1]))
    && (i + |Word| == |s| || !IsWordChar(s[i + |Word|]))
  }

  /** `re.sub` from position `i`: scan left to right, drop each whole-word
      occurrence, keep every other character. Word boundaries are judged
      on the original text, as the regex engine does. */
  function RemoveWordFrom(s: string, i: nat): (r: string)
    requires i <= |s|
    ensures |r| <= |s| - i
    decreases |s| - i
  {
    if i == |s| then []
    else if MatchesWordAt(s, i) then RemoveWordFrom(s, i + |Word|)
    else [s[i]] + RemoveWordFrom(s, i + 1)
  }

  /** Without a whole word from `i` on, the text from `i` is kept; with
      one, the result is shorter. */
  lemma {:induction false} RemoveWordFromIdentity(s: string, i: nat)
    requires i <= |s|
    ensures !HasWholeWord(s, i) ==> RemoveWordFrom(s, i) == s[i..]
    ensures HasWholeWord(s, i) ==> |RemoveWordFrom(s, i)| < |s| - i
    decreases |s| - i
  {
    if i == |s| {
      assert !HasWholeWord(s, i);
    } else if MatchesWordAt(s, i) {
      assert WholeWordAt(s, i);
    } else {
      RemoveWordFromIdentity(s, i + 1);
      if HasWholeWord(s, i) {
        var k :| i <= k && WholeWordAt(s, k);
        assert k != i;
        assert HasWholeWord(s, i + 1);
      } else {
        assert !HasWholeWord(s, i + 1);
        assert s[i..] == [s[i]] + s[i + 1..];
      }
    }
  }

  /** `str.replace(r'\bReplacement\b', '', regex=True)`. */
  function RemoveReplacement(s: string): (r: string)
    ensures |r| <= |s|
  {
    RemoveWordFrom(s, 0)
  }

  /** The text is left unchanged exactly when it holds no whole-word
      "Replacement". */
  lemma RemoveReplacementIdentityIff(s: string)
    ensures RemoveReplacement(s) == s <==> !HasWholeWord(s, 0)
  {
    RemoveWordFromIdentity(s, 0);
    assert s[0..] == s;
  }

  /** A character other than 'R' cannot start the word, so it is kept. */
  lemma RemoveWordSkip(s: string, i: nat)
    requires i < |s| && s[i] != 'R'
    ensures RemoveWordFrom(s, i) == [s[i]] + RemoveWordFrom(s, i + 1)
  {
    if i + |Word| <= |s| {
      assert s[i..i + |Word|][0] != Word[0];
    }
  }

  /** A stretch without 'R' is kept as it is. */
  lemma {:induction false} RemoveWordKeeps(s: string, i: nat, j: nat)
    requires i <= j <= |s| && forall k :: i <= k < j ==> s[k] != 'R'
    ensures RemoveWordFrom(s, i) == s[i..j] + RemoveWordFrom(s, j)
    decreases j - i
  {
    if i == j {
      assert s[i..j] + RemoveWordFrom(s, j) == RemoveWordFrom(s, j);
    } else {
      RemoveWordSkip(s, i);
      RemoveWordKeeps(s, i + 1, j);
      var rest := RemoveWordFrom(s, j);
      calc {
        RemoveWordFrom(s, i);
        [s[i]] + RemoveWordFrom(s, i + 1);
        [s[i]] + (s[i + 1..j] + rest);
        ([s[i]] + s[i + 1..j]) + rest;
        { assert [s[i]] + s[i + 1..j] == s[i..j]; }
        s[i..j] + rest;
      }
    }
  }

  /** "Replace" and "Replacements" are not the whole word and stay. */
  lemma ReplaceAndReplacementsStay()
    ensures RemoveReplacement("Replace") == "Replace"
    ensures RemoveReplacement("Replacements") == "Replacements"
  {
    ReplaceStays();
    ReplacementsStays();
  }

  lemma ReplaceStays()
    ensures RemoveReplacement("Replace") == "Replace"
  {
    var a := "Replace";
    assert !MatchesWordAt(a, 0);
    RemoveWordKeeps(a, 1, |a|);
    assert a == [a[0]] + a[1..];
  }

  lemma ReplacementsStays()
    ensures RemoveReplacement("Replacements") == "Replacements"
  {
    var b := "Replacements";
    assert !MatchesWordAt(b, 0) by { assert IsWordChar(b[11]); }
    RemoveWordKeeps(b, 1, |b|);
    assert b == [b[0]] + b[1..];
  }

  /** The whole word goes, and the text around it stays. */
  lemma ReplacementRemoved()
    ensures RemoveReplacement("New Replacement") == "New "
  {
    var s := "New Replacement";
    RemoveWordKeeps(s, 0, 4);
    ReplacementAtEnd();
    assert s[0..4] == "New ";
  }

  lemma ReplacementAtEnd()
    ensures RemoveWordFrom("New Replacement", 4) == []
  {
    var s := "New Replacement";
    assert MatchesWordAt(s, 4) by { assert s[4..15] == Word; }
  }

  /** The leftmost whole-word position at or after `i`, where `re.sub`
      makes its next removal. */
  function WordPos(s: string, i: nat): (r: Option<nat>)
    requires i <= |s|
    ensures r.Some? ==> i <= r.value && WholeWordAt(s, r.value)
    ensures r.Some? ==> forall k :: i <= k < r.value ==> !WholeWordAt(s, k)
    ensures r.None? <==> !HasWholeWord(s, i)
    decreases |s| - i
  {
    if i == |s| then None
    else if MatchesWordAt(s, i) then Some(i)
    else WordPos(s, i + 1)
  }

  /** A stretch with no whole word starting in it is kept as it is. */
  lemma {:induction false} RemoveWordUpTo(s: string, i: nat, k: nat)
    requires i <= k <= |s| && forall q :: i <= q < k ==> !MatchesWordAt(s, q)
    ensures RemoveWordFrom(s, i) == s[i..k] + RemoveWordFrom(s, k)
    decreases k - i
  {
    if i == k {
      assert s[i..k] == [];
    } else {
      RemoveWordUpTo(s, i + 1, k);
      assert RemoveWordFrom(s, i) == [s[i]] + RemoveWordFrom(s, i + 1);
      assert [s[i]] + s[i + 1..k] == s[i..k];
    }
  }

  /** The removal from `i` keeps the text up to the leftmost whole word,
      drops the word, and goes on after it; with no whole word left, it
      keeps the rest of the text. */
  lemma RemoveWordFirst(s: string, i: nat)
    requires i <= |s|
    ensures WordPos(s, i).None? ==> RemoveWordFrom(s, i) == s[i..]
    ensures WordPos(s, i).Some? ==>
      var k := WordPos(s, i).value;
      RemoveWordFrom(s, i) == s[i..k] + RemoveWordFrom(s, k + |Word|)
  {
    match WordPos(s, i)
    case None =>
      RemoveWordUpTo(s, i, |s|);
      assert s[i..|s|] == s[i..];
    case Some(k) =>
      RemoveWordUpTo(s, i, k);
      assert MatchesWordAt(s, k);
  }

  /** A removal may start at `i` without creating a word edge there: the
      text starts at `i`, or a non-word character sits on one side. */
  ghost predicate CleanStart(s: string, i: nat) {
    i == 0 || i == |s| || (i <= |s| && (!IsWordChar(s[i - 1]) || !IsWordChar(s[i])))
  }

  /** A whole word of the slice `s[i..j]` that does not touch its right
      end is a whole word of `s`. */
  lemma WholeWordOfSlice(s: string, i: nat, j: nat, p: nat)
    requires i <= j <= |s| && CleanStart(s, i)
    requires WholeWordAt(s[i..j], p) && (p + |Word| < j - i || j == |s|)
    ensures WholeWordAt(s, i + p)
  {
    var a := s[i..j];
    forall m | 0 <= m < |Word| ensures s[i + p + m] == Word[m] {
      assert s[i + p + m] == a[p + m] == a[p..p + |Word|][m];
    }
    assert s[i + p..i + p + |Word|] == Word;
    if p > 0 {
      assert s[i + p - 1] == a[p - 1];
    }
    if p + |Word| < j - i {
      assert s[i + p + |Word|] == a[p + |Word|];
    }
  }

  /** A word that ends where the text ends has a word character last. */
  lemma WordAtEnd(a: string, p: nat)
    ensures WholeWordAt(a, p) && p + |Word| == |a| ==> IsWordChar(a[|a| - 1])
  {
    if WholeWordAt(a, p) && p + |Word| == |a| {
      assert a[|a| - 1] == a[p..p + |Word|][|Word| - 1];
    }
  }

  /** The text from a clean start up to the leftmost whole word (or to the
      end, when there is none) holds no whole word. */
  lemma SliceNoWord(s: string, i: nat, k: nat)
    requires i <= k <= |s| && CleanStart(s, i)
    requires forall q :: i <= q < k ==> !WholeWordAt(s, q)
    requires k == |s| || WholeWordAt(s, k)
    ensures !HasWholeWord(s[i..k], 0)
  {
    var a := s[i..k];
    forall p | 0 <= p ensures !WholeWordAt(a, p) {
      if p + |Word| < k - i || k == |s| {
        if WholeWordAt(a, p) {
          WholeWordOfSlice(s, i, k, p);
        }
      } else {
        WordAtEnd(a, p);
        if 0 < |a| {
          assert a[|a| - 1] == s[k - 1];
        }
      }
    }
  }

  /** A whole word of `a + b` that lies inside `a`, short of its end, is a
      whole word of `a`. */
  lemma WordInLeft(a: string, b: string, p: nat)
    requires p + |Word| < |a|
    ensures WholeWordAt(a + b, p) ==> WholeWordAt(a, p)
  {
    var t := a + b;
    if WholeWordAt(t, p) {
      assert t[p..p + |Word|] == a[p..p + |Word|];
      assert t[p + |Word|] == a[p + |Word|];
      if p > 0 { assert t[p - 1] == a[p - 1]; }
    }
  }

  /** A whole word of `a + b` that lies inside `b` is a whole word of `b`. */
  lemma WordInRight(a: string, b: string, p: nat)
    requires |a| <= p
    ensures WholeWordAt(a + b, p) ==> WholeWordAt(b, p - |a|)
  {
    var t := a + b;
    var q := p - |a|;
    if WholeWordAt(t, p) {
      assert t[p..p + |Word|] == b[q..q + |Word|];
      if q > 0 { assert t[p - 1] == b[q - 1]; }
      if q + |Word| < |b| { assert t[p + |Word|] == b[q + |Word|]; }
    }
  }

  /** A whole word of `a + b` that reaches `a`'s last character makes that
      character a word character. */
  lemma WordAcross(a: string, b: string, p: nat)
    requires p < |a| <= p + |Word|
    ensures WholeWordAt(a + b, p) ==> IsWordChar(a[|a| - 1])
  {
    var t := a + b;
    if WholeWordAt(t, p) {
      assert a[|a| - 1] == t[|a| - 1] == t[p..p + |Word|][|a| - 1 - p];
    }
  }

  /** Joining two texts without a whole word keeps it so, when the first
      ends in a non-word character: a word cannot reach across the join. */
  lemma JoinNoWord(a: string, b: string)
    requires !HasWholeWord(a, 0) && !HasWholeWord(b, 0)
    requires a == [] || !IsWordChar(a[|a| - 1])
    ensures !HasWholeWord(a + b, 0)
  {
    forall p | 0 <= p ensures !WholeWordAt(a + b, p) {
      if p + |Word| < |a| {
        WordInLeft(a, b, p);
      } else if p >= |a| {
        WordInRight(a, b, p);
      } else {
        WordAcross(a, b, p);
      }
    }
  }

  /** A whole word stands between non-word characters or text edges. */
  lemma WordEdges(s: string, k: nat)
    requires WholeWordAt(s, k)
    ensures k + |Word| <= |s| && CleanStart(s, k + |Word|)
    ensures k == 0 || !IsWordChar(s[k - 1])
  {
  }

  /** With no whole word from a clean start on, the kept rest has none. */
  lemma NoWordAhead(s: string, i: nat)
    requires i <= |s| && CleanStart(s, i) && WordPos(s, i).None?
    ensures !HasWholeWord(RemoveWordFrom(s, i), 0)
  {
    RemoveWordFirst(s, i);
    SliceNoWord(s, i, |s|);
    assert s[i..|s|] == s[i..];
  }

  /** The removal from a clean start, split at the leftmost whole word: the
      kept text before the word holds none and ends in a non-word
      character, so when the removal after the word leaves none, the whole
      removal leaves none. */
  lemma JoinAtWord(s: string, i: nat)
    requires i <= |s| && CleanStart(s, i) && WordPos(s, i).Some?
    requires WordPos(s, i).value + |Word| <= |s|
    requires !HasWholeWord(RemoveWordFrom(s, WordPos(s, i).value + |Word|), 0)
    ensures !HasWholeWord(RemoveWordFrom(s, i), 0)
  {
    var k := WordPos(s, i).value;
    RemoveWordFirst(s, i);
    SliceNoWord(s, i, k);
    WordEdges(s, k);
    var a := s[i..k];
    if i < k {
      assert a[|a| - 1] == s[k - 1];
    }
    JoinNoWord(a, RemoveWordFrom(s, k + |Word|));
  }

  /** From a clean start, the removal leaves no whole word. */
  lemma {:induction false} RemoveWordLeavesNone(s: string, i: nat)
    requires i <= |s| && CleanStart(s, i)
    ensures !HasWholeWord(RemoveWordFrom(s, i), 0)
    decreases |s| - i
  {
    if WordPos(s, i).None? {
      NoWordAhead(s, i);
    } else {
      var k := WordPos(s, i).value;
      WordEdges(s, k);
      RemoveWordLeavesNone(s, k + |Word|);
      JoinAtWord(s, i);
    }
  }

  /** No whole-word "Replacement" is left after the removal: the word only
      ever stands between non-word characters, so taking it out cannot
      form a new one. */
  lemma ReplacementGone(s: string)
    ensures !HasWholeWord(RemoveReplacement(s), 0)
  {
    RemoveWordLeavesNone(s, 0);
  }

  /** The removal keeps the text before the first whole word and goes on
      after it. */
  lemma RemoveReplacementFirst(s: string)
    ensures WordPos(s, 0).None? ==> RemoveReplacement(s) == s
    ensures WordPos(s, 0).Some? ==>
      var k := WordPos(s, 0).value;
      RemoveReplacement(s) == s[..k] + RemoveWordFrom(s, k + |Word|)
  {
    RemoveWordFirst(s, 0);
    assert s[0..] == s;
  }

  // ---------------------------------------------------------------------
  // Plain substrings: `str.replace(pat, '', regex=False)`, `str.contains`
  // ---------------------------------------------------------------------

  ghost predicate InfixAt(s: string, pat: string, i: int) {
    0 <= i && i + |pat| <= |s| && s[i..i + |pat|] == pat
  }

  /** `pat` occurs in `s` (`str.contains` with a pattern that has no
      regular-expression metacharacters), checked from the left. */
  predicate Contains(s: string, pat: string)
    decreases |s|
  {
    |s| >= |pat| && (s[..|pat|] == pat || Contains(s[1..], pat))
  }

  /** Contains finds an occurrence exactly when there is one. */
  lemma {:induction false} ContainsIff(s: string, pat: string)
    ensures Contains(s, pat) <==> exists i :: InfixAt(s, pat, i)
    decreases |s|
  {
    if |s| < |pat| {
    } else if s[..|pat|] == pat {
      assert InfixAt(s, pat, 0);
    } else {
      ContainsIff(s[1..], pat);
      if i :| InfixAt(s, pat, i) {
        assert i != 0;
        assert s[1..][i - 1..i - 1 + |pat|] == s[i..i + |pat|];
        assert InfixAt(s[1..], pat, i - 1);
      }
      if i :| InfixAt(s[1..], pat, i) {
        assert s[1..][i..i + |pat|] == s[i + 1..i + 1 + |pat|];
        assert InfixAt(s, pat, i + 1);
      }
    }
  }

  /** `str.replace(pat, '')`: every non-overlapping occurrence, scanned
      left to right, is dropped. */
  function RemoveAll(s: string, pat: string): (r: string)
    requires pat != []
    ensures |r| <= |s|
    ensures |pat| == 1 ==> pat[0] !in r
    decreases |s|
  {
    if |s| < |pat| then
      assert |pat| == 1 ==> s == [];
      s
    else if s[..|pat|] == pat then RemoveAll(s[|pat|..], pat)
    else [s[0]] + RemoveAll(s[1..], pat)
  }

  /** Text without the pattern is left as it is. */
  lemma {:induction false} RemoveAllAbsent(s: string, pat: string)
    requires pat != [] && !Contains(s, pat)
    ensures RemoveAll(s, pat) == s
    decreases |s|
  {
    if |s| >= |pat| {
      RemoveAllAbsent(s[1..], pat);
      assert s == [s[0]] + s[1..];
    }
  }

  /** `str.replace` keeps the text before the leftmost occurrence, drops
      the occurrence and goes on after it. */
  lemma RemoveAllFirst(s: string, pat: string, k: nat)
    requires pat != [] && InfixAt(s, pat, k)
    requires forall j :: 0 <= j < k ==> !InfixAt(s, pat, j)
    ensures RemoveAll(s, pat) == s[..k] + RemoveAll(s[k + |pat|..], pat)
  {
    var x, y := s[..k], s[k..];
    assert s == x + y;
    assert y[..|pat|] == s[k..k + |pat|] && y[|pat|..] == s[k + |pat|..];
    NoneBeforeOf(s, pat, k);
    RemoveAllBefore(x, y, pat);
  }

  /** No occurrence of `pat` in `x + y` starts inside `x`, stated the way
      RemoveAll scans. */
  ghost predicate NoneBefore(x: string, y: string, pat: string)
    decreases |x|
  {
    x == [] || ((|x + y| >= |pat| ==> (x + y)[..|pat|] != pat) && NoneBefore(x[1..], y, pat))
  }

  lemma {:induction false} NoneBeforeOf(s: string, pat: string, k: nat)
    requires InfixAt(s, pat, k)
    requires forall j :: 0 <= j < k ==> !InfixAt(s, pat, j)
    ensures NoneBefore(s[..k], s[k..], pat)
    decreases k
  {
    if k > 0 {
      assert !InfixAt(s, pat, 0);
      assert s[..k] + s[k..] == s;
      ShiftOccurrences(s, pat, k);
      NoneBeforeOf(s[1..], pat, k - 1);
      assert s[..k][1..] == s[1..][..k - 1] && s[1..][k - 1..] == s[k..];
    }
  }

  lemma {:induction false} RemoveAllBefore(x: string, y: string, pat: string)
    requires pat != [] && |y| >= |pat| && y[..|pat|] == pat && NoneBefore(x, y, pat)
    ensures RemoveAll(x + y, pat) == x + RemoveAll(y[|pat|..], pat)
    decreases |x|
  {
    if x == [] {
      assert x + y == y;
    } else {
      var s := x + y;
      assert s[1..] == x[1..] + y;
      RemoveAllBefore(x[1..], y, pat);
      assert RemoveAll(s, pat) == [x[0]] + RemoveAll(x[1..] + y, pat);
      assert x == [x[0]] + x[1..];
    }
  }

  /** The occurrences of `s[1..]` are those of `s`, one place earlier. */
  lemma ShiftOccurrences(s: string, pat: string, k: nat)
    requires 0 < k && InfixAt(s, pat, k)
    requires forall j :: 0 <= j < k ==> !InfixAt(s, pat, j)
    ensures InfixAt(s[1..], pat, k - 1)
    ensures forall j :: 0 <= j < k - 1 ==> !InfixAt(s[1..], pat, j)
  {
    var t := s[1..];
    assert t[k - 1..k - 1 + |pat|] == s[k..k + |pat|];
    forall j | 0 <= j < k - 1 ensures !InfixAt(t, pat, j) {
      assert !InfixAt(s, pat, j + 1);
      assert t[j..j + |pat|] == s[j + 1..j + 1 + |pat|];
    }
  }

  /** Occurrences are removed in one left-to-right pass, so removal can
      join the pieces around one into a new occurrence that stays, as
      `"EEachach".replace("Each", "")` gives `"Each"`. */
  lemma RemoveAllOnePass()
    ensures RemoveAll("EEachach", "Each") == "Each"
  {
    var s := "EEachach";
    assert s[1..5] == "Each";
    assert s[..4][1] != "Each"[1];
    RemoveAllFirst(s, "Each", 1);
    assert s[..1] == "E" && s[5..] == "ach";
    RemoveAllAbsent("ach", "Each");
  }

  // ---------------------------------------------------------------------
  // `str.match('^\d')` and `astype(float)`
  // ---------------------------------------------------------------------

  /** `re.match(r'^\d', s)` succeeds. */
  predicate StartsWithDigit(s: string) {
    s != [] && IsDigit(s[0])
  }

  ghost predicate AllDigits(s: string) {
    forall i :: 0 <= i < |s| ==> IsDigit(s[i])
  }

  /** The value of a run of decimal digits. */
  function DigitsValue(ds: string): (n: nat)
    requires AllDigits(ds)
    decreases |ds|
  {
    if ds == [] then 0
    else DigitsValue(ds[..|ds| - 1]) * 10 + (ds[|ds| - 1] as int - '0' as int)
  }

  function Pow10(n: nat): (p: nat)
    ensures p >= 1
  {
    if n == 0 then 1 else 10 * Pow10(n - 1)
  }

  /** The position of the first '.', if any. */
  function DotPos(s: string): (r: Option<nat>)
    ensures r.Some? ==> r.value < |s| && s[r.value] == '.' && '.' !in s[..r.value]
    ensures r.None? <==> '.' !in s
    decreases |s|
  {
    if s == [] then None
    else if s[0] == '.' then Some(0)
    else match DotPos(s[1..])
      case None => None
      case Some(k) =>
        assert s[..k + 1] == [s[0]] + s[1..][..k];
        Some(k + 1)
  }

  /** Digits, checked one by one. */
  predicate IsDigits(s: string)
    ensures IsDigits(s) <==> AllDigits(s)
    decreases |s|
  {
    s == [] || (IsDigit(s[0]) && IsDigits(s[1..]))
  }

  /** The value of whole digits `w` and fraction digits `f`. */
  function DecimalValue(w: string, f: string): (x: real)
    requires AllDigits(w) && AllDigits(f)
    ensures x >= 0.0
  {
    DigitsValue(w) as real + DigitsValue(f) as real / Pow10(|f|) as real
  }

  /** An unsigned decimal: digits with an optional fraction, at least one
      digit in all. */
  function UnsignedDecimal(s: string): (r: Option<real>)
    ensures r.Some? ==> r.value >= 0.0
    ensures AllDigits(s) && s != [] ==> r == Some(DigitsValue(s) as real)
  {
    match DotPos(s)
    case None =>
      if s != [] && IsDigits(s) then Some(DigitsValue(s) as real) else None
    case Some(k) =>
      var whole, frac := s[..k], s[k + 1..];
      if |whole| + |frac| > 0 && IsDigits(whole) && IsDigits(frac) then
        Some(DecimalValue(whole, frac))
      else None
  }

  /** The information separators U+001C..U+001F: `str.isspace` holds for
      them, yet `float` neither trims them nor accepts them. */
  predicate IsSeparator(c: char) {
    '\U{1c}' <= c <= '\U{1f}'
  }

  /** The whitespace `float` trims: ASCII space, tab, newline, vertical
      tab, form feed and carriage return, and every non-ASCII character
      `str.isspace` accepts. */
  predicate IsFloatSpace(c: char) {
    IsSpace(c) && !IsSeparator(c)
  }

  ghost predicate AllFloatSpace(s: string) {
    forall i :: 0 <= i < |s| ==> IsFloatSpace(s[i])
  }

  /** The first position at or after `i` that is not float whitespace. */
  function SkipFloatSpace(s: string, i: nat): (r: nat)
    requires i <= |s|
    ensures i <= r <= |s|
    ensures forall k :: i <= k < r ==> IsFloatSpace(s[k])
    ensures r == |s| || !IsFloatSpace(s[r])
    decreases |s| - i
  {
    if i == |s| || !IsFloatSpace(s[i]) then i else SkipFloatSpace(s, i + 1)
  }

  /** The end of `s[..j]` once its trailing float whitespace is dropped. */
  function TrimFloatEnd(s: string, j: nat): (r: nat)
    requires j <= |s|
    ensures r <= j
    ensures forall k :: r <= k < j ==> IsFloatSpace(s[k])
    ensures r == 0 || !IsFloatSpace(s[r - 1])
    decreases j
  {
    if j == 0 || !IsFloatSpace(s[j - 1]) then j else TrimFloatEnd(s, j - 1)
  }

  /** The text `float` reads: the slice between the first and the last
      character that is not float whitespace. */
  function FloatStrip(s: string): (r: string)
    ensures r == [] <==> AllFloatSpace(s)
    ensures r != [] ==> !IsFloatSpace(r[0]) && !IsFloatSpace(r[|r| - 1])
    ensures |r| <= |s|
  {
    var lo := SkipFloatSpace(s, 0);
    var hi := TrimFloatEnd(s, |s|);
    if hi <= lo then
      assert lo == |s|;
      []
    else s[lo..hi]
  }

  ghost predicate NoSeparator(s: string) {
    forall i :: 0 <= i < |s| ==> !IsSeparator(s[i])
  }

  lemma {:induction false} SkipFloatSpaceAgrees(s: string, i: nat)
    requires i <= |s| && NoSeparator(s)
    ensures SkipFloatSpace(s, i) == SkipSpace(s, i)
    decreases |s| - i
  {
    if i < |s| && IsSpace(s[i]) {
      SkipFloatSpaceAgrees(s, i + 1);
    }
  }

  lemma {:induction false} TrimFloatEndAgrees(s: string, j: nat)
    requires j <= |s| && NoSeparator(s)
    ensures TrimFloatEnd(s, j) == TrimEnd(s, j)
    decreases j
  {
    if j > 0 && IsSpace(s[j - 1]) {
      TrimFloatEndAgrees(s, j - 1);
    }
  }

  /** On a text without information separators, `float` trims exactly
      what `str.strip` trims. */
  lemma FloatStripAgrees(s: string)
    ensures NoSeparator(s) ==> FloatStrip(s) == Strip(s)
  {
    if NoSeparator(s) {
      SkipFloatSpaceAgrees(s, 0);
      TrimFloatEndAgrees(s, |s|);
    }
  }

  /** The characters a number is written with. */
  predicate IsNumberChar(c: char) {
    IsDigit(c) || c == '.' || c == '-' || c == '+'
  }

  /** A decimal that reads is written with digits and one dot. */
  lemma UnsignedDecimalChars(t: string)
    ensures UnsignedDecimal(t).Some? ==> forall i :: 0 <= i < |t| ==> IsDigit(t[i]) || t[i] == '.'
  {
    if UnsignedDecimal(t).Some? && DotPos(t).Some? {
      var k := DotPos(t).value;
      forall i | 0 <= i < |t| ensures IsDigit(t[i]) || t[i] == '.' {
        if i < k { assert t[i] == t[..k][i]; }
        else if i > k { assert t[i] == t[k + 1..][i - k - 1]; }
      }
    }
  }

  /** A text `float` reads is, once trimmed, written with number characters only. */
  lemma ParsedChars(s: string)
    ensures ParseFloat(s).Some? ==> forall i :: 0 <= i < |FloatStrip(s)| ==> IsNumberChar(FloatStrip(s)[i])
  {
    var t := FloatStrip(s);
    if ParseFloat(s).Some? {
      if t[0] == '-' || t[0] == '+' {
        UnsignedDecimalChars(t[1..]);
        forall i | 0 < i < |t| ensures IsNumberChar(t[i]) { assert t[i] == t[1..][i - 1]; }
      } else {
        UnsignedDecimalChars(t);
      }
    }
  }

  /** `float` rejects every text that holds an information separator,
      wherever it stands, even though `str.strip` would trim one at an
      end. */
  lemma SeparatorRejected(s: string)
    ensures ParseFloat(s).Some? ==> NoSeparator(s)
    ensures ParseFloat(s).Some? ==> Strip(s) != []
  {
    if ParseFloat(s).Some? {
      ParsedChars(s);
      NumberBetweenFloatSpace(s);
    }
  }

  /** A text whose float-trimmed part is a non-empty run of number
      characters holds no separator and is not blank. */
  lemma NumberBetweenFloatSpace(s: string)
    requires FloatStrip(s) != []
    requires forall i :: 0 <= i < |FloatStrip(s)| ==> IsNumberChar(FloatStrip(s)[i])
    ensures NoSeparator(s) && Strip(s) != []
  {
    var lo, hi := SkipFloatSpace(s, 0), TrimFloatEnd(s, |s|);
    assert lo < hi && FloatStrip(s) == s[lo..hi];
    assert !IsSpace(s[lo]) by { assert s[lo] == FloatStrip(s)[0]; }
    forall i | 0 <= i < |s| ensures !IsSeparator(s[i]) {
      if lo <= i < hi {
        assert s[i] == FloatStrip(s)[i - lo];
      }
    }
  }

  /** A price led by U+001C does not read, although `str.strip` would
      trim that character away. */
  lemma SeparatorPriceRejected()
    ensures ParseFloat(['\U{1c}', '5']) == None
    ensures Strip(['\U{1c}', '5']) == ['5']
  {
    var s := ['\U{1c}', '5'];
    SeparatorRejected(s);
    assert IsSeparator(s[0]);
    assert SkipSpace(s, 0) == 1 && TrimEnd(s, 2) == 2;
  }

  /** `float(s)` on the decimal forms a purchase order prints: surrounding
      whitespace, an optional sign, digits with an optional fraction.
      Missing (`None`) is the `ValueError` that `astype(float)` raises. */
  function ParseFloat(s: string): (r: Option<real>)
    ensures r.Some? ==> FloatStrip(s) != [] && !IsFloatSpace(FloatStrip(s)[0])
  {
    var t := FloatStrip(s);
    if t == [] then None
    else if t[0] == '-' then
      match UnsignedDecimal(t[1..])
      case None => None
      case Some(x) => Some(-x)
    else if t[0] == '+' then UnsignedDecimal(t[1..])
    else UnsignedDecimal(t)
  }

  /** Removing a pattern from `x + y`, where `x` cannot start a match,
      keeps `x` and removes from `y`. */
  lemma {:induction false} RemoveAllAfterPrefix(x: string, y: string, pat: string)
    requires pat != [] && pat[0] !in x
    ensures RemoveAll(x + y, pat) == x + RemoveAll(y, pat)
    decreases |x|
  {
    if x != [] {
      var s := x + y;
      if |s| >= |pat| {
        assert s[..|pat|][0] == x[0];
      }
      assert s[1..] == x[1..] + y;
      RemoveAllAfterPrefix(x[1..], y, pat);
    } else {
      assert x + y == y;
    }
  }

  /** A price with a thousands separator and the "Each" label parses to
      its value once both are removed, as the first page cleans it. */
  lemma PriceCleaningExample()
    ensures ParseFloat(RemoveAll(RemoveAll("1,200.00 Each", "Each"), ",")) == Some(1200.0)
  {
    RemoveEachExample();
    RemoveCommaExample();
    ParseExample();
  }

  lemma RemoveEachExample()
    ensures RemoveAll("1,200.00 Each", "Each") == "1,200.00 "
  {
    RemoveAllAfterPrefix("1,200.00 ", "Each", "Each");
    assert "1,200.00 " + "Each" == "1,200.00 Each";
    assert RemoveAll("Each", "Each") == [];
  }

  lemma RemoveCommaExample()
    ensures RemoveAll("1,200.00 ", ",") == "1200.00 "
  {
    CommaOnce("1", "200.00 ");
    assert "1" + [','] + "200.00 " == "1,200.00 ";
    assert "1" + "200.00 " == "1200.00 ";
  }

  /** A single comma between comma-free texts is the only thing removed. */
  lemma CommaOnce(x: string, y: string)
    requires ',' !in x && ',' !in y
    ensures RemoveAll(x + [','] + y, ",") == x + y
  {
    var t := [','] + y;
    assert x + [','] + y == x + t;
    RemoveAllAfterPrefix(x, t, ",");
    assert t[..1] == "," && t[1..] == y;
    RemoveAllAfterPrefix(y, [], ",");
    assert y + [] == y;
  }

  lemma ParseExample()
    ensures ParseFloat("1200.00 ") == Some(1200.0)
  {
    FloatStripExample();
    DecimalExample();
  }

  lemma FloatStripExample()
    ensures FloatStrip("1200.00 ") == "1200.00"
  {
    var v := "1200.00 ";
    assert IsFloatSpace(v[7]) && !IsFloatSpace(v[0]);
    var u := v[..7];
    assert u == "1200.00";
    assert !IsFloatSpace(u[0]) && !IsFloatSpace(u[6]);
  }

  lemma DecimalExample()
    ensures UnsignedDecimal("1200.00") == Some(1200.0)
  {
    assert "1200.00" == "1200" + ['.'] + "00";
    WholeDigitsExample();
    FractionDigitsExample();
    DecimalOf("1200", "00");
    assert DecimalValue("1200", "00") == 1200.0 by {
      assert Pow10(2) == 100;
    }
  }

  /** The first dot of `w.f`, where `w` has none, is right after `w`. */
  lemma {:induction false} DotPosAfter(w: string, f: string)
    requires '.' !in w
    ensures DotPos(w + ['.'] + f) == Some(|w|)
    decreases |w|
  {
    if w == [] {
      assert w + ['.'] + f == ['.'] + f;
    } else {
      DotPosAfter(w[1..], f);
      assert (w + ['.'] + f)[1..] == w[1..] + ['.'] + f;
    }
  }

  /** The value of digits, a dot and digits. */
  lemma DecimalOf(w: string, f: string)
    requires IsDigits(w) && IsDigits(f) && |w| + |f| > 0
    ensures UnsignedDecimal(w + ['.'] + f) == Some(DecimalValue(w, f))
  {
    var s := w + ['.'] + f;
    assert '.' !in w by {
      forall i | 0 <= i < |w| ensures w[i] != '.' { assert IsDigit(w[i]); }
    }
    DotPosAfter(w, f);
    assert s[..|w|] == w && s[|w| + 1..] == f;
  }

  lemma WholeDigitsExample()
    ensures IsDigits("1200") && DigitsValue("1200") == 1200
  {
    assert "1200"[1..] == "200" && "200"[1..] == "00" && "00"[1..] == "0";
    assert "1200"[..3] == "120" && "120"[..2] == "12" && "12"[..1] == "1" && "1"[..0] == "";
  }

  lemma FractionDigitsExample()
    ensures IsDigits("00") && DigitsValue("00") == 0
  {
    assert "00"[1..] == "0";
    assert "00"[..1] == "0" && "0"[..0] == "";
  }


}
