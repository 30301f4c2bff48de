/** The word and character statistics shown under the input text area.

    The word count is `text.trim().split("\\s+").length`, guarded so that
    a null or blank text counts 0 words; the character count is the text's
    length. Both Java library calls are modelled here: `String.trim` strips
    every char up to U+0020 from both ends, and `split` cuts the text at each
    maximal run of `\s` characters, keeps a leading empty piece, drops
    trailing empty pieces, and returns the whole input when nothing matches.
    A `char` here is a Unicode scalar value; the character count converts
    to UTF-16 code units, as Java's `String.length` counts. */
module TextStatistics {
  import opened Wrappers

  /** `\s` of java.util.regex without UNICODE_CHARACTER_CLASS: [ \t\n\x0B\f\r]. */
  predicate IsSpace(c: char) {
    c == ' ' || c == '\t' || c == '\n' || c == '\U{0B}' || c == '\U{0C}' || c == '\r'
  }

  /** The chars `String.trim` strips: every code unit up to U+0020. */
  predicate IsTrimmable(c: char) {
    c <= ' '
  }

  // ---------------------------------------------------------------------
  // String.trim
  // ---------------------------------------------------------------------

  /** The first index at or after `i` that `trim` keeps (or `|s|`). */
  function SkipLeading(s: string, i: nat): (st: nat)
    requires i <= |s|
    ensures i <= st <= |s|
    ensures forall j :: i <= j < st ==> IsTrimmable(s[j])
    ensures st < |s| ==> !IsTrimmable(s[st])
    decreases |s| - i
  {
    if i == |s| || !IsTrimmable(s[i]) then i else SkipLeading(s, i + 1)
  }

  /** Shrinks the end `len` while the char before it is trimmable, never
      below `st`. */
  function SkipTrailing(s: string, st: nat, len: nat): (e: nat)
    requires st <= len <= |s|
    ensures st <= e <= len
    ensures forall j :: e <= j < len ==> IsTrimmable(s[j])
    ensures st < e ==> !IsTrimmable(s[e - 1])
    decreases len
  {
    if len == st || !IsTrimmable(s[len - 1]) then len else SkipTrailing(s, st, len - 1)
  }

  /** `String.trim`: the longest middle slice whose first and last chars
      are above U+0020, with only trimmable chars cut away. */
  function Trim(s: string): (t: string)
    ensures |t| <= |s|
    ensures t == [] <==> forall j :: 0 <= j < |s| ==> IsTrimmable(s[j])
    ensures t != [] ==> !IsTrimmable(t[0]) && !IsTrimmable(t[|t| - 1])
    ensures exists lo: nat, hi: nat :: lo <= hi <= |s| && t == s[lo..hi]
  {
    var st := SkipLeading(s, 0);
    var e := SkipTrailing(s, st, |s|);
    assert st < |s| ==> st < e;
    s[st..e]
  }

  /** A slice with trimmable chars around it and kept chars at both ends
      is what `trim` returns. */
  lemma TrimUnique(s: string, lo: nat, hi: nat)
    requires lo <= hi <= |s|
    requires forall j :: 0 <= j < lo ==> IsTrimmable(s[j])
    requires forall j :: hi <= j < |s| ==> IsTrimmable(s[j])
    requires lo < hi ==> !IsTrimmable(s[lo]) && !IsTrimmable(s[hi - 1])
    ensures Trim(s) == s[lo..hi]
  {
    var st := SkipLeading(s, 0);
    var e := SkipTrailing(s, st, |s|);
    if lo < hi {
      assert st == lo;
      assert e == hi;
    } else {
      assert st == |s| == e;
    }
  }

  /** Trimmable chars put in front of a text do not survive `trim`. */
  lemma TrimIgnoresPrefix(p: string, t: string)
    requires forall j :: 0 <= j < |p| ==> IsTrimmable(p[j])
    ensures Trim(p + t) == Trim(t)
  {
    assert (p + t)[|p|..] == t;
    TrimDropsTrimmableHead(p + t, |p|);
  }

  /** Dropping a head of trimmable chars does not change what `trim`
      returns. */
  lemma TrimDropsTrimmableHead(u: string, k: nat)
    requires k <= |u|
    requires forall j :: 0 <= j < k ==> IsTrimmable(u[j])
    ensures Trim(u) == Trim(u[k..])
  {
    var t := u[k..];
    var lo := SkipLeading(t, 0);
    var hi := SkipTrailing(t, lo, |t|);
    assert lo < |t| ==> lo < hi;
    KeptSliceShifts(u, k, lo, hi);
    TrimUnique(u, k + lo, k + hi);
  }

  /** A kept slice of `u[k..]`, with only trimmable chars around it, is a
      kept slice of `u` when `u[..k]` is trimmable too. */
  lemma KeptSliceShifts(u: string, k: nat, lo: nat, hi: nat)
    requires k <= |u| && lo <= hi <= |u| - k
    requires forall j :: 0 <= j < k ==> IsTrimmable(u[j])
    requires forall j :: 0 <= j < lo ==> IsTrimmable(u[k..][j])
    requires forall j :: hi <= j < |u| - k ==> IsTrimmable(u[k..][j])
    requires lo < hi ==> !IsTrimmable(u[k..][lo]) && !IsTrimmable(u[k..][hi - 1])
    ensures forall j :: 0 <= j < k + lo ==> IsTrimmable(u[j])
    ensures forall j :: k + hi <= j < |u| ==> IsTrimmable(u[j])
    ensures lo < hi ==> !IsTrimmable(u[k + lo]) && !IsTrimmable(u[k + hi - 1])
    ensures u[k + lo..k + hi] == u[k..][lo..hi]
  {
    var t := u[k..];
    forall j | 0 <= j < k + lo
      ensures IsTrimmable(u[j])
    {
      if k <= j {
        assert u[j] == t[j - k];
      }
    }
    forall j | k + hi <= j < |u|
      ensures IsTrimmable(u[j])
    {
      assert u[j] == t[j - k];
    }
  }

  /** Trimmable chars put after a text do not survive `trim`. */
  lemma TrimIgnoresSuffix(t: string, q: string)
    requires forall j :: 0 <= j < |q| ==> IsTrimmable(q[j])
    ensures Trim(t + q) == Trim(t)
  {
    var u := t + q;
    var lo := SkipLeading(t, 0);
    var hi := SkipTrailing(t, lo, |t|);
    assert lo < |t| ==> lo < hi;
    assert forall j :: |t| <= j < |u| ==> u[j] == q[j - |t|];
    assert u[lo..hi] == t[lo..hi];
    TrimUnique(u, lo, hi);
  }

  /** Trimmable padding added at either end does not survive `trim`. */
  lemma TrimIgnoresPadding(p: string, t: string, q: string)
    requires forall j :: 0 <= j < |p| ==> IsTrimmable(p[j])
    requires forall j :: 0 <= j < |q| ==> IsTrimmable(q[j])
    ensures Trim(p + t + q) == Trim(t)
  {
    assert p + t + q == p + (t + q);
    TrimIgnoresPrefix(p, t + q);
    TrimIgnoresSuffix(t, q);
  }

  // ---------------------------------------------------------------------
  // String.split("\\s+")
  // ---------------------------------------------------------------------

  /** Where the next match of `\s+` starts, searching from `i` (or `|s|`). */
  function NextSpace(s: string, i: nat): (k: nat)
    requires i <= |s|
    ensures i <= k <= |s|
    ensures forall j :: i <= j < k ==> !IsSpace(s[j])
    ensures k < |s| ==> IsSpace(s[k])
    decreases |s| - i
  {
    if i == |s| || IsSpace(s[i]) then i else NextSpace(s, i + 1)
  }

  /** Where a greedy `\s+` match starting at `i` ends. */
  function SpaceRunEnd(s: string, i: nat): (e: nat)
    requires i <= |s|
    ensures i <= e <= |s|
    ensures forall j :: i <= j < e ==> IsSpace(s[j])
    ensures e < |s| ==> !IsSpace(s[e])
    decreases |s| - i
  {
    if i == |s| || !IsSpace(s[i]) then i else SpaceRunEnd(s, i + 1)
  }

  /** The pieces `Pattern.split` collects from `s[from..]`: the text up to
      each `\s+` match, then the rest after the last one. Empty pieces are
      still present here. */
  function Pieces(s: string, from: nat): (ps: seq<string>)
    requires from <= |s|
    ensures |ps| >= 1
    decreases |s| - from
  {
    var k := NextSpace(s, from);
    if k == |s| then [s[from..]]
    else [s[from..k]] + Pieces(s, SpaceRunEnd(s, k))
  }

  /** Removes the empty strings at the end, as `split` with limit 0 does. */
  function DropTrailingEmpty(ps: seq<string>): (r: seq<string>)
    ensures |r| <= |ps| && r == ps[..|r|]
    ensures r == [] || r[|r| - 1] != []
    ensures forall i :: |r| <= i < |ps| ==> ps[i] == []
  {
    if ps == [] || ps[|ps| - 1] != [] then ps
    else DropTrailingEmpty(ps[..|ps| - 1])
  }

  /** `s.split("\\s+")`: the whole input when `\s+` never matches, the
      pieces without their empty tail otherwise. */
  function Split(s: string): seq<string>
  {
    if NextSpace(s, 0) == |s| then [s] else DropTrailingEmpty(Pieces(s, 0))
  }

  // ---------------------------------------------------------------------
  // Independent reference: maximal runs of non-space chars
  // ---------------------------------------------------------------------

  /** Index `i` begins a maximal run of non-`\s` chars. */
  predicate StartsWord(s: string, i: nat)
    requires i < |s|
  {
    !IsSpace(s[i]) && (i == 0 || IsSpace(s[i - 1]))
  }

  /** How many runs begin in `s[lo..hi]` (judged within all of `s`). */
  function WordStartsIn(s: string, lo: nat, hi: nat): (n: nat)
    requires lo <= hi <= |s|
    ensures n <= hi - lo
    decreases hi - lo
  {
    if lo == hi then 0
    else (if StartsWord(s, lo) then 1 else 0) + WordStartsIn(s, lo + 1, hi)
  }

  /** The number of maximal runs of non-`\s` chars in `s`. */
  function WordRuns(s: string): (n: nat)
    ensures n <= |s|
  {
    WordStartsIn(s, 0, |s|)
  }

  lemma {:induction false} WordStartsAdditive(s: string, lo: nat, mid: nat, hi: nat)
    requires lo <= mid <= hi <= |s|
    ensures WordStartsIn(s, lo, hi) == WordStartsIn(s, lo, mid) + WordStartsIn(s, mid, hi)
    decreases mid - lo
  {
    if lo < mid {
      WordStartsAdditive(s, lo + 1, mid, hi);
    }
  }

  lemma {:induction false} NoWordStartsInSpaces(s: string, lo: nat, hi: nat)
    requires lo <= hi <= |s|
    requires forall j :: lo <= j < hi ==> IsSpace(s[j])
    ensures WordStartsIn(s, lo, hi) == 0
    decreases hi - lo
  {
    if lo < hi {
      NoWordStartsInSpaces(s, lo + 1, hi);
    }
  }

  lemma {:induction false} NoWordStartsInsideWord(s: string, lo: nat, hi: nat)
    requires 0 < lo <= hi <= |s|
    requires forall j :: lo - 1 <= j < hi ==> !IsSpace(s[j])
    ensures WordStartsIn(s, lo, hi) == 0
    decreases hi - lo
  {
    if lo < hi {
      NoWordStartsInsideWord(s, lo + 1, hi);
    }
  }

  /** A word beginning at `lo` and lasting to `hi` holds one run start. */
  lemma OneWordStart(s: string, lo: nat, hi: nat)
    requires lo < hi <= |s|
    requires lo == 0 || IsSpace(s[lo - 1])
    requires forall j :: lo <= j < hi ==> !IsSpace(s[j])
    ensures WordStartsIn(s, lo, hi) == 1
  {
    NoWordStartsInsideWord(s, lo + 1, hi);
  }

  /** From a word start, with `s` ending in a non-space, every piece is
      non-empty and there is one piece per run. */
  lemma {:induction false} PiecesAreRuns(s: string, from: nat)
    requires from < |s| && !IsSpace(s[|s| - 1])
    requires StartsWord(s, from)
    ensures |Pieces(s, from)| == WordStartsIn(s, from, |s|)
    ensures forall i :: 0 <= i < |Pieces(s, from)| ==> Pieces(s, from)[i] != []
    decreases |s| - from
  {
    var k := NextSpace(s, from);
    if k == |s| {
      OneWordStart(s, from, |s|);
    } else {
      var e := SpaceRunEnd(s, k);
      assert StartsWord(s, e);
      PiecesAreRuns(s, e);
      OneWordStart(s, from, k);
      NoWordStartsInSpaces(s, k, e);
      WordStartsAdditive(s, from, k, |s|);
      WordStartsAdditive(s, k, e, |s|);
      var rest := Pieces(s, e);
      assert Pieces(s, from) == [s[from..k]] + rest;
    }
  }

  /** On a trimmed, non-empty text, `split("\\s+")` yields one piece per
      maximal run of non-space chars. */
  lemma SplitCountsRuns(s: string)
    requires s != [] && !IsSpace(s[0]) && !IsSpace(s[|s| - 1])
    ensures |Split(s)| == WordRuns(s)
    ensures WordRuns(s) >= 1
  {
    assert StartsWord(s, 0);
    PiecesAreRuns(s, 0);
    if NextSpace(s, 0) < |s| {
      var ps := Pieces(s, 0);
      assert ps[|ps| - 1] != [];
      assert DropTrailingEmpty(ps) == ps;
    }
  }

  // ---------------------------------------------------------------------
  // The statistics
  // ---------------------------------------------------------------------

  /** `countWords`: 0 for a null text or one that is blank after `trim`,
      otherwise the number of pieces `split("\\s+")` cuts the trimmed text
      into — which is its number of maximal non-space runs. */
  function CountWords(text: Option<string>): (n: nat)
    ensures text.None? ==> n == 0
    ensures text.Some? ==> n == WordRuns(Trim(text.value))
    ensures text.Some? ==> n <= |text.value|
    ensures n == 0 <==> text.None? || Trim(text.value) == []
  {
    match text
    case None => 0
    case Some(t) =>
      var trimmed := Trim(t);
      if trimmed == [] then 0
      else
        SplitCountsRuns(trimmed);
        |Split(trimmed)|
  }

  /** Leading and trailing whitespace (any char up to U+0020) does not
      change the word count. */
  lemma CountWordsIgnoresPadding(p: string, t: string, q: string)
    requires forall j :: 0 <= j < |p| ==> IsTrimmable(p[j])
    requires forall j :: 0 <= j < |q| ==> IsTrimmable(q[j])
    ensures CountWords(Some(p + t + q)) == CountWords(Some(t))
  {
    TrimIgnoresPadding(p, t, q);
  }

  /** How many UTF-16 code units encode `c`: two (a surrogate pair) above
      U+FFFF, one otherwise. */
  function CodeUnits(c: char): nat
  {
    if c as int > 0xFFFF then 2 else 1
  }

  /** `String.length`: the number of UTF-16 code units of the text. */
  function Utf16Length(s: string): (n: nat)
    ensures |s| <= n <= 2 * |s|
  {
    if s == [] then 0 else CodeUnits(s[0]) + Utf16Length(s[1..])
  }

  /** The UTF-16 length of a concatenation is the sum of the lengths, and
      it equals the number of characters exactly when none lies above
      U+FFFF. */
  lemma {:induction false} Utf16LengthFacts(s: string, t: string)
    ensures Utf16Length(s + t) == Utf16Length(s) + Utf16Length(t)
    ensures Utf16Length(s) == |s| <==> forall j :: 0 <= j < |s| ==> s[j] as int <= 0xFFFF
    decreases |s|
  {
    if s == [] {
      assert s + t == t;
    } else {
      assert (s + t)[0] == s[0] && (s + t)[1..] == s[1..] + t;
      Utf16LengthFacts(s[1..], t);
      assert forall j :: 0 < j < |s| ==> s[j] == s[1..][j - 1];
    }
  }

  datatype Stats = Stats(words: nat, chars: nat)

  /** `updateTextStatistics`: the word count of the text and its length
      in UTF-16 code units, as `String.length` counts it. */
  function Statistics(text: string): (st: Stats)
    ensures st.chars == Utf16Length(text)
    ensures st.words == WordRuns(Trim(text))
    ensures st.words <= |text| <= st.chars
  {
    Stats(CountWords(Some(text)), Utf16Length(text))
  }
}
