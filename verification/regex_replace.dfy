/** `replace` and `isValidRegex` of the regex front end, over the same
    `Engine` oracles as `search`. */
module RegexReplace {
  import opened Wrappers
  import opened RegexProcessor

  // ---------------------------------------------------------------------
  // replace
  // ---------------------------------------------------------------------

  /** The replacement cannot be expanded for one of the matches `ms`. */
  predicate SomeExpansionFails<P>(e: Engine<P>, p: P, text: string, replacement: string, ms: seq<Span>)
  {
    exists i :: 0 <= i < |ms| && e.expand(p, text, ms[i], replacement).None?
  }

  /** What the replacement expands to for the match `sp` (empty when it
      cannot be expanded). */
  function Expanded<P>(e: Engine<P>, p: P, text: string, replacement: string, sp: Span): string
  {
    match e.expand(p, text, sp, replacement)
    case None => []
    case Some(x) => x
  }

  /** How much longer replacing the matches `ms` makes a text: for each
      match, the length of its expansion less its own length. */
  function Growth<P>(e: Engine<P>, p: P, text: string, replacement: string, ms: seq<Span>): int
    decreases |ms|
  {
    if ms == [] then 0
    else
      var change := |Expanded(e, p, text, replacement, ms[0])| - (ms[0].end - ms[0].start);
      change + Growth(e, p, text, replacement, ms[1..])
  }

  /** What `Matcher.replaceAll` builds from position `pos` on: for each
      match, the text since the previous match and then the expanded
      replacement (`appendReplacement`), finally the rest of the text
      (`appendTail`). `None` when a replacement cannot be expanded, which
      Java reports with an exception that `replace` does not catch. The
      result starts with the text before the first match, ends with the
      text after the last one, and is longer than `text[pos..]` by the
      growth of the matches; `SpliceLayout` places every other piece. */
  function Splice<P(!new)>(e: Engine<P>, p: P, text: string, replacement: string, ms: seq<Span>, pos: nat): (r: Option<string>)
    requires pos <= |text| && Ordered(ms, pos, |text|)
    ensures r.None? <==> SomeExpansionFails(e, p, text, replacement, ms)
    ensures r.Some? ==> |r.value| == |text| - pos + Growth(e, p, text, replacement, ms)
    ensures r.Some? && ms == [] ==> r.value == text[pos..]
    ensures r.Some? && ms != [] ==> text[pos..ms[0].start] <= r.value
    ensures r.Some? && ms != [] ==> EndsWith(r.value, text[ms[|ms| - 1].end..])
    decreases |ms|
  {
    if ms == [] then Some(text[pos..])
    else
      ExpansionFailsCons(e, p, text, replacement, ms);
      match e.expand(p, text, ms[0], replacement)
      case None => None
      case Some(x) =>
        match Splice(e, p, text, replacement, ms[1..], ms[0].end)
        case None => None
        case Some(rest) =>
          SpliceShapeStep(text, pos, ms, x, rest, Growth(e, p, text, replacement, ms[1..]));
          Some(text[pos..ms[0].start] + x + rest)
  }

  /** The replacement fails on some of `ms` when it fails on the first or
      on one of the rest. */
  lemma ExpansionFailsCons<P>(e: Engine<P>, p: P, text: string, replacement: string, ms: seq<Span>)
    requires ms != []
    ensures SomeExpansionFails(e, p, text, replacement, ms)
      <==> e.expand(p, text, ms[0], replacement).None? || SomeExpansionFails(e, p, text, replacement, ms[1..])
  {
    if SomeExpansionFails(e, p, text, replacement, ms[1..]) {
      var i :| 0 <= i < |ms[1..]| && e.expand(p, text, ms[1..][i], replacement).None?;
      assert ms[i + 1] == ms[1..][i];
    }
    if SomeExpansionFails(e, p, text, replacement, ms) {
      var i :| 0 <= i < |ms| && e.expand(p, text, ms[i], replacement).None?;
      if i > 0 {
        assert ms[1..][i - 1] == ms[i];
      }
    }
  }

  /** The shape of a splice from the shape of the splice of the later
      matches: length, the gap it starts with, and the text it ends with. */
  lemma SpliceShapeStep(text: string, pos: nat, ms: seq<Span>, x: string, rest: string, g: int)
    requires ms != [] && pos <= ms[0].start <= ms[0].end <= |text|
    requires forall i :: 0 <= i < |ms| ==> ms[i].end <= |text|
    requires |rest| == |text| - ms[0].end + g
    requires |ms| == 1 ==> rest == text[ms[0].end..]
    requires |ms| > 1 ==> EndsWith(rest, text[ms[1..][|ms| - 2].end..])
    ensures |text[pos..ms[0].start] + x + rest| == |text| - pos + (|x| - (ms[0].end - ms[0].start)) + g
    ensures text[pos..ms[0].start] <= text[pos..ms[0].start] + x + rest
    ensures EndsWith(text[pos..ms[0].start] + x + rest, text[ms[|ms| - 1].end..])
  {
    var tail := text[ms[|ms| - 1].end..];
    assert EndsWith(rest, tail) by {
      if |ms| == 1 {
        assert rest[|rest| - |tail|..] == rest;
      } else {
        assert ms[1..][|ms| - 2] == ms[|ms| - 1];
      }
    }
    EndsWithAfter(text[pos..ms[0].start] + x, rest, tail);
  }

  /** `t` is the end of `s`. */
  predicate EndsWith(s: string, t: string)
  {
    |t| <= |s| && s[|s| - |t|..] == t
  }

  /** Putting text in front of a string keeps its end. */
  lemma EndsWithAfter(pre: string, s: string, t: string)
    requires EndsWith(s, t)
    ensures EndsWith(pre + s, t)
  {
    assert (pre + s)[|pre + s| - |t|..] == s[|s| - |t|..];
  }

  /** `replace`: every match replaced by the expanded replacement; the text
      unchanged when the pattern does not compile. `None` stands for the
      exception a malformed replacement raises. */
  function Replace<P(!new)>(e: Engine<P>, text: string, pattern: string, replacement: string): (r: Option<string>)
    requires Sound(e)
    ensures e.compile(pattern).None? ==> r == Some(text)
    ensures e.compile(pattern).Some? ==>
      var p := e.compile(pattern).value;
      (r.None? <==> SomeExpansionFails(e, p, text, replacement, Matches(e, p, text, 0)))
    ensures e.compile(pattern).Some? && r.Some? ==>
      var p := e.compile(pattern).value;
      |r.value| == |text| + Growth(e, p, text, replacement, Matches(e, p, text, 0))
  {
    match e.compile(pattern)
    case None => Some(text)
    case Some(p) => Splice(e, p, text, replacement, Matches(e, p, text, 0), 0)
  }

  /** Without a match, `replace` returns the text as it is. */
  lemma ReplaceWithoutMatchKeepsText<P(!new)>(e: Engine<P>, text: string, pattern: string, replacement: string)
    requires Sound(e)
    requires e.compile(pattern).Some? ==> Matches(e, e.compile(pattern).value, text, 0) == []
    ensures Replace(e, text, pattern, replacement) == Some(text)
  {
  }

  /** Three adjacent slices of a text make up the slice they span. */
  lemma SlicesRejoin(text: string, pos: nat, a: nat, b: nat)
    requires pos <= a <= b <= |text|
    ensures text[pos..a] + text[a..b] + text[b..] == text[pos..]
  {
  }

  /** The first match's gap and expansion, then the splice of the rest. */
  lemma SpliceFirst<P(!new)>(e: Engine<P>, p: P, text: string, replacement: string, ms: seq<Span>, pos: nat, x: string, rest: string)
    requires pos <= |text| && Ordered(ms, pos, |text|) && ms != []
    requires e.expand(p, text, ms[0], replacement) == Some(x)
    requires Ordered(ms[1..], ms[0].end, |text|)
    requires Splice(e, p, text, replacement, ms[1..], ms[0].end) == Some(rest)
    ensures Splice(e, p, text, replacement, ms, pos) == Some(text[pos..ms[0].start] + x + rest)
  {
  }

  /** `piece` sits in `out` at offset `at`. */
  predicate LandsAt(out: string, at: int, piece: string)
  {
    0 <= at && at + |piece| <= |out| && out[at..at + |piece|] == piece
  }

  /** Where the expansion of the `i`-th match lands in what `Splice`
      builds from `pos`: the match's own start, moved by the growth of
      the matches before it. */
  function Landing<P>(e: Engine<P>, p: P, text: string, replacement: string, ms: seq<Span>, pos: nat, i: nat): int
    requires i < |ms|
  {
    ms[i].start - pos + Growth(e, p, text, replacement, ms[..i])
  }

  /** The text between the `i`-th match and the next one, or the end of
      the text after the last match. */
  function GapAfter(text: string, ms: seq<Span>, i: nat): string
    requires i < |ms| && ms[i].end <= |text|
    requires i + 1 < |ms| ==> ms[i].end <= ms[i + 1].start <= |text|
  {
    text[ms[i].end..if i + 1 < |ms| then ms[i + 1].start else |text|]
  }

  /** A piece of `s` keeps its place, moved by `|pre|`, in `pre + s`. */
  lemma LandsAtAfter(pre: string, s: string, at: int, piece: string)
    requires LandsAt(s, at, piece)
    ensures LandsAt(pre + s, |pre| + at, piece)
  {
    assert (pre + s)[|pre| + at..|pre| + at + |piece|] == s[at..at + |piece|];
  }

  /** The growth of the first `i` matches is the first one's change plus
      the growth of the next `i - 1`. */
  lemma GrowthOfPrefix<P>(e: Engine<P>, p: P, text: string, replacement: string, ms: seq<Span>, i: nat)
    requires 0 < i <= |ms|
    ensures Growth(e, p, text, replacement, ms[..i])
      == |Expanded(e, p, text, replacement, ms[0])| - (ms[0].end - ms[0].start)
         + Growth(e, p, text, replacement, ms[1..][..i - 1])
  {
    assert ms[..i][0] == ms[0];
    assert ms[..i][1..] == ms[1..][..i - 1];
  }

  /** Where `replaceAll` puts things: the expansion of each match lands at
      the match's start moved by the growth of the earlier matches, and
      right after it comes the text up to the next match (or the end). */
  lemma SpliceLayout<P(!new)>(e: Engine<P>, p: P, text: string, replacement: string, ms: seq<Span>, pos: nat)
    requires pos <= |text| && Ordered(ms, pos, |text|)
    requires Splice(e, p, text, replacement, ms, pos).Some?
    ensures forall i :: 0 <= i < |ms| ==>
      var out := Splice(e, p, text, replacement, ms, pos).value;
      var at := Landing(e, p, text, replacement, ms, pos, i);
      var x := Expanded(e, p, text, replacement, ms[i]);
      LandsAt(out, at, x) && LandsAt(out, at + |x|, GapAfter(text, ms, i))
  {
    forall i | 0 <= i < |ms|
      ensures var out := Splice(e, p, text, replacement, ms, pos).value;
        var at := Landing(e, p, text, replacement, ms, pos, i);
        var x := Expanded(e, p, text, replacement, ms[i]);
        LandsAt(out, at, x) && LandsAt(out, at + |x|, GapAfter(text, ms, i))
    {
      SpliceLayoutAt(e, p, text, replacement, ms, pos, i);
    }
  }

  /** In `out`, the expansion of the `i`-th match sits at its landing
      place, followed by the text up to the next match. */
  predicate Placed<P>(e: Engine<P>, p: P, text: string, replacement: string, ms: seq<Span>, pos: nat, out: string, i: nat)
    requires Ordered(ms, pos, |text|) && i < |ms|
  {
    var at := Landing(e, p, text, replacement, ms, pos, i);
    var x := Expanded(e, p, text, replacement, ms[i]);
    LandsAt(out, at, x) && LandsAt(out, at + |x|, GapAfter(text, ms, i))
  }

  /** `SpliceLayout` for the `i`-th match. */
  lemma {:induction false} SpliceLayoutAt<P(!new)>(e: Engine<P>, p: P, text: string, replacement: string, ms: seq<Span>, pos: nat, i: nat)
    requires pos <= |text| && Ordered(ms, pos, |text|) && i < |ms|
    requires Splice(e, p, text, replacement, ms, pos).Some?
    ensures Placed(e, p, text, replacement, ms, pos, Splice(e, p, text, replacement, ms, pos).value, i)
    decreases i
  {
    var sp := ms[0];
    var x := Expanded(e, p, text, replacement, sp);
    SpliceParts(e, p, text, replacement, ms, pos);
    var rest := Splice(e, p, text, replacement, ms[1..], sp.end).value;
    if i == 0 {
      LayoutHead(e, p, text, replacement, ms, pos, x, rest);
    } else {
      SpliceLayoutAt(e, p, text, replacement, ms[1..], sp.end, i - 1);
      LayoutShift(e, p, text, replacement, ms, pos, i, x, rest);
    }
  }

  /** A splice that succeeds is the first gap, the first expansion, and
      the splice of the remaining matches, which succeeds too. */
  lemma SpliceParts<P(!new)>(e: Engine<P>, p: P, text: string, replacement: string, ms: seq<Span>, pos: nat)
    requires pos <= |text| && Ordered(ms, pos, |text|) && ms != []
    requires Splice(e, p, text, replacement, ms, pos).Some?
    ensures Ordered(ms[1..], ms[0].end, |text|)
    ensures Splice(e, p, text, replacement, ms[1..], ms[0].end).Some?
    ensures Splice(e, p, text, replacement, ms, pos).value
      == text[pos..ms[0].start] + Expanded(e, p, text, replacement, ms[0])
         + Splice(e, p, text, replacement, ms[1..], ms[0].end).value
  {
    assert Ordered(ms[1..], ms[0].end, |text|);
  }

  /** The first expansion lands right after the text before the first
      match, and the text up to the next match follows it. */
  lemma LayoutHead<P(!new)>(e: Engine<P>, p: P, text: string, replacement: string, ms: seq<Span>, pos: nat, x: string, rest: string)
    requires pos <= |text| && Ordered(ms, pos, |text|) && ms != []
    requires x == Expanded(e, p, text, replacement, ms[0])
    requires Ordered(ms[1..], ms[0].end, |text|)
    requires Splice(e, p, text, replacement, ms[1..], ms[0].end) == Some(rest)
    ensures Placed(e, p, text, replacement, ms, pos, text[pos..ms[0].start] + x + rest, 0)
  {
    var pre := text[pos..ms[0].start];
    assert ms[..0] == [];
    assert (pre + x + rest)[|pre|..|pre| + |x|] == x;
    var gap := GapAfter(text, ms, 0);
    assert gap <= rest by {
      if |ms| > 1 {
        assert ms[1..][0] == ms[1];
      }
    }
    assert LandsAt(rest, 0, gap);
    LandsAtAfter(pre + x, rest, 0, gap);
  }

  /** A later match lands where it landed in the splice of the matches
      after the first, moved by the first gap and expansion. */
  lemma LayoutShift<P(!new)>(e: Engine<P>, p: P, text: string, replacement: string, ms: seq<Span>, pos: nat, i: nat, x: string, rest: string)
    requires pos <= |text| && Ordered(ms, pos, |text|) && 0 < i < |ms|
    requires x == Expanded(e, p, text, replacement, ms[0])
    requires Ordered(ms[1..], ms[0].end, |text|)
    requires Placed(e, p, text, replacement, ms[1..], ms[0].end, rest, i - 1)
    ensures Placed(e, p, text, replacement, ms, pos, text[pos..ms[0].start] + x + rest, i)
  {
    var pre := text[pos..ms[0].start];
    var j := i - 1;
    LandingShift(e, p, text, replacement, ms, pos, i);
    var at' := Landing(e, p, text, replacement, ms[1..], ms[0].end, j);
    var xi := Expanded(e, p, text, replacement, ms[i]);
    assert ms[1..][j] == ms[i];
    LandsAtAfter(pre + x, rest, at', xi);
    LandsAtAfter(pre + x, rest, at' + |xi|, GapAfter(text, ms[1..], j));
  }

  /** A later match's landing place is its landing place in the splice of
      the matches after the first, moved by the first gap and expansion;
      the text after it is the same. */
  lemma LandingShift<P(!new)>(e: Engine<P>, p: P, text: string, replacement: string, ms: seq<Span>, pos: nat, i: nat)
    requires pos <= |text| && Ordered(ms, pos, |text|) && 0 < i < |ms|
    requires Ordered(ms[1..], ms[0].end, |text|)
    ensures Landing(e, p, text, replacement, ms, pos, i)
      == (ms[0].start - pos) + |Expanded(e, p, text, replacement, ms[0])|
         + Landing(e, p, text, replacement, ms[1..], ms[0].end, i - 1)
    ensures GapAfter(text, ms, i) == GapAfter(text, ms[1..], i - 1)
  {
    GrowthOfPrefix(e, p, text, replacement, ms, i);
    assert ms[1..][i - 1] == ms[i];
    if i + 1 < |ms| {
      assert ms[1..][i] == ms[i + 1];
    }
  }

  /** The spans `ms` tile `[pos, hi)`: the first starts at `pos`, each
      next one where the previous ended, and the last ends at `hi`. */
  predicate Tiles(ms: seq<Span>, pos: nat, hi: nat)
    decreases |ms|
  {
    if ms == [] then pos == hi else ms[0].start == pos && Tiles(ms[1..], ms[0].end, hi)
  }

  /** When the matches cover all of `text[pos..]` and each expands to
      nothing, `replaceAll` leaves nothing. */
  lemma {:induction false} SpliceDeletingTilesIsEmpty<P(!new)>(e: Engine<P>, p: P, text: string, replacement: string, ms: seq<Span>, pos: nat)
    requires pos <= |text| && Ordered(ms, pos, |text|) && Tiles(ms, pos, |text|)
    requires forall i :: 0 <= i < |ms| ==> e.expand(p, text, ms[i], replacement) == Some([])
    ensures Splice(e, p, text, replacement, ms, pos) == Some([])
    decreases |ms|
  {
    if ms != [] {
      assert Ordered(ms[1..], ms[0].end, |text|);
      SpliceDeletingTilesIsEmpty(e, p, text, replacement, ms[1..], ms[0].end);
      SpliceFirst(e, p, text, replacement, ms, pos, [], []);
    }
  }

  /** Replacing each match by its own text rebuilds the text from `pos`. */
  lemma {:induction false} SpliceOwnTextIsIdentity<P(!new)>(e: Engine<P>, p: P, text: string, replacement: string, ms: seq<Span>, pos: nat)
    requires pos <= |text| && Ordered(ms, pos, |text|)
    requires forall i :: 0 <= i < |ms| ==> e.expand(p, text, ms[i], replacement) == Some(text[ms[i].start..ms[i].end])
    ensures Splice(e, p, text, replacement, ms, pos) == Some(text[pos..])
    decreases |ms|
  {
    if ms != [] {
      var sp := ms[0];
      assert Ordered(ms[1..], sp.end, |text|);
      SpliceOwnTextIsIdentity(e, p, text, replacement, ms[1..], sp.end);
      SpliceFirst(e, p, text, replacement, ms, pos, text[sp.start..sp.end], text[sp.end..]);
      SlicesRejoin(text, pos, sp.start, sp.end);
    }
  }

  /** A replacement that expands to the whole match, such as `$0`, leaves
      the text unchanged. */
  lemma ReplaceByOwnMatchKeepsText<P(!new)>(e: Engine<P>, text: string, pattern: string, replacement: string)
    requires Sound(e)
    requires forall p: P, sp: Span :: sp.start <= sp.end <= |text| ==>
      e.expand(p, text, sp, replacement) == Some(text[sp.start..sp.end])
    ensures Replace(e, text, pattern, replacement) == Some(text)
  {
    if e.compile(pattern).Some? {
      var p := e.compile(pattern).value;
      SpliceOwnTextIsIdentity(e, p, text, replacement, Matches(e, p, text, 0), 0);
    }
  }

  // ---------------------------------------------------------------------
  // isValidRegex
  // ---------------------------------------------------------------------

  /** `isValidRegex`: whether the pattern compiles. */
  function IsValidRegex<P(!new)>(e: Engine<P>, pattern: string): (valid: bool)
  {
    match e.compile(pattern)
    case None => false
    case Some(_) => true
  }

  /** An invalid pattern is exactly one on which `search` and `replace`
      take their degraded paths: no matches, and the text unchanged. */
  lemma InvalidPatternDegrades<P(!new)>(e: Engine<P>, text: string, pattern: string, replacement: string)
    requires Sound(e)
    ensures IsValidRegex(e, pattern) <==> e.compile(pattern).Some?
    ensures !IsValidRegex(e, pattern) ==>
      Search(e, text, pattern) == [] && Replace(e, text, pattern, replacement) == Some(text)
    ensures IsValidRegex(e, pattern) ==>
      Search(e, text, pattern) == Slices(text, Matches(e, e.compile(pattern).value, text, 0))
  {
  }
}
