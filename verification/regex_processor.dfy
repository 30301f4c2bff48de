/** The regex front end of the text-processing tool: the engine it runs on,
    and `search`. Replacing and validating live in `RegexReplace`, the two
    fixed catalogues of examples in `RegexCatalogue`.

    The `java.util.regex` dialect itself is not modelled. An `Engine`
    supplies the three things this module asks of it: compiling a pattern
    (or rejecting it, which Java reports with `PatternSyntaxException`),
    finding the next match at or after a position, and expanding a
    replacement string for one match (`$n` group references and `\`
    escapes), which may fail for a malformed replacement. */
module RegexProcessor {
  import opened Wrappers

  /** A match: the text slice `[start, end)`. */
  datatype Span = Span(start: nat, end: nat)

  /** The regex library as oracles over compiled patterns of type `P`. */
  datatype Engine<!P> = Engine(
    compile: string -> Option<P>,
    find: (P, string, nat) -> Option<Span>,
    expand: (P, string, Span, string) -> Option<string>)

  /** What `Matcher.find` guarantees: a match found from `from` starts
      there or later and lies inside the text. */
  ghost predicate Sound<P(!new)>(e: Engine<P>)
  {
    forall p: P, text: string, from: nat :: from <= |text| && e.find(p, text, from).Some? ==>
      from <= e.find(p, text, from).value.start <= e.find(p, text, from).value.end <= |text|
  }

  /** Spans inside `[lo, hi]`, each ending no later than the next starts
      and starting before it. */
  predicate Ordered(ms: seq<Span>, lo: nat, hi: nat)
  {
    && (forall i :: 0 <= i < |ms| ==> lo <= ms[i].start <= ms[i].end <= hi)
    && (forall i, j :: 0 <= i < j < |ms| ==> ms[i].end <= ms[j].start && ms[i].start < ms[j].start)
  }

  /** A span before ordered spans that start past it, and no earlier than
      its end, keeps them ordered. */
  lemma PrependOrdered(sp: Span, rest: seq<Span>, lo: nat, next: nat, hi: nat)
    requires lo <= sp.start <= sp.end <= next && sp.start < next
    requires Ordered(rest, next, hi) && sp.end <= hi
    ensures Ordered([sp] + rest, lo, hi)
  {
    var ms := [sp] + rest;
    forall i, j | 0 <= i < j < |ms|
      ensures ms[i].end <= ms[j].start && ms[i].start < ms[j].start
    {
      assert ms[j] == rest[j - 1];
      if i > 0 {
        assert ms[i] == rest[i - 1];
      }
    }
  }

  // ---------------------------------------------------------------------
  // Successive matches
  // ---------------------------------------------------------------------

  /** The matches successive calls of `Matcher.find` report, the first
      searched from `from`: each search resumes where the previous match
      ended, one char further after an empty match, and stops once the
      position passes the end of the text. */
  function Matches<P(!new)>(e: Engine<P>, p: P, text: string, from: nat): (ms: seq<Span>)
    requires Sound(e)
    ensures from <= |text| ==> Ordered(ms, from, |text|)
    ensures from > |text| ==> ms == []
    decreases |text| + 1 - from
  {
    if from > |text| then []
    else
      match e.find(p, text, from)
      case None => []
      case Some(sp) =>
        var next := if sp.start == sp.end then sp.end + 1 else sp.end;
        var rest := Matches(e, p, text, next);
        PrependOrdered(sp, rest, from, next, |text|);
        [sp] + rest
  }

  /** The text of each span, as `Matcher.group()` returns it. */
  function Slices(text: string, ms: seq<Span>): (gs: seq<string>)
    requires forall i :: 0 <= i < |ms| ==> ms[i].start <= ms[i].end <= |text|
    ensures |gs| == |ms|
    ensures forall i :: 0 <= i < |ms| ==> gs[i] == text[ms[i].start..ms[i].end]
  {
    seq(|ms|, i requires 0 <= i < |ms| => text[ms[i].start..ms[i].end])
  }

  // ---------------------------------------------------------------------
  // search
  // ---------------------------------------------------------------------

  /** `search`: the text of every successive match, in the order found; an
      empty list when the pattern does not compile. */
  function Search<P(!new)>(e: Engine<P>, text: string, pattern: string): (gs: seq<string>)
    requires Sound(e)
    ensures e.compile(pattern).None? ==> gs == []
    ensures e.compile(pattern).Some? ==>
      var ms := Matches(e, e.compile(pattern).value, text, 0);
      |gs| == |ms| && forall i :: 0 <= i < |ms| ==> gs[i] == text[ms[i].start..ms[i].end]
  {
    match e.compile(pattern)
    case None => []
    case Some(p) => Slices(text, Matches(e, p, text, 0))
  }

  /** The groups successive `find` calls from `from` report, collected
      one search at a time. */
  function Groups<P(!new)>(e: Engine<P>, p: P, text: string, from: nat): (gs: seq<string>)
    requires Sound(e)
    decreases |text| + 1 - from
  {
    if from > |text| then []
    else
      match e.find(p, text, from)
      case None => []
      case Some(sp) =>
        var next := if sp.start == sp.end then sp.end + 1 else sp.end;
        [text[sp.start..sp.end]] + Groups(e, p, text, next)
  }

  /** Collecting groups search by search gives the slices of the matches. */
  lemma {:induction false} GroupsAreSlices<P(!new)>(e: Engine<P>, p: P, text: string, from: nat)
    requires Sound(e)
    ensures Groups(e, p, text, from) == Slices(text, Matches(e, p, text, from))
    decreases |text| + 1 - from
  {
    if from <= |text| && e.find(p, text, from).Some? {
      var sp := e.find(p, text, from).value;
      var next := if sp.start == sp.end then sp.end + 1 else sp.end;
      GroupsAreSlices(e, p, text, next);
      assert Matches(e, p, text, from) == [sp] + Matches(e, p, text, next);
      SlicesCons(text, sp, Matches(e, p, text, next));
    }
  }

  /** The slices of a span followed by more spans. */
  lemma SlicesCons(text: string, sp: Span, rest: seq<Span>)
    requires sp.start <= sp.end <= |text|
    requires forall i :: 0 <= i < |rest| ==> rest[i].start <= rest[i].end <= |text|
    ensures Slices(text, [sp] + rest) == [text[sp.start..sp.end]] + Slices(text, rest)
  {
  }

  /** The loop of `search`: while `find` succeeds, add `group()`. It
      collects exactly what `Search` describes. */
  method RunSearch<P(!new)>(e: Engine<P>, text: string, pattern: string) returns (matches: seq<string>)
    requires Sound(e)
    ensures matches == Search(e, text, pattern)
  {
    matches := [];
    var compiled := e.compile(pattern);
    if compiled.None? {
      return;
    }
    var p := compiled.value;
    var from := 0;
    while from <= |text|
      invariant from <= |text| + 1
      invariant matches + Groups(e, p, text, from) == Groups(e, p, text, 0)
      decreases |text| + 1 - from
    {
      var found := e.find(p, text, from);
      if found.None? {
        break;
      }
      var sp := found.value;
      var next := if sp.start == sp.end then sp.end + 1 else sp.end;
      var group := text[sp.start..sp.end];
      ghost var later := Groups(e, p, text, next);
      assert Groups(e, p, text, from) == [group] + later;
      assert (matches + [group]) + later == matches + ([group] + later);
      matches := matches + [group];
      from := next;
    }
    assert Groups(e, p, text, from) == [];
    GroupsAreSlices(e, p, text, 0);
  }
}
