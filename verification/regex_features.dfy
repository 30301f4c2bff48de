/** `regexFeaturesExamples`: the six-line summary of what a few fixed
    patterns find in a text, each list printed as `ArrayList.toString`
    prints it. */
module RegexFeatures {
  import opened RegexProcessor

  // ---------------------------------------------------------------------
  // regexFeaturesExamples
  // ---------------------------------------------------------------------

  /** The strings joined with `sep` between neighbours. */
  function Join(xs: seq<string>, sep: string): (s: string)
    ensures xs == [] ==> s == []
    ensures xs != [] ==> |s| == TotalLength(xs) + |sep| * (|xs| - 1)
    ensures xs != [] ==> xs[0] <= s
  {
    if xs == [] then []
    else if |xs| == 1 then xs[0]
    else xs[0] + sep + Join(xs[1..], sep)
  }

  /** The sum of the lengths of `xs`. */
  function TotalLength(xs: seq<string>): nat
  {
    if xs == [] then 0 else |xs[0]| + TotalLength(xs[1..])
  }

  /** `ArrayList.toString`: the elements between brackets, separated by a
      comma and a space. */
  function ListToString(xs: seq<string>): (s: string)
    ensures |s| >= 2 && s[0] == '[' && s[|s| - 1] == ']'
    ensures s == "[]" <==> xs == [] || xs == [""]
    ensures xs != [] ==> |s| == TotalLength(xs) + 2 * |xs|
  {
    "[" + Join(xs, ", ") + "]"
  }

  /** A further element is joined after a separator. */
  lemma {:induction false} JoinSnoc(xs: seq<string>, y: string, sep: string)
    requires xs != []
    ensures Join(xs + [y], sep) == Join(xs, sep) + sep + y
    decreases |xs|
  {
    if |xs| == 1 {
      assert xs + [y] == [xs[0], y];
    } else {
      assert (xs + [y])[1..] == xs[1..] + [y];
      JoinSnoc(xs[1..], y, sep);
    }
  }

  /** A one-element list prints as its element in brackets. */
  lemma ListToStringSingle(x: string)
    ensures ListToString([x]) == "[" + x + "]"
  {
    assert Join([x], ", ") == x;
  }

  /** Each further element is printed after `", "`, in list order. */
  lemma ListToStringSnoc(xs: seq<string>, y: string)
    requires xs != []
    ensures ListToString(xs + [y]) == "[" + Join(xs, ", ") + ", " + y + "]"
  {
    JoinSnoc(xs, y, ", ");
    Regroup("[", Join(xs, ", "), ", ", y, "]");
  }

  /** Concatenation does not depend on grouping. */
  lemma Regroup(a: string, b: string, c: string, d: string, f: string)
    ensures a + (b + c + d) + f == a + b + c + d + f
  {
  }

  /** One line of the feature summary: a label and the pattern searched. */
  datatype Feature = Feature(heading: string, pattern: string)

  /** The six features, in the order the summary lists them. */
  function Features(): seq<Feature>
  {
    [ Feature("Digits in the text: ", "\\d+"),
      Feature("Lowercase letters in the text: ", "[a-z]+"),
      Feature("Uppercase letters in the text: ", "[A-Z]+"),
      Feature("Words with exactly 4 letters: ", "\\b[a-zA-Z]{4}\\b"),
      Feature("Words starting with 't': ", "\\bt\\w+\\b"),
      Feature("Non-space characters: ", "\\S+") ]
  }

  /** `regexFeaturesExamples`: six lines, whatever the text, each a label
      followed by the list of what its pattern finds in `text`. */
  function FeatureSummary<P(!new)>(e: Engine<P>, text: string): (lines: seq<string>)
    requires Sound(e)
    ensures |lines| == |Features()| == 6
    ensures forall i :: 0 <= i < 6 ==>
      var f := Features()[i];
      f.heading <= lines[i] && lines[i][|f.heading|..] == ListToString(Search(e, text, f.pattern))
  {
    var fs := Features();
    seq(|fs|, i requires 0 <= i < |fs| => fs[i].heading + ListToString(Search(e, text, fs[i].pattern)))
  }

  /** Each summary line ends in a bracketed list. The list reads `[]`
      when the pattern does not compile, finds nothing, or finds only one
      empty match: `ArrayList.toString` shows `[""]` as `[]` too. */
  lemma FeatureSummaryShape<P(!new)>(e: Engine<P>, text: string)
    requires Sound(e)
    ensures forall i :: 0 <= i < 6 ==>
      var line := FeatureSummary(e, text)[i];
      var f := Features()[i];
      && line[|line| - 1] == ']'
      && (line == f.heading + "[]" <==> Search(e, text, f.pattern) in {[], [""]})
  {
  }
}
