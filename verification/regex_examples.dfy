/** `getRegexExamples`: the fixed catalogue of example patterns the regex
    front end offers, one line per pattern. */
module RegexCatalogue {

  /** `n` spaces. */
  function Spaces(n: nat): (s: string)
    ensures |s| == n && forall i :: 0 <= i < n ==> s[i] == ' '
  {
    if n == 0 then [] else [' '] + Spaces(n - 1)
  }

  /** The pattern of the `i`-th catalogue line. */
  function ExamplePattern(i: nat): string
    requires i < 12
  {
    match i
    case 0 => "[a-z]"
    case 1 => "[A-Z]"
    case 2 => "\\d"
    case 3 => "\\D"
    case 4 => "\\w"
    case 5 => "\\W"
    case 6 => "\\s"
    case 7 => "\\S"
    case 8 => ".*"
    case 9 => "[a-z]+"
    case 10 => "\\bword\\b"
    case _ => "[a-zA-Z0-9]+"
  }

  /** How many spaces pad the `i`-th pattern before its colon. */
  function ExamplePad(i: nat): nat
    requires i < 12
  {
    if i < 2 then 6 else if i < 9 then 8 else if i == 9 then 4 else 1
  }

  /** What the `i`-th pattern matches, in the catalogue's words. */
  function ExampleDescription(i: nat): string
    requires i < 12
  {
    match i
    case 0 => "Match a lowercase letter"
    case 1 => "Match an uppercase letter"
    case 2 => "Match any digit (0-9)"
    case 3 => "Match any non-digit character"
    case 4 => "Match any word character (alphanumeric + underscore)"
    case 5 => "Match any non-word character"
    case 6 => "Match any whitespace character (space, tab, newline)"
    case 7 => "Match any non-whitespace character"
    case 8 => "Match any string (including empty string) of any length"
    case 9 => "Match one or more lowercase letters"
    case 10 => "Match the word 'word' as a whole word (word boundary)"
    case _ => "Match alphanumeric characters (letters and digits) one or more times"
  }

  /** A catalogue line: the pattern, `pad` spaces, a colon, a space and
      the description. */
  function ExampleLine(pattern: string, pad: nat, description: string): string
  {
    pattern + Spaces(pad) + ": " + description
  }

  /** `getRegexExamples`: the same twelve lines on every call, each
      starting with its pattern and ending with its description. */
  function RegexExamples(): (xs: seq<string>)
    ensures |xs| == 12
    ensures forall i: nat :: i < 12 ==>
      var d := ExampleDescription(i);
      ExamplePattern(i) <= xs[i] && |d| <= |xs[i]| && xs[i][|xs[i]| - |d|..] == d
  {
    seq(12, i requires 0 <= i < 12 => ExampleLine(ExamplePattern(i), ExamplePad(i), ExampleDescription(i)))
  }

  /** The text of `line` before its first space: the pattern an example
      line documents. */
  function LeadingPattern(line: string): (pat: string)
    ensures pat <= line
    ensures ' ' !in pat
    ensures |pat| < |line| ==> line[|pat|] == ' '
  {
    if line == [] || line[0] == ' ' then [] else [line[0]] + LeadingPattern(line[1..])
  }

  /** A pattern without spaces, followed by a space, is what
      `LeadingPattern` reads back. */
  lemma {:induction false} LeadingPatternOf(pat: string, rest: string)
    requires ' ' !in pat && rest != [] && rest[0] == ' '
    ensures LeadingPattern(pat + rest) == pat
  {
    if pat != [] {
      assert (pat + rest)[1..] == pat[1..] + rest;
      LeadingPatternOf(pat[1..], rest);
    }
  }

  /** A line whose pattern has no space and is padded by at least one
      space documents that pattern. */
  lemma ExampleLinePattern(pattern: string, pad: nat, description: string)
    requires ' ' !in pattern && pad >= 1
    ensures LeadingPattern(ExampleLine(pattern, pad, description)) == pattern
  {
    var rest := Spaces(pad) + ": " + description;
    assert ExampleLine(pattern, pad, description) == pattern + rest;
    LeadingPatternOf(pattern, rest);
  }

  /** Every catalogue line starts with its pattern, read up to the first
      space. */
  lemma RegexExamplesPatterns()
    ensures forall i: nat :: i < 12 ==> LeadingPattern(RegexExamples()[i]) == ExamplePattern(i)
  {
    var xs := RegexExamples();
    forall i: nat | i < 12
      ensures LeadingPattern(xs[i]) == ExamplePattern(i)
    {
      PatternWellPadded(i);
      ExampleLinePattern(ExamplePattern(i), ExamplePad(i), ExampleDescription(i));
    }
  }

  /** No catalogue pattern holds a space, and every one is padded. */
  lemma PatternWellPadded(i: nat)
    requires i < 12
    ensures ' ' !in ExamplePattern(i) && ExamplePad(i) >= 1
  {
  }

  /** No two catalogue lines document the same pattern. */
  lemma CataloguePatternsDistinct()
    ensures forall i: nat, j: nat :: i < j < 12 ==> ExamplePattern(i) != ExamplePattern(j)
  {
  }
}
