# Text Processing Tool — a Dafny model of its core

The Text Processing Tool is a JavaFX desktop application. This project models
the three parts of it that hold logic:

- **The person registry** (`DataManager`). Each `Person` object is kept in three
  collections at once: an insertion-ordered `ArrayList`, a `HashSet`, and a
  `HashMap` from name to object. `Person` equality and hashing look at the name
  only. The model (`data_manager.dfy`, module `DataManager`) keeps a heap of
  objects, and each collection holds references into it. An age change made
  through the map is therefore seen through the list and the set, as Java's
  shared references make it.
  - The `HashSet` is a map keyed by name. An element is found by name, and
    `add` keeps the element it already has.
  - `Valid` is the structure every reachable registry has; `RunKeepsNamesAgreeing`
    proves it for any run of operations from the constructor. `Create`,
    `Update`, `Delete` and `Lookup` are defined on valid registries.
  - `Consistent` is the stronger "the three views agree" invariant. It is
    kept as long as no create names a person already present.
- **The regex front end** (`regex_processor.dfy`, module `RegexProcessor`, for
  the engine and `search`; `regex_replace.dfy`, module `RegexReplace`, for
  `replace` and `isValidRegex`). The `java.util.regex` dialect is
  not modelled. An `Engine` of three oracles stands for it:
  - `compile` returns `None` where Java throws `PatternSyntaxException`;
  - `find` gives the next match at or after a position;
  - `expand` gives a replacement's text for one match, or `None` where Java
    throws for a malformed replacement.

  The Java class `RegexProcessor` is spread over four modules: `RegexProcessor`
  (the engine and `search`), `RegexReplace` (`replace`, `isValidRegex`),
  `RegexCatalogue` (`getRegexExamples`) and `RegexFeatures`
  (`regexFeaturesExamples` and the printing of lists).

  The model spells out everything `search`, `replace` and `isValidRegex` do
  around these oracles, for text whose chars are single UTF-16 code units.
  That covers:
  - the successive-`find` loop, including the step past an empty match;
  - `appendReplacement`/`appendTail` splicing;
  - the degraded paths for an invalid pattern.

  The fixed example catalogue (`regex_examples.dfy`, module `RegexCatalogue`)
  and the six-line feature summary (`regex_features.dfy`, module
  `RegexFeatures`) are modelled with their exact strings.
- **Text statistics** (`countWords` and the character count of the controller;
  `text_statistics.dfy`, module `TextStatistics`). `String.trim` and
  `String.split("\\s+")` are modelled as Java defines them:
  - `trim` strips code units up to U+0020;
  - `\s` is `[ \t\n\x0B\f\r]`;
  - `split` drops trailing empty pieces, and gives the whole input when there is
    no match.

  The word count is proved equal to the number of maximal runs of non-`\s`
  characters.

The documentation of `createPerson` (`DataManager.java:32`) says the new person
is added to all three collections. The class keeps no invariant that would stop
the views drifting apart, and they do drift when a create names a person already
present:
- the list holds both objects;
- the set keeps the old one;
- the map points to the new one.

The model follows the code. `CreateDuplicateDiverges` states the divergence,
and the consistency results assume each create names a new person.

## Model

| member | source | states |
|---|---|---|
| DataManager.PersonEqualityIsByName | src/main/java/org/example/textprocessingtool/DataManager.java:162-177 | `equals` holds exactly when the names match. It is never true for null. It is reflexive, symmetric and transitive, ignores the age, and equal persons have equal hash codes. |
| DataManager.NewRegistry | src/main/java/org/example/textprocessingtool/DataManager.java:25-29 | The constructor's three empty collections satisfy the full consistency invariant. |
| DataManager.Lookup | src/main/java/org/example/textprocessingtool/DataManager.java:83-85 | `searchPersonByName` finds a person exactly when the set holds that name. The person found carries the name asked for and is the person `getAllPersons` gives at the last list position carrying that name, which is the map's object even after a name was created twice. On a consistent registry it is also the set's person of that name. |
| DataManager.AllPersons | src/main/java/org/example/textprocessingtool/DataManager.java:93-95 | `getAllPersons` gives one person per list entry, in list order, each being the object the entry refers to. Its partner is `ListShowsSetPersons`. |
| DataManager.ListShowsSetPersons | src/main/java/org/example/textprocessingtool/DataManager.java:93-105 | On a consistent registry, the persons `getAllPersons` gives are exactly the persons `getUniquePersons` gives, and there are as many of them: the list holds each set member once. |
| DataManager.UniquePersonsByName | src/main/java/org/example/textprocessingtool/DataManager.java:103-105 | `getUniquePersons` never holds two persons of the same name. A name is in the map exactly when some person in the set carries it. |
| DataManager.FirstNamed | src/main/java/org/example/textprocessingtool/DataManager.java:69 | The entry `ArrayList.remove(o)` picks is the first list position whose object `o.equals`, that is, has `o`'s name. None when no entry does. |
| DataManager.RemoveAt | src/main/java/org/example/textprocessingtool/DataManager.java:69 | Removing one list entry shortens the list by one. Entries before it stay in place, and later ones move one place forward in order. |
| DataManager.Create | src/main/java/org/example/textprocessingtool/DataManager.java:37-42 | `createPerson` allocates one new object and appends it to the list. The set gains it only if the name is new. The map always points the name to it. Validity is kept. |
| DataManager.CreateAppends | src/main/java/org/example/textprocessingtool/DataManager.java:37-42 | Whether or not the name exists, the list view grows by exactly the new person at the end, with earlier entries unchanged. A search for the name finds the new person, and searches for other names find what they found before. |
| DataManager.CreateFreshKeepsConsistent | src/main/java/org/example/textprocessingtool/DataManager.java:37-42 | With a name not yet present, `createPerson` keeps the list, set and map holding the same objects under distinct names. The set grows by exactly the new person. |
| DataManager.CreateDuplicateDiverges | src/main/java/org/example/textprocessingtool/DataManager.java:39-41 | With a name already present, the list holds both the old and the new object, and the set keeps the old one. The map points to the new one, so the views are no longer consistent. |
| DataManager.Update | src/main/java/org/example/textprocessingtool/DataManager.java:51-58 | An absent name changes nothing and reports not-found. For a present name, only the age of the object the map holds changes. No collection gains or loses a reference, and no name changes. |
| DataManager.UpdateKeepsConsistent | src/main/java/org/example/textprocessingtool/DataManager.java:51-54 | On a consistent registry, updating a present name keeps the views consistent, and a search then finds the person with the new age. |
| DataManager.UpdateIsFound | src/main/java/org/example/textprocessingtool/DataManager.java:51-54 | On any valid registry, duplicate names included, a search right after updating a present name finds that name with the new age. |
| DataManager.UpdateSeenThroughList | src/main/java/org/example/textprocessingtool/DataManager.java:52-54 | After an update, the list shows the new age at every position that refers to the map's object, and the old person everywhere else. |
| DataManager.UpdateSeenBySet | src/main/java/org/example/textprocessingtool/DataManager.java:52-54 | When the set and the map share the object, the updated person is in the set. The old record stays in the set exactly when its age was already the new one. |
| DataManager.Delete | src/main/java/org/example/textprocessingtool/DataManager.java:66-75 | An absent name changes nothing and reports not-found. For a present name, the name leaves the map and the set, and the first list entry of that name is removed with the rest kept in order. Objects are untouched. |
| DataManager.DeleteKeepsConsistent | src/main/java/org/example/textprocessingtool/DataManager.java:66-71 | On a consistent registry, deleting a present name keeps the views consistent. The name is then absent from all three views. The list shrinks by one, and the set loses exactly that person. |
| DataManager.ConsistentViewsAgree | src/main/java/org/example/textprocessingtool/DataManager.java:16-18 | In a consistent registry, the map and the set hold the same objects, and the list holds exactly those objects. All three have the same size. |
| DataManager.RunKeepsNamesAgreeing | src/main/java/org/example/textprocessingtool/DataManager.java:37-75 | From a new registry, any sequence of creates, updates and deletes, duplicates included, keeps the map and the set on the same names. Every mapped object is in the list, and it is the last list entry carrying its name. |
| DataManager.RunKeepsConsistent | src/main/java/org/example/textprocessingtool/DataManager.java:37-75 | A sequence of operations that never creates an existing name keeps a consistent registry consistent. |
| RegexProcessor.Matches | src/main/java/org/example/textprocessingtool/RegexProcessor.java:21-26 | Successive `find` calls report spans inside the text, each starting after the previous one and not overlapping it. A search past the end reports nothing. |
| RegexProcessor.Search | src/main/java/org/example/textprocessingtool/RegexProcessor.java:15-32 | An uncompilable pattern gives an empty list. Otherwise there is one entry per successive match, in the order found, each being the matched slice of the text. |
| RegexProcessor.RunSearch | src/main/java/org/example/textprocessingtool/RegexProcessor.java:15-32 | The `while (matcher.find())` loop collects exactly the list `Search` describes. |
| RegexReplace.Splice | src/main/java/org/example/textprocessingtool/RegexProcessor.java:49 | `replaceAll` fails exactly when the replacement cannot be expanded for some match. Otherwise its result is as long as the text plus, per match, the expansion's length less the match's. It starts with the text before the first match and ends with the text after the last one, and with no match it is the text itself. |
| RegexReplace.SpliceLayout | src/main/java/org/example/textprocessingtool/RegexProcessor.java:49 | In a successful `replaceAll`, each match's expansion sits at the match's start shifted by the growth of the earlier matches, and right after it comes the text between that match and the next one (or the end). |
| RegexReplace.SpliceDeletingTilesIsEmpty | src/main/java/org/example/textprocessingtool/RegexProcessor.java:49 | When the matches cover the rest of the text end to end and every one expands to nothing, `replaceAll` gives the empty string. |
| RegexReplace.Replace | src/main/java/org/example/textprocessingtool/RegexProcessor.java:42-54 | An uncompilable pattern returns the text unchanged. Otherwise the call fails exactly when the replacement cannot be expanded for one of the pattern's matches, and a result is as long as the text plus the growth of every match. |
| RegexReplace.ReplaceWithoutMatchKeepsText | src/main/java/org/example/textprocessingtool/RegexProcessor.java:42-49 | When the pattern matches nowhere, `replace` returns the text unchanged. |
| RegexReplace.ReplaceByOwnMatchKeepsText | src/main/java/org/example/textprocessingtool/RegexProcessor.java:42-49 | A replacement that expands to the whole match (such as `$0`) returns the text unchanged, whatever the pattern. |
| RegexReplace.InvalidPatternDegrades | src/main/java/org/example/textprocessingtool/RegexProcessor.java:62-70 | `isValidRegex` is true exactly when the pattern compiles. For an invalid pattern, `search` gives no matches and `replace` gives the text back. For a valid one, `search` gives the match slices. |
| RegexCatalogue.RegexExamples | src/main/java/org/example/textprocessingtool/RegexProcessor.java:78-96 | `getRegexExamples` returns twelve lines, each starting with its pattern and ending with its description. |
| RegexCatalogue.RegexExamplesPatterns | src/main/java/org/example/textprocessingtool/RegexProcessor.java:82-93 | Reading each catalogue line up to its first space gives back the pattern that line documents. |
| RegexCatalogue.CataloguePatternsDistinct | src/main/java/org/example/textprocessingtool/RegexProcessor.java:82-93 | No two catalogue lines document the same pattern. |
| RegexFeatures.ListToString | src/main/java/org/example/textprocessingtool/RegexProcessor.java:108 | A printed list is bracketed. For a non-empty list, its length is its elements' lengths plus two per element. It reads `[]` exactly for an empty list or a list of one empty string. |
| RegexFeatures.JoinSnoc | src/main/java/org/example/textprocessingtool/RegexProcessor.java:108 | Joining a list with one more element at the end gives the old join, the separator and that element, so elements appear in list order. |
| RegexFeatures.ListToStringSingle | src/main/java/org/example/textprocessingtool/RegexProcessor.java:108 | A list of one element prints as that element in brackets. |
| RegexFeatures.ListToStringSnoc | src/main/java/org/example/textprocessingtool/RegexProcessor.java:108 | A list with one more element at the end prints as the old elements joined by `, `, then `, `, then the new element, in brackets. |
| RegexFeatures.FeatureSummary | src/main/java/org/example/textprocessingtool/RegexProcessor.java:104-118 | `regexFeaturesExamples` returns six lines for every text. Each line is its fixed label followed by the printed `search` result for its fixed pattern. |
| RegexFeatures.FeatureSummaryShape | src/main/java/org/example/textprocessingtool/RegexProcessor.java:108-115 | Every summary line ends with `]`. It is its label followed by `[]` exactly when the search found nothing or only one empty match. |
| TextStatistics.Trim | src/main/java/org/example/textprocessingtool/RegexController.java:252 | `trim` gives a slice of the text. It is empty exactly when every char is at most U+0020, and otherwise starts and ends with a char above U+0020. |
| TextStatistics.TrimIgnoresPadding | src/main/java/org/example/textprocessingtool/RegexController.java:252-255 | Chars up to U+0020 added at either end do not change what `trim` returns. |
| TextStatistics.SplitCountsRuns | src/main/java/org/example/textprocessingtool/RegexController.java:255-256 | On a non-empty trimmed text, `split("\\s+")` yields one piece per maximal run of non-`\s` chars, and there is at least one. |
| TextStatistics.CountWords | src/main/java/org/example/textprocessingtool/RegexController.java:251-257 | `countWords` is 0 exactly for a null text or one blank after `trim`. Otherwise it is the number of maximal non-`\s` runs of the trimmed text, never more than the text's length. |
| TextStatistics.CountWordsIgnoresPadding | src/main/java/org/example/textprocessingtool/RegexController.java:251-257 | Leading or trailing whitespace does not change the word count. |
| TextStatistics.Statistics | src/main/java/org/example/textprocessingtool/RegexController.java:240-248 | The character count is the text's length in UTF-16 code units, as `String.length` counts. The word count is the number of runs in the trimmed text, and it never exceeds the number of chars, which never exceeds the character count. |
| TextStatistics.Utf16LengthFacts | src/main/java/org/example/textprocessingtool/RegexController.java:243 | The UTF-16 length of two texts joined is the sum of their lengths, and it equals the number of chars exactly when no char lies outside the Basic Multilingual Plane. |

## Left out

- Console output (`System.out.println`) is not modelled. The "not found" message of `updatePerson` and `deletePerson` shows up only as the `Status` of `Update` and `Delete`. The "Deleted person" message of `deletePerson` and the "Invalid regex pattern" message that `search` and `replace` print with the `PatternSyntaxException` description are left out.
- `RegexProcessor.Matches`, `RegexProcessor.Search` and `RegexReplace.Replace`: match positions count chars of the model, which are Unicode scalar values, while `Matcher.find` counts UTF-16 code units. Its one-code-unit step past an empty match, which can stop inside a surrogate pair and split it, has no counterpart. For text inside the Basic Multilingual Plane the two agree.
- The `java.util.regex` dialect (compilation, matching, backtracking, `$n` expansion) is a foreign library. It is kept as the `Engine` oracles. `Sound` assumes only that `find` reports a span inside the text, at or after the search position.
- `String.hashCode` arithmetic and `HashSet` bucket layout and iteration order are left out. The hash of a name is a parameter, and the set is a mathematical set keyed by name.
- `RegexReplace.IsValidRegex` carries no contract of its own. `InvalidPatternDegrades` states what it means.
- `RegexCatalogue.RegexExamples` states each line's pattern and description rather than comparing with the twelve string literals as a whole. The literals are split into pattern, padding and description, and the lines are rebuilt from those parts.
- Null names are not modelled: a `null` name would make `equals` and `hashCode` throw. The `getClass()` test of `equals` is left out as well, because only `Person` objects are ever compared.
- The collections `getAllPersons` and `getUniquePersons` return are live aliases of the internal ones. The model returns their contents, and changes made through the alias are not modelled.
- `Person.toString` and the getters and setters are left out. They only format or move a field, and `setAge` is folded into `Update`.
- Ages are Java `int` values (`Int32`). They are stored and compared only, so there is no overflow to model.
- `TextStatistics.Statistics`: a char of the model is a Unicode scalar value, and the character count adds two code units for one outside the Basic Multilingual Plane, as `String.length` does. A Java string holding an unpaired surrogate has no counterpart here, so such texts are not modelled.
- Everything else in `RegexController` is left out: JavaFX event wiring, clipboard, file dialogs and writing, alerts, and `Integer.parseInt` input checks. `TextProcessor` (delegation and printing) and `HelloApplication` (application bootstrap) are left out too.
- `countWords` receives a null text as `None`. The controller itself always passes the text area's string.
