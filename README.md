# A verified model of the MathALEA proof-of-concept page's string logic

The page `poc-v2.html` loads an index of MathALEA exercises, generates one exercise
at a time, renders its LaTeX-flavoured statement as HTML, builds a form for the
exercise's parameters and checks the pupil's answers. This project models the parts
of its two scripts that decide what text ends up on the page and whether an answer
is right. It then proves what those parts promise.

- **Legacy LaTeX normaliser** (`normalizeLegacyLatex`, js/exercise-utils.js).
  `\begin{enumerate}` and `\begin{itemize}` environments become `<ol>`/`<ul>` lists:
  the body is split on the item marker, each segment is trimmed, and empty segments
  are dropped. Left-over spacing markers then become a `<div>` and left-over item
  markers a bullet. Every global, case-insensitive regular expression is written
  out as a `Pattern`, and the JavaScript `replace`/`split` scans over it are
  modelled character by character (modules `LegacyLatex`, `LegacyLatexFacts`,
  `LegacyLatexScans`, `LegacyLatexLists`, `LegacyLatexFinding`). Each scan tries
  the expression where the text left over begins: on a match it emits the
  replacement and goes on after the match, otherwise it copies one character
  and goes on after it. This is the same as a scan over the whole text because
  none of the expressions looks behind the position it starts at.
- **Parameter form fields** (`escapeHtml`, `formatText` and the `fields` derivation of
  `renderExerciseParameters`, js/exercise-utils.js). This covers HTML escaping, the
  line-feed-to-`<br>` formatting, the parsing of a `besoinFormulaire…` key, the choice
  of its `sup…` companion key, and the value, helper and label a field shows
  (module `ExerciseParameters`).
- **Answer checking** (js/poc-v2.js). Covered: `normalizeTextValue`, the correctness
  test of `validateAnswer`, `normalizeAnswerNode` (a collector object whose arrays
  are pushed in place, modelled as the class `AnswerCollector`) and
  `extractExpectedAnswer` (module `AnswerCheck`).
- **Exercise catalogue** (js/poc-v2.js). Covered: `hasMathaleaCode` with its lazily
  filled cache (class `CodeRegistry`), `resolveExerciseCode`, and the `currentIndex`
  cursor and `currentCode` that `generateNewExercise` updates (class
  `ExerciseSession`) (module `ExerciseCatalogue`).

JavaScript values are the datatype `JsValue.Value`. Its constructors are undefined,
null, booleans, numbers (kept as their decimal text), strings, arrays and objects
(an ordered list of own properties). `Text` holds the ECMAScript white-space set,
ASCII case folding for the `i` flag, `trim`, `join` and single-character
replacement.

The normaliser at js/exercise-utils.js:30-66 has exactly five passes: the numbered
list environment, the bulleted list environment, the spacing opener, the spacing
closer and the item marker. It does not recurse; a list nested in another list is
converted because the numbered pass runs first. Its regular-expression literals
(lines 38, 39, 42, 58, 61, 63) look for two backslashes, while the environment
expression at line 35 looks for one; both readings are modelled (see Findings).

## Model

| member | source | states |
|---|---|---|
| LegacyLatex.Match | js/exercise-utils.js:35-63 | A match of a normaliser pattern at i ends after its leading text and within the string. |
| LegacyLatex.MatchFacts | js/exercise-utils.js:38-63 | A match starts with the pattern's text. A literal match is exactly that text. A pattern without braces matches wherever its text occurs (case-insensitively). A braced match ends with the closing text and holds no `}` before it (`[^}]*`). |
| LegacyLatex.SkipSpaces | js/exercise-utils.js:42 | Greedy `\s*` stops inside the string. |
| LegacyLatex.SkipSpacesFacts | js/exercise-utils.js:42 | Greedy `\s*` passes over white space only and stops at the first other character. |
| LegacyLatex.EnvAtFacts | js/exercise-utils.js:35 | The environment expression matches exactly when `\begin{env}` is at i and an end marker follows. The lazy body then ends at the first `\end{env}`. |
| LegacyLatex.FindFromFacts | js/exercise-utils.js:35 | The lazy `[\s\S]*?` search finds the first occurrence of the end marker, or reports that none exists. |
| LegacyLatex.SplitFrom | js/exercise-utils.js:42 | `split` always yields at least one segment. |
| LegacyLatex.TrimEach | js/exercise-utils.js:43 | Each segment is replaced by its trim, in order. |
| LegacyLatex.DropEmpty | js/exercise-utils.js:44 | `filter(Boolean)` keeps exactly the non-empty strings and nothing else. |
| LegacyLatex.DropEmptyAppend | js/exercise-utils.js:44 | Filtering a concatenation filters each part and concatenates the results, so the kept strings stay in order and repeated ones are all kept. |
| LegacyLatex.DropEmptySingle | js/exercise-utils.js:44 | One string is kept exactly when it is not empty. |
| LegacyLatex.NormalizeLegacyLatex | js/exercise-utils.js:30-31 | Empty content gives the empty string. |
| LegacyLatexFacts.Passthrough | js/exercise-utils.js:30-66 | Content holding none of the markers comes back unchanged. |
| LegacyLatexFacts.PlainTextPassthrough | js/exercise-utils.js:30-66 | Content without a backslash comes back unchanged, in both dialects. |
| LegacyLatexFacts.ReplaceAbsent | js/exercise-utils.js:57-63 | A global replace whose pattern does not occur leaves the text unchanged. |
| LegacyLatexFacts.ReplaceSkip | js/exercise-utils.js:57-63 | A global replace copies, unchanged, any text in which no match starts, and goes on over what follows. |
| LegacyLatexFacts.ConvertAbsent | js/exercise-utils.js:33-35 | `convertListEnv` leaves text without `\begin{env}` unchanged. |
| LegacyLatexFacts.ConvertSkip | js/exercise-utils.js:33-35 | `convertListEnv` copies, unchanged, any text in which no `\begin{env}` starts, and goes on over what follows. |
| LegacyLatexFacts.SplitRoundTrip | js/exercise-utils.js:42 | The segments of `split`, with the cut-out separators put back between them, give the text back. |
| LegacyLatexFacts.SplitSegmentsFree | js/exercise-utils.js:42 | No segment of a split holds the separator. |
| LegacyLatexFacts.DropEmptyTrimCount | js/exercise-utils.js:43-44 | Trimming and then dropping empty strings keeps as many entries as there are non-blank segments. |
| LegacyLatexFacts.ItemsFacts | js/exercise-utils.js:37-44 | The number of list items is the number of non-blank segments between item markers. Every item is non-empty, trimmed at both ends and free of the item marker. |
| LegacyLatexFacts.BlankBodyHasNoItems | js/exercise-utils.js:37-44 | A blank body has no items. |
| LegacyLatexFacts.BlankBodyGivesEmptyList | js/exercise-utils.js:45-47 | A blank body gives an empty list element, not nothing. |
| LegacyLatexFacts.ListHtmlShape | js/exercise-utils.js:45-49 | The empty-list special case writes the same text as the general case: open tag, one `<li>` per item, close tag. |
| LegacyLatexFacts.ReplacedLiteralGone | js/exercise-utils.js:61-63 | After a global replace by text that shares no character with the marker, the marker occurs nowhere. |
| LegacyLatexFacts.ReplaceKeepsAbsent | js/exercise-utils.js:61-63 | A global replace does not create an occurrence of a text that was absent, when the replacement shares no character with it. |
| LegacyLatexFacts.NoMarkerLeftBehind | js/exercise-utils.js:61-63 | The normalised text contains no spacing-end marker and no item marker, for any input and in both dialects. |
| LegacyLatexScans.LeadFreeInContext | js/exercise-utils.js:33-63 | Text in which no marker starts stays so whatever is written after the marker. |
| LegacyLatexScans.PlainLeadFree | js/exercise-utils.js:33-63 | No marker starts in text without backslashes. |
| LegacyLatexScans.FollowerLeadFree | js/exercise-utils.js:33-63 | No marker starts in text whose every backslash is followed by a character other than the marker's second one, so other LaTeX commands may come before it. |
| LegacyLatexScans.ItemMarkerFirst | js/exercise-utils.js:63 | An item marker at the start becomes `<br>• `, and the white space after it is dropped. |
| LegacyLatexScans.ItemMarkerBecomesBullet | js/exercise-utils.js:63 | For any text before the first item marker and any text after it: the text before is kept, the marker becomes `<br>• `, the white space after it is dropped, and the rest is rewritten the same way, so every item marker is replaced. |
| LegacyLatexScans.SpacingMatchFirst | js/exercise-utils.js:58 | The spacing expression matches an opener at the start with any ratio free of `}`, and ends right after the ratio's closing brace. |
| LegacyLatexScans.SpacingOpenFirst | js/exercise-utils.js:57-60 | A spacing opener with its ratio at the start becomes the fixed `<div>`. |
| LegacyLatexScans.SpacingOpenBecomesDiv | js/exercise-utils.js:57-60 | For any text before the first spacing opener and any text after it: the text before is kept, the opener with its ratio becomes the fixed `leading-relaxed` `<div>` whatever the ratio, and the rest is rewritten the same way, so every opener is replaced. |
| LegacyLatexScans.EnvironmentFirst | js/exercise-utils.js:33-51 | An environment at the start becomes the list element of its body, and the text after it is converted on its own. |
| LegacyLatexScans.SingleEnvironment | js/exercise-utils.js:33-51 | For any text before the first `\begin{env}` and any text after the first `\end{env}` that follows it: the text before is kept, the environment becomes the list of its body's items, and the rest is converted the same way. |
| LegacyLatexLists.PlainBodyItems | js/exercise-utils.js:37-44 | A body without markers is one item (its trim), or none when it is blank. |
| LegacyLatexLists.NumberedListPipeline | js/exercise-utils.js:53-65 | On a numbered list with marker-free surroundings only the first pass changes anything. |
| LegacyLatexLists.PlainNumberedList | js/exercise-utils.js:30-66 | The whole normaliser turns such a list into `<ol class="list-decimal ml-6 space-y-1">` holding one `<li>` with the trimmed body, or nothing when the body is blank. The text around the list is kept. |
| LegacyLatexLists.PipelineAfterPlainSecondPass | js/exercise-utils.js:57-65 | When the two list passes leave no backslash, the three later passes change nothing. |
| LegacyLatexLists.BulletedHasNoNumbered | js/exercise-utils.js:33-35 | A bulleted list with marker-free surroundings holds no `\begin{enumerate}`, so the numbered pass leaves it alone. |
| LegacyLatexLists.BulletedListPipeline | js/exercise-utils.js:53-65 | On a bulleted list with marker-free surroundings only the second pass changes anything. |
| LegacyLatexLists.PlainBulletedList | js/exercise-utils.js:30-66 | The whole normaliser turns such a list into `<ul class="list-disc ml-6 space-y-1">` holding one `<li>` with the trimmed body, or nothing when the body is blank. The text around the list is kept. |
| LegacyLatexLists.NestedFirstPass | js/exercise-utils.js:33-53 | The numbered pass converts a numbered list nested in a bulleted one and leaves the bulleted markers around it in place. |
| LegacyLatexLists.WholeBulletedPass | js/exercise-utils.js:33-54 | A bulleted environment that is the whole text becomes its list element. |
| LegacyLatexLists.NestedListPipeline | js/exercise-utils.js:30-66 | A numbered list nested in a bulleted one becomes an `<ol class="list-decimal ml-6 space-y-1">` inside the single `<li>` of a `<ul class="list-disc ml-6 space-y-1">`, with the text around it in that `<li>`. This is because the numbered pass runs first. |
| LegacyLatexFacts.RestOfPipeline | js/exercise-utils.js:55-63 | Passes 2 to 5 leave a marker-free result of the first pass unchanged. |
| LegacyLatexFacts.SplitAbsent | js/exercise-utils.js:42 | `split` on a separator that does not occur yields the whole text. |
| LegacyLatexFinding.AsWrittenListIsOneItem | js/exercise-utils.js:35-63 | As written, a list whose backslashes are all single `\item` markers becomes one `<li>` that holds the raw body. |
| LegacyLatexFinding.AsWrittenKeepsItemsTogether | js/exercise-utils.js:35-44 | As written, a two-entry generator list stays one item that holds both `\item` markers. |
| LegacyLatexFinding.CorrectedSplitOfGeneratorBody | js/exercise-utils.js:42 | With the single-backslash marker, the generator body splits into `""`, the first entry and the second. |
| LegacyLatexFinding.CorrectedItemsOfGeneratorBody | js/exercise-utils.js:37-44 | With the single-backslash marker, the two entries are the list's items. |
| LegacyLatexFinding.CorrectedSplitsItems | js/exercise-utils.js:30-66 | Corrected, a two-entry generator list becomes an `<ol>` with one `<li>` per entry. |
| ExerciseParameters.EscapeStringIsPerChar | js/exercise-utils.js:167-173 | The five chained replacements escape each character on its own, so no entity is escaped twice. |
| ExerciseParameters.EscapeRoundTrip | js/exercise-utils.js:167-173 | Decoding the five entities gives back the original text. |
| ExerciseParameters.EscapeHtmlClean | js/exercise-utils.js:167-173 | Escaped text holds no raw `<`, `>`, `"` or `'`. |
| ExerciseParameters.FormatTextIsPerChar | js/exercise-utils.js:175 | `formatText` escapes each character and turns each line feed into `<br>`. No line feed is left. |
| ExerciseParameters.DigitRun | js/exercise-utils.js:178 | `\d*` consumes the longest run of digits. |
| ExerciseParameters.KindAt | js/exercise-utils.js:178 | The kind alternation matches one of `Texte`, `Numerique`, `CaseACocher` (case-insensitively) and returns it as spelled in the key, or reports that none matches. |
| ExerciseParameters.ParseKeyOf | js/exercise-utils.js:178 | A key spelled from digits and a kind word, followed by anything, parses back to exactly those captures. |
| ExerciseParameters.ParsedKeyShape | js/exercise-utils.js:178 | A successful parse means the key starts with the prefix, digits copied from the key, and a kind word. |
| ExerciseParameters.AsWrittenSupKeyCollides | js/exercise-utils.js:179-183 | As written, a digit-less parameter and parameter 1 both read `sup1`, and no parameter ever reads `sup`. |
| ExerciseParameters.CorrectedSupKeyDistinct | js/exercise-utils.js:179-183 | Corrected, two parameters share a `sup` key exactly when their digits agree, and only the digit-less one reads `sup`. |
| ExerciseParameters.FirstBool | js/exercise-utils.js:194 | `find` of a boolean returns the first boolean entry of the array: no entry before it is a boolean. Otherwise it reports that none is boolean. |
| ExerciseParameters.FirstStringFrom | js/exercise-utils.js:197 | `find` of a string after index 0 returns the first string entry from that index on: no entry between the index and it is a string. Otherwise it reports that none exists. |
| ExerciseParameters.ParameterKeysExact | js/exercise-utils.js:163-164 | A key is listed exactly when it is an own key with the `besoinFormulaire` prefix and a truthy value. |
| ExerciseParameters.ParameterKeysListed | js/exercise-utils.js:163-164 | Every listed key is a parameter key, and every parameter key is listed. |
| ExerciseParameters.FieldsOfKeys | js/exercise-utils.js:177-218 | A field list derived key by key has one field per listed key, covers every parameter key, and shows only defined values, booleans for checkboxes and boolean parameters. |
| ExerciseParameters.Fields | js/exercise-utils.js:163-218 | There is one field per parameter key, in the listed order, and every parameter key has a field. Every value is defined, and a checkbox array or boolean parameter shows a boolean. |
| ExerciseParameters.FieldOfUnmatchedKey | js/exercise-utils.js:178-207 | A key the expression does not match gets kind `Texte` and no `sup` key. A checkbox-named array shows its first boolean (or the truthiness of its second entry) and is labelled by its first string entry. Another array shows its first entry (or `""`), its second string entry as helper, and the label `Paramètre`. Any other value shows as itself (or `""`), with label `Paramètre` and no helper. |
| ExerciseParameters.FieldOfMatchedKey | js/exercise-utils.js:178-193 | A matched key gets the captured kind and the label `Paramètre N`, where N is its digits or 1, unless a checkbox array names the label. |
| ExerciseParameters.FieldValueDefined | js/exercise-utils.js:191-207 | A field's value is never null or undefined. A checkbox array or a boolean parameter always shows a boolean. |
| ExerciseParameters.FieldPrefersSupValue | js/exercise-utils.js:199-206 | A present, non-null `sup` value wins over a text or number parameter's default. |
| ExerciseParameters.FieldFallsBackToDefault | js/exercise-utils.js:198-201 | Without its `sup` key, an array parameter that is not a checkbox shows its first entry, or `""`. |
| ExerciseParameters.AsWrittenIgnoresCurrentValue | js/exercise-utils.js:179-201 | As written, `besoinFormulaireNumerique` with current value 2 in `sup` shows its default instead. |
| ExerciseParameters.CorrectedShowsCurrentValue | js/exercise-utils.js:179-201 | Corrected, the same parameter shows its current value 2. |
| AnswerCheck.CollapseSpaces | js/poc-v2.js:312 | After `replace(/\s+/g, " ")` every white space is a single space followed by a non-space. The non-space characters are kept in order, emptiness is preserved, and a leading run of white space becomes one space. |
| AnswerCheck.CollapseAppend | js/poc-v2.js:312 | The replace works run by run: a text cut right after a character that is not white space collapses as its two parts do. |
| AnswerCheck.CollapseWhiteRun | js/poc-v2.js:312 | A non-empty run of white space, up to the next other character, becomes exactly one space. |
| AnswerCheck.CollapseBetween | js/poc-v2.js:312 | A white-space run between two other characters stays as one space between the collapsed texts on either side, so `1  000` and `1000` stay different. |
| AnswerCheck.NormalizeTextValue | js/poc-v2.js:309-310 | Null and undefined normalise to the empty string. |
| AnswerCheck.NormalizedShape | js/poc-v2.js:309-315 | A normalised text has no comma, only single spaces between other characters, and no white space at either end. |
| AnswerCheck.NormalizeIdempotent | js/poc-v2.js:309-315 | Normalising a normalised text changes nothing. |
| AnswerCheck.NormalizeCommaAsPoint | js/poc-v2.js:309-315 | A decimal comma and a decimal point normalise alike. |
| AnswerCheck.NothingExpectedNeverCorrect | js/poc-v2.js:361-363 | When both the expected value and the display normalise to nothing, no input is right. |
| AnswerCheck.ExpectedValueAccepted | js/poc-v2.js:361-363 | A non-blank expected value is accepted as typed, in its normal form, and with decimal points. |
| AnswerCheck.CorrectnessUpToNormalForm | js/poc-v2.js:361-363 | Two inputs with the same normal form are judged alike. |
| AnswerCheck.CorrectIsNotBlank | js/poc-v2.js:361-363 | A right input is not blank. It matches the value, or the display when the value is blank. |
| AnswerCheck.Push | js/poc-v2.js:244-251 | `pushValue` adds at most one value and one display. |
| AnswerCheck.AnswerCollector.PushValue | js/poc-v2.js:244-251 | Appends `String(value)` and `String(display)` when each is neither nullish nor `""`. |
| AnswerCheck.AnswerCollector.NormalizeNode | js/poc-v2.js:235-291 | The recursive method with its array loop appends exactly what the tree flattens to, to both lists. |
| AnswerCheck.AnswerCollector.NormalizeObject | js/poc-v2.js:258-287 | The object branches append what the first present key selects. |
| AnswerCheck.AnswerCollector.NormalizeChild | js/poc-v2.js:259-270 | Descending into `value`, `valeur` or `display` appends that child's strings. |
| AnswerCheck.FlattenArrayAppend | js/poc-v2.js:253-256 | An array contributes its elements' strings left to right: a concatenated array flattens to the two parts in order. |
| AnswerCheck.ValueKeyWins | js/poc-v2.js:259-260 | An object with a `value` key is read through that key alone. |
| AnswerCheck.TexteIsValueAndDisplay | js/poc-v2.js:263-264 | A textual `texte` is pushed as both value and display. |
| AnswerCheck.PrimitiveHasNoDisplay | js/poc-v2.js:289 | A bare number, string or boolean is a value with no display. |
| AnswerCheck.RangeOfStrings | js/poc-v2.js:271-277 | With string bounds: nothing when both are empty, the one non-empty bound alone, or both joined by ` – `. |
| AnswerCheck.RangeOfBounds | js/poc-v2.js:271-277 | For bounds of any kind, read through `min ?? minValue ?? ""` and `max ?? maxValue ?? ""`: nothing when both are `""`, the one other bound's text alone, or both texts joined by ` – `. |
| AnswerCheck.PlainLeavesPushNonEmpty | js/poc-v2.js:244-289 | A tree with plain leaves never collects an empty string. |
| AnswerCheck.EmptyArrayTextePushesEmpty | js/poc-v2.js:245-246 | An empty array under `texte` pushes `""` as value and as display, because `pushValue` tests the raw value, not its text. |
| AnswerCheck.Assemble | js/poc-v2.js:299-301 | The assembled value and display have no white space at either end. |
| AnswerCheck.ExtractExpectedAnswer | js/poc-v2.js:293-296 | A falsy correction expects two empty strings. |
| AnswerCheck.DisplayFallsBackToValue | js/poc-v2.js:300-301 | With no display collected, the display is the value. |
| AnswerCheck.StringAnswerExpected | js/poc-v2.js:293-306 | A `reponse` that is a plain string is expected, trimmed, as both value and display. |
| AnswerCheck.ExtractExpected | js/poc-v2.js:293-307 | Running the collector over `corr.reponse ?? corr` and joining gives the specified expected answer. |
| ExerciseCatalogue.CodeRegistry.constructor | js/poc-v2.js:22 | The cache starts empty. |
| ExerciseCatalogue.CodeRegistry.Has | js/poc-v2.js:39-59 | An empty code is unknown. An empty cache is first filled with the registry, and a registry code missing from the cache is added. While the cache holds registry codes only, the answer is exactly "in the registry". |
| ExerciseCatalogue.FirstDigit | js/poc-v2.js:70-71 | `match(/(\d)/)` finds the first digit of the text: no character before it is a digit. Otherwise it reports that the text has none. |
| ExerciseCatalogue.BlankCodeResolvesEmpty | js/poc-v2.js:62-63 | A missing, non-string or blank code resolves to `""`. |
| ExerciseCatalogue.KnownCodeKept | js/poc-v2.js:65-67 | A registry code is kept, trimmed. |
| ExerciseCatalogue.LegacyCodeCorrected | js/poc-v2.js:69-83 | An unknown code is rewritten exactly when it has the `e…` shape, the level has a digit, and digit + rest is a registry code. The rewrite is then that code. |
| ExerciseCatalogue.ResolveChangesFirstCharOnly | js/poc-v2.js:61-84 | Resolution keeps the length and all but the first character. A changed code is always a registry code. |
| ExerciseCatalogue.ResolveIdempotent | js/poc-v2.js:61-84 | Resolving a resolved code gives it back. |
| ExerciseCatalogue.Resolve | js/poc-v2.js:61-84 | Resolving through the cache gives the specified result and keeps the cache within the registry. |
| ExerciseCatalogue.InRangeCursor | js/poc-v2.js:132-134 | The reset cursor lies inside the list, and an in-range cursor is kept. |
| ExerciseCatalogue.FindEntry | js/poc-v2.js:140-142 | `findIndex` returns the first entry whose resolved or original code is the requested one, or reports that none is. |
| ExerciseCatalogue.CursorStaysInRange | js/poc-v2.js:132-225 | With a non-empty list the cursor always ends inside it, however the call ends. |
| ExerciseCatalogue.EmptyListChangesNothing | js/poc-v2.js:115-118 | With no list nothing changes. |
| ExerciseCatalogue.UnknownCodeKeepsCursor | js/poc-v2.js:139-146 | An unknown requested code stops the call. The cursor stays as it was, reset only when out of range, and the current code is untouched. |
| ExerciseCatalogue.CursorAfterGeneration | js/poc-v2.js:221-225 | A generation moves the cursor just past the entry it used, or back to where it was when `preserveIndex` is set. Other outcomes leave it where the range check put it. |
| ExerciseCatalogue.PlainStep | js/poc-v2.js:136-222 | A call without argument generates the entry under the cursor and moves on, wrapping at the end. |
| ExerciseCatalogue.RoundRobin | js/poc-v2.js:221-222 | Calls without argument walk the list in order: k calls move the cursor k places before the end. |
| ExerciseCatalogue.WrapsToStart | js/poc-v2.js:222 | Generating the last entry sends the cursor back to the first. |
| ExerciseCatalogue.FullRoundReturns | js/poc-v2.js:221-222 | After as many calls as there are entries, the cursor is back where it started. |
| ExerciseCatalogue.ExerciseSession.constructor | js/poc-v2.js:12-14 | The list is stored, the cursor starts at 0 and the current code is null. |
| ExerciseCatalogue.ExerciseSession.GenerateNewExercise | js/poc-v2.js:109-230 | The call leaves the cursor, current code and outcome that the step function specifies, and the list unchanged. The cursor ends inside a non-empty list. |

## Left out

- The DOM, KaTeX rendering, the floating console, the form's HTML, `setFieldValidationState` and the result markers are not modelled. Those functions only display things.
- `fetch` of the exercise index and the JSON parsing of it are left out (network I/O). `loadExerciseList` appears only as the `resolvedCode` stored in each `Entry`.
- MathALEA itself is not modelled. The registry is given as the set of its keys whose entry has a `default` class (`catalogue`, `classes`). Instantiating an exercise, `reinit`, `applyNewSeed` and `nouvelleVersion` are not modelled. Whether building or rendering throws is the `fails` parameter.
- The random seed (`Math.random`) and the `exerciseOverrides` store are left out: they do not affect the cursor or the current code.
- `registerExistingMathaleaCodes`'s `try`/`catch` around a throwing registry is not modelled.
- The `localeCompare` numeric sort of the parameter keys (js/exercise-utils.js:165) is left out: locale collation cannot be expressed without the host's collation tables. `Fields` keeps property order. Every per-field property holds whatever the order.
- `JSON.stringify` is the parameter `serialize`. `None` stands for an exception.
- Number-to-string conversion is not modelled. A number is held as its decimal text, so `String(n)` is that text.
- Object identity is not modelled. The `node.value !== node` self-reference tests cannot fail on a finite tree, and cyclic answer objects are not representable.
- Inherited properties are not modelled: `in` is read on own properties only. Array holes are not modelled either.
- Case-insensitive matching folds ASCII letters only. This is exact for the ASCII patterns of the normaliser and the parameter key. Unicode case folding beyond that is not modelled.
- JavaScript strings are sequences of UTF-16 code units; the model's strings are sequences of Dafny `char`s (Unicode scalar values). Lone surrogates cannot be represented, and a character outside the Basic Multilingual Plane counts as one position where JavaScript counts two; this changes no result here because every marker, separator and trimmed character is in the Basic Multilingual Plane.
- ExerciseCatalogue.RoundRobin: states the cursor only while no wrap-around happens. The wrap is covered separately by WrapsToStart and FullRoundReturns.
- ExerciseParameters.FieldOfMatchedKey: states the label only when no checkbox array supplies one. The checkbox label is left to `ShownValue`'s definition.

## Findings

| source | as written | input that shows it | evidently intended | confidence | as-written member | corrected member |
|---|---|---|---|---|---|---|
| js/exercise-utils.js:38-63 | The regex literals look for `\\item`, `\\begin\{spacing\}\{…\}` and `\\end\{spacing\}`, all with two backslashes. The environment expression at line 35, built from a template literal, looks for `\begin{env}` with one. | `\begin{enumerate}\item A\item B\end{enumerate}` becomes one `<li>` holding `\item A\item B` | The same single-backslash markers the generators write, giving `<li>A</li><li>B</li>` | not executed | LegacyLatexFinding.AsWrittenKeepsItemsTogether | LegacyLatexFinding.CorrectedSplitsItems |
| js/exercise-utils.js:179-185 | `index` is `match[1] \|\| "1"`, so it is never empty and the `"sup"` branch of `supKey` is dead. A digit-less parameter reads `sup1`. | `besoinFormulaireNumerique: ["Niveau", 3]` with `sup: 2` shows `Niveau` instead of 2 | The digit-less parameter reads `sup`, where MathALEA keeps the first parameter's current value | not executed | ExerciseParameters.AsWrittenIgnoresCurrentValue | ExerciseParameters.CorrectedShowsCurrentValue |
