# MyNamalGPA: the GPA calculator and its security helpers in Dafny

This project models two parts of MyNamalGPA, a single-page GPA calculator for
one semester of courses.

**The calculator** (`src/components/GPACalculator.tsx`):
- The grade scale (`GRADES`, the HEC Pakistan letter grades with their stored
  value strings and points) and the course list (`COURSES`, six courses with
  their credit hours).
- The total credits.
- The semester GPA: points times credits over the graded credits, ignoring
  values the table does not know.
- The cumulative GPA, which pools the semester with previously earned credits
  and a previous CGPA.
- The component's state and its handlers: storing a grade, resetting, and the
  two previous-term fields.
- The count of graded courses.

**The security helpers** (`src/lib/security.ts`):
- The manual stage of `sanitizeInput`. DOMPurify is a parameter.
- The prototype-pollution reviver of `safeJSONParse`. `JSON.parse` is a
  parameter.
- `sanitizeForPDF`.
- The hexadecimal fallback of `generateSecureId`.
- The pattern test of `isSafeString`.
- The structural check `validateSharedData`.

Modules, one per file:
- `Wrappers` holds `Option`.
- `GradeScale` holds the grade table and `GRADES.find`.
- `GpaCalculator` holds the aggregation functions, the semester-GPA loop
  (`ComputeSemesterGpa`, proved against `SemesterGpaOf`), and the class
  `Calculator`, whose fields are the component's three pieces of state.
- `JsText` models JavaScript strings as UTF-16 code units. It also holds the
  regular-expression character classes of non-Unicode expressions: ASCII-only
  case folding, `\w` and the `\s`/`trim` whitespace set.
- `InputSanitizer`, `PdfSanitizer`, `JsonTree`, `SharedData`, `SecureId` and
  `SafeString` cover one helper each.

Notes on faithfulness:
- A stored grade is the selector's value string, such as `"3.67"`. The GPA
  reads its points through `GRADES.find` on that string.
- Exact reals stand in for doubles.
- A parsed number field is `Option<real>`, with `None` standing for `NaN`.
- Line 24 of `src/lib/security.ts` replaces each backslash with a single
  backslash. The model keeps that replacement as written and proves it is the
  identity (`InputSanitizer.ReplaceBackslashes`).
- The sanitizer is documented as removing all dangerous content. The code
  does not fully do so: deleting `javascript:` and `on\w+=` in one pass each
  can join the pieces of a new occurrence. That is the second row under
  Findings.
- `validateSharedData` accepts a top-level array, because `typeof []` is
  `'object'` and an array has no `c`, `g` or `s` field. The model keeps this
  (`SharedData.ShapeOfPayload`).
- A read of an own property of a parsed object sees the last member with
  that key, since later duplicate keys overwrite earlier ones (`JsonTree.Get`).
- Each pattern of `isSafeString` is a fresh literal on every call, so the
  `g` flag's `lastIndex` carries nothing from one call to the next. Each
  `test` is modelled as "the expression matches somewhere".

## Model

| member | source | states |
|---|---|---|
| GradeScale.TwoDecimals | src/components/GPACalculator.tsx:12-22 | a stored grade value is four characters with the point in second place |
| GradeScale.TwoDecimalsInjective | src/components/GPACalculator.tsx:12-22 | distinct hundredths give distinct value strings, so a value names one row |
| GradeScale.TableWellFormed | src/components/GPACalculator.tsx:11-23 | eleven rows from A (4.0) to F (0.0); each row's value string is its points to two decimals; points strictly decrease down the table; letters and values are pairwise distinct |
| GradeScale.PointsInRange | src/components/GPACalculator.tsx:11-23 | every row's points lie in [0, 4] |
| GradeScale.FindIn | src/components/GPACalculator.tsx:51 | `find` returns only a row whose value equals the one looked up |
| GradeScale.FindInNone | src/components/GPACalculator.tsx:51 | `find` finds nothing exactly when no row has that value, and what it finds is a row of the table |
| GradeScale.FoundGradeInRange | src/components/GPACalculator.tsx:51-53 | the points a lookup finds lie in [0, 4] |
| GradeScale.FindGradeSound | src/components/GPACalculator.tsx:50-52 | a lookup succeeds exactly for the eleven value strings and never for the empty string |
| GpaCalculator.CoursesHaveCredits | src/components/GPACalculator.tsx:26-33 | every course carries positive credits |
| GpaCalculator.TotalCredits | src/components/GPACalculator.tsx:42 | the course credits add up to 17 |
| GpaCalculator.ComputeSemesterGpa | src/components/GPACalculator.tsx:44-61 | the `forEach` loop's result is the semester GPA; it is absent exactly when no listed course has a known grade; otherwise it lies in [0, 4] and is the graded points over the graded credits |
| GpaCalculator.SumGraded | src/components/GPACalculator.tsx:45-57 | after the `forEach`, `totalPoints` is the sum of grade points times credits and `totalCreditsWithGrades` the sum of credits, both over exactly the courses whose stored value is truthy and found in the table |
| GpaCalculator.AddCourse | src/components/GPACalculator.tsx:48-56 | the `forEach` callback adds exactly the course's grade points times its credits, and its credits, when its stored value is truthy and found in the table, and nothing otherwise |
| GpaCalculator.SemesterGpaOf | src/components/GPACalculator.tsx:44-61 | a present semester GPA lies in [0, 4], and times the graded credits gives the graded points |
| GpaCalculator.Mean | src/components/GPACalculator.tsx:59-60 | no value exactly when the credits are zero; otherwise the value times the credits is the points, and it lies in [0, 4] when the points are at most four per credit |
| GpaCalculator.MatchedCreditsZeroIff | src/components/GPACalculator.tsx:48-59 | the graded credits are zero exactly when no course in the list has a known grade |
| GpaCalculator.NoGradeIffAbsent | src/components/GPACalculator.tsx:44-61 | the semester GPA is `null` exactly when no listed course has a known grade |
| GpaCalculator.PointsWithinCredits | src/components/GPACalculator.tsx:48-57 | the accumulated points lie between 0 and 4 times the accumulated credits |
| GpaCalculator.SemesterGpaFacts | src/components/GPACalculator.tsx:44-61 | the semester GPA is absent exactly when no listed course is graded; when present it lies in [0, 4] and times the graded credits gives the graded points |
| GpaCalculator.GradedCourseGivesGpa | src/components/GPACalculator.tsx:48-60 | one graded listed course is enough for a semester GPA |
| GpaCalculator.UniformGradeGpa | src/components/GPACalculator.tsx:44-61 | when every graded course has the same points, the GPA is those points |
| GpaCalculator.SameGradesSameSums | src/components/GPACalculator.tsx:48-57 | the sums depend only on the grade each course resolves to |
| GpaCalculator.UnknownValueIgnored | src/components/GPACalculator.tsx:49-52 | storing an empty or unknown value gives the same GPA as storing nothing for that code |
| GpaCalculator.ActiveCreditsCoverMatched | src/components/GPACalculator.tsx:74-76 | when every truthy stored value of the listed courses is a table value, `currentCredits` equals the graded credits of the semester GPA |
| GpaCalculator.Cgpa | src/components/GPACalculator.tsx:63-80 | absent exactly when the semester GPA is absent; the semester GPA when either previous field is `NaN` or the previous credits are not positive |
| GpaCalculator.ActiveCredits | src/components/GPACalculator.tsx:74-76 | the `currentCredits` reduce, which counts every truthy stored value, is never below the credits of the courses whose value is found in the table |
| GpaCalculator.CgpaBetween | src/components/GPACalculator.tsx:73-79 | with positive previous credits, the CGPA is present and lies between the previous CGPA and the semester GPA; it equals the semester GPA exactly when the two agree |
| GpaCalculator.MeanBranch | src/components/GPACalculator.tsx:73-79 | with positive previous credits and positive counted credits, the combined value is present, lies between the previous CGPA and the semester GPA, and meets the semester GPA exactly when the previous CGPA does |
| GpaCalculator.CgpaInRange | src/components/GPACalculator.tsx:63-80 | with a previous CGPA in [0, 4] and positive previous credits, the CGPA lies in [0, 4] |
| GpaCalculator.CgpaPooled | src/components/GPACalculator.tsx:73-79 | when every stored value is a known grade, the CGPA is all points (previous and current) over all credits |
| GpaCalculator.PooledWhenCreditsAgree | src/components/GPACalculator.tsx:73-79 | once `currentCredits` equals the graded credits, the CGPA is previous points plus graded points over previous credits plus graded credits, with a positive denominator |
| GpaCalculator.PooledMean | src/components/GPACalculator.tsx:73-79 | when the semester GPA times the counted credits is the semester points, the combined value is the pooled points over the pooled credits |
| GpaCalculator.GradedCountMatchesGpa | src/components/GPACalculator.tsx:92 | for values the selectors can store, the count is the number of graded listed courses; it is at most six; it is zero exactly when the semester GPA is absent |
| GpaCalculator.SelectableKeysGraded | src/components/GPACalculator.tsx:92 | for values the selectors can store, every stored key is the code of a graded listed course and conversely |
| GpaCalculator.GradedCountZeroIff | src/components/GPACalculator.tsx:92 | when the stored keys are the graded codes, there are none exactly when the semester GPA is absent |
| GpaCalculator.StoreSelectable | src/components/GPACalculator.tsx:83 | storing a table value under a listed course makes the GPA present and keeps the map selectable |
| GpaCalculator.StoredValueGraded | src/components/GPACalculator.tsx:83 | a table value stored under a course makes that course graded |
| GpaCalculator.GradedCoursesCount | src/components/GPACalculator.tsx:92 | the number of stored keys is zero exactly when nothing is stored |
| GpaCalculator.Calculator.constructor | src/components/GPACalculator.tsx:38-40 | starts with no grades and both previous fields `NaN`, so no GPA, no CGPA and a count of 0 |
| GpaCalculator.Calculator.HandleGradeChange | src/components/GPACalculator.tsx:82-84 | the map gains or overwrites exactly one key and the previous fields are unchanged; a table value for a listed course makes the GPA present and keeps the map selectable; the count grows by one exactly when the key is new |
| GpaCalculator.Calculator.HandleReset | src/components/GPACalculator.tsx:86-90 | clears the grades and both previous fields, so no GPA, no CGPA and a count of 0 |
| GpaCalculator.Calculator.SetPreviousCredits | src/components/GPACalculator.tsx:222 | sets the previous credits, changing nothing else and leaving the semester GPA as it was |
| GpaCalculator.Calculator.SetPreviousGpa | src/components/GPACalculator.tsx:234 | sets the previous CGPA, changing nothing else and leaving the semester GPA as it was |
| GpaCalculator.Calculator.SemesterGpa | src/components/GPACalculator.tsx:44-61 | the component's semester GPA is absent exactly when no listed course is graded, and otherwise lies in [0, 4] |
| GpaCalculator.Calculator.CurrentCgpa | src/components/GPACalculator.tsx:63-80 | the component's CGPA is absent exactly when its semester GPA is, and is that GPA while a previous field is `NaN` or the previous credits are not positive |
| GpaCalculator.Calculator.GradedCount | src/components/GPACalculator.tsx:92 | the component's count is zero exactly when no grade is stored; for what the selectors store it is at most six and zero exactly when there is no semester GPA |
| InputSanitizer.StripAngles | src/lib/security.ts:21 | the result holds exactly the units of the input other than `<` and `>`, and is shorter unless nothing was removed |
| InputSanitizer.HandlerLength | src/lib/security.ts:23 | a handler match is at least four units: `on` (any case), then only word characters, then a closing `=`; and whenever the text starts with `on`, one or more word characters and `=`, that whole prefix is the match |
| InputSanitizer.DeleteAll | src/lib/security.ts:22-23 | a global deletion never lengthens the text, and a deletion that keeps the length keeps the text |
| InputSanitizer.DeleteAllUnits | src/lib/security.ts:22-23 | a global deletion keeps only units of its input |
| InputSanitizer.DeleteAllUnchangedIff | src/lib/security.ts:22-23 | a global deletion leaves the text unchanged exactly when the pattern does not occur in it |
| InputSanitizer.DeleteShrinks | src/lib/security.ts:22-23 | when the pattern occurs, the deletion makes the text strictly shorter |
| InputSanitizer.Trim | src/lib/security.ts:25 | the result is the slice left after dropping the leading and trailing whitespace; neither of its ends is whitespace |
| InputSanitizer.TrimKeepsAbsence | src/lib/security.ts:25 | trimming cannot create an occurrence of a pattern that the untrimmed text does not contain |
| InputSanitizer.Pass | src/lib/security.ts:21-23 | the three deletions leave no angle bracket and only units of the input |
| InputSanitizer.ReplaceBackslashes | src/lib/security.ts:24 | replacing each backslash with one backslash gives back the input unchanged |
| InputSanitizer.ManualStage | src/lib/security.ts:20-25 | the output has no angle bracket, no whitespace at either end, and only units of DOMPurify's output |
| InputSanitizer.SanitizeInput | src/lib/security.ts:7-26 | an empty input gives an empty result; otherwise the manual-stage guarantees hold for DOMPurify's output |
| InputSanitizer.NestedPatternSurvives | src/lib/security.ts:22 | deleting a pattern whose first unit does not recur, in one pass, turns its nested form back into the pattern |
| InputSanitizer.JavascriptSurvives | src/lib/security.ts:20-25 | as written: `java` + `javascript:` + `script:` comes out of the stage as `javascript:` |
| InputSanitizer.StablePassIsClean | src/lib/security.ts:21-23 | a text that one more pass leaves unchanged holds no angle bracket, no `javascript:` and no `on\w+=` |
| InputSanitizer.Scrub | src/lib/security.ts:21-23 | corrected: repeating the three deletions until a pass changes nothing ends in a text that one more pass leaves unchanged, holding only units of the input |
| InputSanitizer.ScrubbedStage | src/lib/security.ts:20-25 | corrected: besides the single-pass guarantees, the output holds no `javascript:` and no `on\w+=` anywhere |
| InputSanitizer.ScrubbedAgreesWhenOnePassSuffices | src/lib/security.ts:20-25 | where one pass already leaves nothing to delete, the corrected stage returns what the source returns |
| PdfSanitizer.RemoveControls | src/lib/security.ts:78 | the result holds no C0/C1 control unit |
| PdfSanitizer.RemoveControlsUnits | src/lib/security.ts:78 | the result holds exactly the input's units that are not C0/C1 control units |
| PdfSanitizer.EscapeKeepsUnits | src/lib/security.ts:79 | escaping adds only backslashes |
| PdfSanitizer.Escape | src/lib/security.ts:79 | escaping never shortens the text and at most doubles it, since each unit becomes itself or a backslash and itself |
| PdfSanitizer.EscapedParensArePreceded | src/lib/security.ts:79 | every parenthesis of the escaped text has a backslash before it |
| PdfSanitizer.EscapeRoundTrip | src/lib/security.ts:79 | un-escaping the escaped text gives the text back |
| PdfSanitizer.EscapeAppend | src/lib/security.ts:79 | escaping distributes over concatenation |
| PdfSanitizer.Take | src/lib/security.ts:80 | `substring(0, n)` is a prefix of at most n units, the whole text when it fits |
| PdfSanitizer.SanitizeForPdf | src/lib/security.ts:70-81 | empty input gives empty output; the output has at most 100 units, no control unit, and a backslash before every parenthesis; it is a prefix of the escaped cleaned text, and all of it when that fits |
| PdfSanitizer.SanitizedReadsBack | src/lib/security.ts:77-80 | when the escaped text fits in 100 units, un-escaping the output gives the cleaned text |
| PdfSanitizer.TruncationSplitsEscape | src/lib/security.ts:77-80 | as written: 99 `a` then `(` comes out as 99 `a` then a lone backslash, which does not un-escape |
| PdfSanitizer.FitCount | src/lib/security.ts:79-80 | the longest prefix whose escaped form fits the budget |
| PdfSanitizer.SanitizeForPdfWhole | src/lib/security.ts:77-80 | corrected: at most 100 units and no control unit; always un-escapes, to a prefix of the cleaned text; a prefix of the escaped text; agrees with the source whenever the escaped text fits |
| JsonTree.Get | src/lib/security.ts:53 | a read of an own property finds a value exactly when some own member has that key |
| JsonTree.SafeJsonParse | src/lib/security.ts:51-65 | a text that does not parse gives the default value; a parsed text gives the revived tree, which has no `__proto__` or `constructor` key at any depth |
| JsonTree.ReviveIsClean | src/lib/security.ts:53-59 | the revived tree has no forbidden key at any depth |
| JsonTree.ReviveKeepsClean | src/lib/security.ts:53-59 | on a tree without forbidden keys the reviver changes nothing |
| JsonTree.ReviveIdempotent | src/lib/security.ts:53-59 | reviving twice is reviving once |
| JsonTree.ReviveKeepsOtherMembers | src/lib/security.ts:55-58 | after reviving, no own member has a forbidden key; any other key reads, as an own property, the revived original value |
| JsonTree.Revive | src/lib/security.ts:53-59 | scalars pass unchanged; arrays stay arrays of the same length; objects stay objects |
| JsonTree.ReviveItems | src/lib/security.ts:53-59 | an array keeps its length and each element is revived in place |
| JsonTree.ReviveMembers | src/lib/security.ts:55-57 | an object never gains members, and no own member left has the key `__proto__` or `constructor` |
| SharedData.ValidateSharedData | src/lib/security.ts:109-145 | the loops with early returns answer exactly whether the payload is object-like and every element of a `c`, `g` or `s` array is well formed |
| SharedData.ShapeOfPayload | src/lib/security.ts:110 | null, booleans, numbers and strings are rejected; any array is accepted |
| SharedData.NonArrayFieldsSkipped | src/lib/security.ts:115-134 | an object whose `c`, `g` and `s` hold no array is accepted |
| SharedData.OneBadElementRejects | src/lib/security.ts:116-141 | one malformed course, grade or semester rejects the payload |
| SharedData.GetAppend | src/lib/security.ts:112 | a later member with a key overrides the read of that key and leaves the reads of other keys alone |
| SharedData.OtherKeysIgnored | src/lib/security.ts:112-142 | adding a member whose key is not `c`, `g` or `s` does not change the verdict |
| SharedData.ValidationIgnoresReviver | src/lib/security.ts:109-145 | the verdict on a payload equals the verdict on its `safeJSONParse`-revived form |
| SecureId.HexDigit | src/lib/security.ts:103 | each digit is a lower-case hexadecimal digit |
| SecureId.ToRadix16 | src/lib/security.ts:103 | `toString(16)` writes at least one lower-case digit, with no leading zero from 16 on |
| SecureId.ToRadix16Value | src/lib/security.ts:103 | the numeral denotes the number it was written from |
| SecureId.ByteNumeral | src/lib/security.ts:103 | a byte's numeral has one digit below 16 and two from 16 on |
| SecureId.PadStart | src/lib/security.ts:103 | `padStart` keeps the text at the end, fills zeros in front, and reaches the width |
| SecureId.ByteToHex | src/lib/security.ts:103 | each byte becomes exactly two lower-case digits that read back as the byte |
| SecureId.ByteDigits | src/lib/security.ts:103 | the padded numeral of a byte is its high digit and then its low digit |
| SecureId.DigitValue | src/lib/security.ts:103 | reading a lower-case digit gives a value below 16 that writes back as that digit |
| SecureId.HexId | src/lib/security.ts:103 | the identifier has two lower-case digits per byte |
| SecureId.HexIdRoundTrip | src/lib/security.ts:103 | reading the identifier back gives the bytes |
| SecureId.HexIdInjective | src/lib/security.ts:103 | distinct byte arrays give distinct identifiers |
| SecureId.GenerateSecureId | src/lib/security.ts:88-104 | the runtime's UUID when there is one; otherwise 32 characters that read back as the 16 bytes drawn |
| SafeString.AnyMatches | src/lib/security.ts:44 | `some` holds exactly when one of the expressions matches |
| SafeString.Test | src/lib/security.ts:35-44 | a match needs the expression's shortest text: sixteen units for a script block, the whole literal for a fixed text, four units for a handler assignment |
| SafeString.IsSafeString | src/lib/security.ts:31-45 | a non-string is unsafe; a string is safe exactly when none of the six expressions matches it |
| SafeString.TestInContext | src/lib/security.ts:35-42 | what an expression finds in a text it also finds in any text containing it |
| SafeString.HandlerAtOffset | src/lib/security.ts:37 | an `on…=` assignment found in a text is found, at the shifted position, in any text containing it |
| SafeString.SafeStringPieces | src/lib/security.ts:31-45 | every piece of a safe string is safe |
| SafeString.SafeWithoutMarkers | src/lib/security.ts:31-45 | a string with no `<`, `:` or `=` is safe |
| SafeString.NoTagsWithoutAngle | src/lib/security.ts:36-41 | text without `<` matches none of the script, iframe, object and embed expressions |
| SafeString.SanitizedHasNoTags | src/lib/security.ts:31-45 | whatever DOMPurify returns, `sanitizeInput`'s output matches none of the tag expressions |
| SafeString.ScrubbedLeavesOnlySpacedHandlers | src/lib/security.ts:36-41 | after the corrected stage, only the handler expression can match, and only with whitespace before its `=` |

## Left out

- The JSX rendering, the tabs and the grade selectors are not modelled. A stored value is a parameter of `HandleGradeChange`. What the selectors can offer is the predicate `Selectable`.
- `toFixed(2)` display formatting is not modelled.
- The change events of the two number inputs are reduced to their parsed values. `parseFloat` is not modelled: `None` stands for `NaN`.
- IEEE doubles are replaced by exact reals. Rounding in `grade.points * course.credits` and in the divisions is not modelled.
- DOMPurify is a parameter of `SanitizeInput`; its own behaviour is not modelled.
- The non-string branch of `sanitizeInput` and `sanitizeForPDF` is not modelled: the model's inputs are always strings.
- `JSON.parse` itself (the text grammar) and `console.warn` are not modelled. The parse result is a parameter of `SafeJsonParse`.
- `crypto.randomUUID`, `crypto.getRandomValues` and `Math.random` are parameters: the optional UUID and the sixteen bytes drawn. The bytes are `Uint8Array` elements, so any source fits.
- `isClipboardAvailable` reads browser globals and is not modelled.
- SafeString.Test: the script-block expression is modelled by its match condition rather than by a backtracking regular-expression engine. The condition is an opening `<script` at a word boundary and a later `</script>`. The reduction is argued in the comment on `ScriptBlockAt`, not derived.
- JsText.Fold: case-insensitive matching folds ASCII letters only. This agrees with non-Unicode JavaScript expressions for the ASCII patterns used here.
- Properties inherited from `Object.prototype` are not modelled: `JsonTree.Get` reads own members only, so on a revived object `constructor` and `__proto__` read as absent where JavaScript finds the inherited `Object` and `Object.prototype`. The validator reads only `c`, `g`, `s`, `n`, `cr` and `i`, none of them inherited, so its verdict is unaffected.
- The context files (landing pages, routing, the local-storage hook) are not part of this model.

## Findings

| source | as written | input that shows it | evidently intended | confidence | as-written member | corrected member |
|---|---|---|---|---|---|---|
| src/lib/security.ts:77-80 | control units are removed and `(`, `)`, `\` are escaped, and only then is the text cut to 100 units, so the cut can fall between a backslash and the character it escapes | 99 × `a` followed by `(`: the output is 99 × `a` and a lone trailing backslash, which escapes whatever follows it in the PDF string | the output never ends inside an escape sequence, so it always un-escapes to a prefix of the cleaned text | not executed | PdfSanitizer.TruncationSplitsEscape | PdfSanitizer.SanitizeForPdfWhole |
| src/lib/security.ts:22 | `javascript:` is deleted in one left-to-right pass, so deleting an inner occurrence can join the surrounding text into a new one | `java` + `javascript:` + `script:`: the output is `javascript:` | the output contains no `javascript:` (and no `on\w+=`) | not executed | InputSanitizer.JavascriptSurvives | InputSanitizer.ScrubbedStage |
