# grunt-IntlXml lint core in Dafny

grunt-IntlXml checks XML templates for text that has not been internationalised. Its
`intlxml` task works in four steps:

1. The parser turns each document into a tree of arrays, objects and strings.
2. `getLeaves`/`processFile` collects every string in the tree. It skips the ignored tags
   `g:evaluate`, `script` and `g2:evaluate`, and the attribute key `$`.
3. `evaluateText` trims each collected string. It keeps the ones that `stringIsLegal`
   rejects. A string is legal when it has no ASCII letter, or when it is only a `{{…}}`
   placeholder or a `${…}` interpolation once punctuation and `$[SP]` markers are peeled
   off.
4. `process` counts the documents that reported at least one string and turns the count
   into the outcome code: 0 when nothing failed, 1 when something did.

The model has eight modules, one per file:

- `Text` models the `[a-zA-Z]` character class, `charAt` and `String.prototype.trim`. Trim
  uses the exact ECMAScript WhiteSpace and LineTerminator set.
- `Document` holds the parsed tree: `Str | Arr | Obj(ordered fields) | Scalar`. It also
  holds the ignore list, the attribute key and the decimal index keys that `for…in`
  yields over an array.
- `Collector` has `Leaves`/`Walk`, the specification of the walk. The methods
  `GetLeaves`, `GetItemLeaves`, `GetFieldLeaves`, `VisitProperty`, `GetCharLeaves` and `ProcessFile`
  follow the source's loops and recursion.
- `Classifier` has `IsLegal`, which tries the rules in the source's order. Its lemmas
  prove that markers and plain padding are transparent.
- `Sequences` has an order-preserving filter and "some element satisfies" over sequences,
  with generic lemmas about them.
- `Evaluator` has `Failures` and the loop `EvaluateText`.
- `Batch` covers per-document evaluation, the per-group failure count and the outcome
  code. It gives the code both as written and as evidently intended (see Findings).
- `Scenarios` checks worked cases against the definitions above.

Behaviours of `tasks/IntlXml.js` that are easy to misread:

- Letters are ASCII only (`[a-zA-Z]`), not alphabetic characters in general.
- A document root that is a string is enumerated character by character. This is what
  `for…in` does over a string.
- The leading peel also refuses a `$` before `{` (tasks/IntlXml.js:78). That case cannot
  arise: rule 3 has already returned true for a string that starts with `${`.
- Only the last file group is evaluated (tasks/IntlXml.js:103).

## Model

| member | source | states |
|---|---|---|
| Document.IndexNeverIgnored | tasks/IntlXml.js:23-37 | The key `for…in` yields for any array index never matches an ignored tag, so the ignore check on array elements never skips one. |
| Collector.GetLeaves | tasks/IntlXml.js:34-55 | Walking any node appends exactly that node's collected strings to what was already collected. |
| Collector.GetItemLeaves | tasks/IntlXml.js:35-42 | An array contributes its elements in index order: a string element directly, any other element by walking it. |
| Collector.GetFieldLeaves | tasks/IntlXml.js:43-54 | An object contributes its properties in key order. Ignored tags and `$` contribute nothing, object and array values are walked, string values are appended, other values are dropped. |
| Collector.VisitProperty | tasks/IntlXml.js:45-52 | One property appends nothing when its key is an ignored tag or `$`; otherwise it appends the collected strings of its value, which is the value itself for a string and nothing for null, numbers and booleans. |
| Collector.GetCharLeaves | tasks/IntlXml.js:43-54 | A string walked as an object contributes each of its characters as a one-character string, in order. |
| Collector.ProcessFile | tasks/IntlXml.js:31-60 | A document's text list starts empty and is exactly the walk of its root. For any root other than a string this equals the root's collected strings, and an undefined root yields nothing. |
| Collector.ItemLeavesMember | tasks/IntlXml.js:35-42 | A string is collected from an array iff it is collected from one of its elements. |
| Collector.FieldLeavesMember | tasks/IntlXml.js:43-54 | A string is collected from an object iff it is collected from the value of one of its properties whose key is neither ignored nor `$`. |
| Collector.ReachableIsCollected | tasks/IntlXml.js:34-55 | Every string reached by a path through array indices and non-skipped properties is collected. |
| Collector.CollectedIsReachable | tasks/IntlXml.js:34-55 | Every collected string is reached by such a path. |
| Collector.LeavesAreReachableStrings | tasks/IntlXml.js:34-55 | A string is collected iff some path that never passes an ignored tag or `$` leads to it. |
| Collector.ItemLeavesAppend | tasks/IntlXml.js:35-42 | Collecting from the elements `a + b` gives `a`'s strings followed by `b`'s. |
| Collector.FieldLeavesAppend | tasks/IntlXml.js:43-54 | Collecting from the properties `a + b` gives `a`'s strings followed by `b`'s. |
| Collector.SkippedPropertyInvisible | tasks/IntlXml.js:45-47 | A property under an ignored tag or `$`, at any position and whatever its content, leaves the object's collected strings unchanged. |
| Text.Trim | tasks/IntlXml.js:88 | `trim()` drops leading, then trailing, ECMAScript whitespace and line terminators; `TrimIsInfix` pins its result down as the unique infix with only whitespace outside and none at either end. |
| Text.TrimStartIsSuffix | tasks/IntlXml.js:88 | Dropping leading whitespace leaves a suffix of the input. |
| Text.TrimEndIsPrefix | tasks/IntlXml.js:88 | Dropping trailing whitespace leaves a prefix of the input. |
| Text.TrimIsInfix | tasks/IntlXml.js:88 | `trim()` returns a contiguous slice of the input. Only whitespace is cut on either side, and the result neither starts nor ends with whitespace. |
| Text.TrimIdempotent | tasks/IntlXml.js:88 | Trimming a trimmed string changes nothing. |
| Text.TrimOfTrimmed | tasks/IntlXml.js:88 | A string with no whitespace at either end is its own trim. |
| Classifier.IsLegal | tasks/IntlXml.js:62-83 | `stringIsLegal`: the rules of lines 63-82 are tried in the source's order at every level, and every recursive call is on a strictly shorter string, so the classification always terminates. |
| Classifier.NoLetterIsLegal | tasks/IntlXml.js:63 | A string without an ASCII letter is legal, whatever else it holds. |
| Classifier.LetterEndsIsIllegal | tasks/IntlXml.js:62-83 | A string that starts and ends with an ASCII letter is illegal. |
| Classifier.StripLeadMarker | tasks/IntlXml.js:74 | A string that starts with `$[SP]` has the verdict of what follows the marker. |
| Classifier.PrefixMarkerTransparent | tasks/IntlXml.js:74 | Putting `$[SP]` in front of a string never changes its verdict. |
| Classifier.SuffixMarkerLeadStep | tasks/IntlXml.js:74-76 | `$[SP]` does not overlap itself: if a non-empty `t` followed by the marker starts with the marker, then `t` does too. |
| Classifier.SuffixMarkerTransparent | tasks/IntlXml.js:74-76 | Putting `$[SP]` after a string never changes its verdict, even when another rule fires first. |
| Classifier.LeadPeel | tasks/IntlXml.js:76-78 | Peeling a peelable first character preserves the verdict, even when the classifier strips a trailing marker before it peels. |
| Classifier.LeadingPaddingTransparent | tasks/IntlXml.js:78 | Any run of leading characters that are neither letters, `{` nor `$` leaves the verdict unchanged. |
| Classifier.TrailingPaddingTransparent | tasks/IntlXml.js:80 | Any run of trailing characters that are neither letters, `}` nor `]` leaves the verdict unchanged. |
| Classifier.MarkersTransparent | tasks/IntlXml.js:74-76 | `$[SP]s$[SP]` has the verdict of `s`. |
| Classifier.PaddedPlaceholderIsLegal | tasks/IntlXml.js:65-68 | A `{{…}}` placeholder surrounded by plain punctuation is legal, whatever it encloses. |
| Classifier.PaddedInterpolationIsLegal | tasks/IntlXml.js:70-72 | A `${` opener after plain punctuation is legal, whatever follows it. |
| Classifier.PaddedWordIsIllegal | tasks/IntlXml.js:78-82 | Text that starts and ends with a letter stays illegal under plain leading and trailing punctuation. |
| Evaluator.EvaluateText | tasks/IntlXml.js:85-94 | The loop returns the trimmed values the classifier rejects, in input order. |
| Evaluator.TrimAllAt | tasks/IntlXml.js:87-88 | Position `i` of the trimmed list is the `i`-th value trimmed. |
| Evaluator.TrimAllAppend | tasks/IntlXml.js:87-88 | Trimming a concatenation trims each part. |
| Evaluator.FailuresEmptyIffAllLegal | tasks/IntlXml.js:85-94 | The report is never longer than the input. It is empty iff every trimmed value is legal. |
| Evaluator.FailuresAreTrimmedRejects | tasks/IntlXml.js:88-90 | Every reported value is already trimmed and is illegal. |
| Evaluator.FailuresAreRejectedInOrder | tasks/IntlXml.js:85-94 | The report is the subsequence of trimmed values at exactly the positions whose trimmed value is illegal, in increasing order. |
| Evaluator.FailuresAppend | tasks/IntlXml.js:85-94 | Evaluating `a + b` reports `a`'s failures, then `b`'s. |
| Batch.FailedCount | tasks/IntlXml.js:101-114 | The failed-document count is at most the number of documents. It is zero iff no document fails. |
| Batch.EvaluateDocument | tasks/IntlXml.js:111-118 | A document's report is exactly its collected values, trimmed, that the classifier rejects, in collection order; these are the values printed under the file's header. The report is non-empty iff the document fails. |
| Batch.CountDocument | tasks/IntlXml.js:111-114 | One callback adds one to the counter exactly when its document fails. |
| Batch.ProcessGroup | tasks/IntlXml.js:101-121 | The counter after a group equals the number of its failing documents. |
| Batch.Process | tasks/IntlXml.js:96-131 | As written, with no groups the outcome is 0. Otherwise it is 1 iff some document of the last group fails, and 0 otherwise. |
| Batch.CountGroup | tasks/IntlXml.js:101-121 | In the corrected run the running total stays zero exactly while no group seen so far has a failing document. |
| Batch.ProcessAll | tasks/IntlXml.js:96-131 | Corrected: the outcome is 1 iff some document of some group fails, and 0 otherwise. |
| Batch.LastGroupOnlyMissesFailures | tasks/IntlXml.js:103 | Two groups, a failing document in the first and an empty last group: some group fails, but the last one, which is the only one evaluated, does not. |
| Batch.FailedCountStep | tasks/IntlXml.js:113-114 | Appending a document raises the count by one exactly when that document fails, however many values it reports. |
| Batch.FailedCountOrderFree | tasks/IntlXml.js:103-121 | The count does not depend on the order in which the documents are processed. |
| Scenarios.PlaceholderVerdicts | tasks/IntlXml.js:65-82 | `{{count}}` is legal and `{{count}} items` is illegal. |
| Scenarios.MarkedWordIsIllegal | tasks/IntlXml.js:74-76 | `$[SP]Hello$[SP]` is illegal. |
| Scenarios.AttributesAreSkipped | tasks/IntlXml.js:47 | An element with an `id` attribute and a `text` child collects only the child's `"Hi"`. |
| Scenarios.TwoTrimmedValues | tasks/IntlXml.js:85-94 | Two trimmed values are reported in order, each iff it is illegal. |
| Scenarios.WelcomePageLeaves | tasks/IntlXml.js:43-54 | A page with title `Welcome` and code `{{code}}` collects both values, in document order. |
| Scenarios.WelcomePageReportsTitle | tasks/IntlXml.js:85-94 | That page reports exactly `Welcome`. |
| Scenarios.OneCountPerDocument | tasks/IntlXml.js:113-114 | A document with two illegal values reports both, yet counts once. |

## Left out

- Grunt plumbing is not modelled: task registration, `this.async()`/`done` and the call to `process()`. The outcome code is returned instead of being passed to `done`.
- Reading files and parsing XML are not modelled. A document arrives already parsed as a `Node`.
- A parse error is only logged. Collection then continues on whatever the parser returned, so an undefined result arrives as `Scalar`.
- Console output is not modelled: the per-file issue header, the failing strings, the summary and the remediation hint. Only the values reported and the count are modelled.
- The `parseString` callback is taken to have run before the count is read on line 123. xml2js calls it synchronously by default; a callback that ran later would leave the count at zero.
- Not every `for…in` detail is modelled: inherited enumerable properties, extra non-index keys on arrays, the engine's ordering of integer-like object keys, and duplicate keys. Object properties are taken in the order the parser gives.
- JavaScript strings are UTF-16 code units, while the model's strings are sequences of Unicode scalar values. Text containing surrogate pairs may therefore split into different characters from the character-by-character enumeration of a string root.
- The whitespace set is Unicode's space separators as currently defined. An older engine may know a different set.
- The generic lemmas of `Sequences` have no rows, because they state nothing about the source on their own. They include `FilterIsSubsequence`, `FilterAppend` and `FilterCountPermutation`.

## Findings

| source | as written | input that shows it | evidently intended | confidence | as-written member | corrected member |
|---|---|---|---|---|---|---|
| tasks/IntlXml.js:103 | `files.pop().src.forEach(…)` evaluates only the last file group and never returns to the others. | Two groups: the first holds a document with the illegal value `x`, the second is empty. The outcome is 0. | Every group is evaluated, and the outcome is 1 iff some document of some group fails. | medium, not executed | Batch.Process (Batch.LastGroupOnlyMissesFailures) | Batch.ProcessAll |
