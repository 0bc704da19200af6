# formatPdfName — a Dafny model of the PDF-name label shortener

The `RecentPdfItem` row component of this PDF viewer shows one document
`item` and labels it with `formatPdfName(item.name)`, a shortened form of
the document's name. `formatPdfName` in `components/RecentPdfItem.js`
builds that label:

- A missing or empty name gives the empty label.
- A name of at most 25 characters (12 + 10 + 3) is shown unchanged.
- A longer name is split on single spaces. The *head* greedily takes whole
  leading words while the joined text stays within 12 characters. The *tail*
  takes whole trailing words, last one first, until the joined text reaches
  10 characters or the words run out.
- An empty head falls back to the first 12 characters. An empty tail falls
  back to the last 10 characters.
- The label is the trimmed head, `...`, and the trimmed tail.

The project has three modules:

- `Wrappers` (`wrappers.dfy`) holds `Option`. `None` stands for a `null`
  or `undefined` name.
- `JsString` (`js_string.dfy`) models the JavaScript string operations the
  formatter uses.
  - `Split` models `split(' ')` and `Join` models `join(' ')`.
  - `Slice` models `slice`, including negative indices.
  - `Trim`, `TrimStart` and `TrimEnd` model ECMAScript `trim`, using the
    WhiteSpace and LineTerminator code points.
  - Each operation has its partner property: split and join are inverse to
    each other, slice is characterised by prefixes and suffixes, and trim
    by `IsTrimOf`, which says what a trimmed string is and that it is
    unique.
- `RecentPdfItem` (`recent_pdf_item.dfy`) models the formatter.
  - The two `for` loops become the recursive functions `HeadLoop` and
    `TailLoop`.
  - `HeadStep` and `TailStep` are the loop steps, including the
    `head ? … : w` truthiness test.
  - The loop bodies are characterised separately:
    - `JoinLeft` and `JoinRight` are folds over the words taken.
    - `IsHeadRun` and `IsTailStart` are the stopping rules.
    - `Join` (`join(' ')`) is related to the folds.
  - The result is then placed back inside the original name.

Strings are `seq<char>`, and a `char` is a Unicode scalar value. JavaScript
counts UTF-16 code units instead; the two agree on names made of characters
from the Basic Multilingual Plane (see "## Left out").

Two consequences of the code are easy to miss:

- Words are separated by single space characters only. Tabs and other
  white space do not separate words, and two spaces in a row give an empty
  word.
- The tail stops only after the word that takes it to 10 characters or
  more, so the tail is not bounded by 10. A long name without spaces keeps
  its whole self as the tail.

The accumulator test `head ? head + ' ' + w : w` treats an empty
accumulator as "nothing taken yet". So leading empty words (from leading
spaces) leave no trace in the head, and trailing empty words leave none in
the tail. `JoinLeftSkipsLeadingEmpty` and `JoinRightSkipsTrailingEmpty` state
this.

## Model

| member | source | states |
|---|---|---|
| RecentPdfItem.FormatPdfName | components/RecentPdfItem.js:5-25 | A missing or empty name gives `""`. A name of at most 25 characters comes back unchanged. A longer name gives `h + "..." + t`, where `h` is the trim of the head, `t` is the trim of the tail, and `h` is at most 12 characters. |
| RecentPdfItem.HeadStepAppends | components/RecentPdfItem.js:13 | The head step `head ? head + ' ' + w : w` gives the head followed by the word. A space separates them exactly when the head is non-empty, so the result is the word itself exactly when the head is empty. |
| RecentPdfItem.TailStepPrepends | components/RecentPdfItem.js:19 | The tail step `tail ? w + ' ' + tail : w` gives the word followed by the tail. A space separates them exactly when the tail is non-empty, so the result is the word itself exactly when the tail is empty. |
| RecentPdfItem.HeadLoop | components/RecentPdfItem.js:11-15 | Starting from a head within 12 characters, the loop never produces a head longer than 12 characters. |
| RecentPdfItem.TailLoop | components/RecentPdfItem.js:16-21 | The loop never shortens the tail it was given, and never empties a non-empty one. |
| RecentPdfItem.Head | components/RecentPdfItem.js:11-22 | The untrimmed head is at most 12 characters, and it is non-empty for every non-empty name. |
| RecentPdfItem.Tail | components/RecentPdfItem.js:16-23 | The untrimmed tail is non-empty for every non-empty name. |
| RecentPdfItem.HeadLoopTakesLongestRun | components/RecentPdfItem.js:12-15 | The head loop builds the fold of the first `k` words. Every leading run of up to `k` words fits in 12 characters. When words remain, the run of `k + 1` words does not fit. |
| RecentPdfItem.HeadRunUnique | components/RecentPdfItem.js:12-15 | Exactly one `k` meets that stopping rule. |
| RecentPdfItem.HeadRunStopsAtFirstOverflow | components/RecentPdfItem.js:12-15 | Every leading run longer than the accepted one overflows 12 characters, so the greedy loop's `break` never gives up a head that a longer run could have given. |
| RecentPdfItem.TailLoopTakesShortestRun | components/RecentPdfItem.js:17-20 | The tail loop builds the fold of the words from some `m` to the end. Every shorter trailing run stays below 10 characters. Unless all words were taken, the run from `m` reaches 10 characters. |
| RecentPdfItem.TailStartUnique | components/RecentPdfItem.js:17-20 | Exactly one `m` meets that stopping rule. |
| RecentPdfItem.JoinLeftSkipsLeadingEmpty | components/RecentPdfItem.js:13 | Because the step takes `w` alone when the head is still empty, leading empty words do not change the head. |
| RecentPdfItem.JoinRightSkipsTrailingEmpty | components/RecentPdfItem.js:19 | Because the step takes `w` alone when the tail is still empty, trailing empty words do not change the tail. |
| RecentPdfItem.JoinLeftIsJoin | components/RecentPdfItem.js:13 | When the first word is non-empty, accumulating words with the step equals `join(' ')` of them. |
| RecentPdfItem.JoinRightIsJoin | components/RecentPdfItem.js:19 | When the last word is non-empty, accumulating words from the back with the step equals `join(' ')` of them. |
| RecentPdfItem.HeadLoopIsJoinedRun | components/RecentPdfItem.js:10-15 | A non-empty head from the loop is `join(' ')` of the longest leading run that fits: the first `k` words meet the head stopping rule, the words before `p` are empty, and the head is the words `p..k` joined by single spaces. |
| RecentPdfItem.TailLoopIsJoinedRun | components/RecentPdfItem.js:10-21 | A non-empty tail from the loop is `join(' ')` of the shortest trailing run that reaches 10: the words from `m` on meet the tail stopping rule, the words after `q` are empty, and the tail is the words `m..q` joined by single spaces. |
| RecentPdfItem.HeadFallback | components/RecentPdfItem.js:22 | The head loop yields an empty head exactly when the first non-empty word alone is longer than 12 characters, or there is none. In that case the head is the first `min(12, length)` characters of the name. |
| RecentPdfItem.TailFallback | components/RecentPdfItem.js:23 | The tail loop yields an empty tail exactly when the name is all spaces. In that case the tail is the last `min(10, length)` characters of the name. |
| RecentPdfItem.HeadFromFront | components/RecentPdfItem.js:10-22 | The head is a contiguous piece of the name that starts right after a run of spaces at the front (possibly an empty run). |
| RecentPdfItem.TailFromBack | components/RecentPdfItem.js:10-23 | The tail is a contiguous piece of the name that ends right before a run of spaces at the back (possibly an empty run). |
| RecentPdfItem.SingleWordGrows | components/RecentPdfItem.js:10-24 | Take a name longer than 25 characters with no white space. Its label is its first 12 characters, `...`, and the whole name, so the label is longer than the name. |
| JsString.Split | components/RecentPdfItem.js:10 | `split(' ')` returns at least one word, and no word contains a space. |
| JsString.JoinSplit | components/RecentPdfItem.js:10 | Joining the words of `split(' ')` with single spaces gives back the string. |
| JsString.SplitJoin | components/RecentPdfItem.js:10 | Splitting the join of space-free words gives back the words. |
| JsString.SplitAllEmpty | components/RecentPdfItem.js:10 | Every word of `split(' ')` is empty exactly when the string is all spaces. |
| JsString.TrimStart | components/RecentPdfItem.js:24 | The result is a suffix of the string. Everything cut off is white space, and the result does not start with white space. |
| JsString.TrimEnd | components/RecentPdfItem.js:24 | The result is a prefix of the string. Everything cut off is white space, and the result does not end with white space. |
| JsString.Trim | components/RecentPdfItem.js:24 | The result is a trim of the string: a piece of it with only white space around it, and without white space at either end. |
| JsString.TrimOfUnique | components/RecentPdfItem.js:24 | A string has only one trim. |
| JsString.TrimKeeps | components/RecentPdfItem.js:24 | Trimming a string that has no white space at either end leaves it unchanged. |
| JsString.TrimIdempotent | components/RecentPdfItem.js:24 | Trimming twice is the same as trimming once. |
| JsString.RelativeIndex | components/RecentPdfItem.js:22-23 | A `slice` argument `k >= 0` resolves to `min(k, length)`. A negative `k` counts back from the end and resolves to `length - min(-k, length)`. |
| JsString.Slice | components/RecentPdfItem.js:22-23 | The result is the piece of the string that starts at the resolved start index. Its length is the resolved end minus the resolved start, or 0 when that range is empty or reversed. |
| JsString.SliceFront | components/RecentPdfItem.js:22 | `slice(0, n)` is the first `min(n, length)` characters. |
| JsString.SliceBack | components/RecentPdfItem.js:23 | For `n > 0`, `slice(-n)` is the last `min(n, length)` characters, and `slice(-0)` is the whole string. |

## Left out

- The `RecentPdfItem` component itself (components/RecentPdfItem.js:27 onward) is left out. It covers the row rendering, the action menu, and sharing and printing through the platform's share sheet and print service. All of this is UI and platform I/O with no logic of its own beyond calling `formatPdfName`.
- App.js is not part of this model. It picks one PDF and keeps its address in a single `pdfUri` state variable; it does not call `formatPdfName`.
- Falsy names that are not strings (`0`, `false`, `NaN`) are left out. The input is an optional string, and `None` stands for `null` and `undefined`.
- UTF-16 code units are not modelled. A `char` here is a Unicode scalar value, so a character outside the Basic Multilingual Plane (an emoji, say) counts 1 here and 2 in JavaScript's `length` and `slice`. A name with such characters is therefore measured differently against the limits 25, 12 and 10, and where JavaScript's `slice` can cut a surrogate pair in half the model cannot. Lone surrogates cannot be represented at all. The model is exact for names made only of Basic Multilingual Plane characters.
- RecentPdfItem.FormatPdfName: for long names the contract names the head and tail through `Head` and `Tail` and `IsTrimOf` rather than spelling out every character. The other lemmas in the table give what the head and tail are.
- RecentPdfItem.TailLoop: its own contract only bounds the tail from below. What it builds is stated by `TailLoopTakesShortestRun`.
