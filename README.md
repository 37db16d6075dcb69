# BrickLink Price Finder: minifigure-ID expander

The popup of the BrickLink Price Finder browser extension takes a
comma-separated list of minifigure IDs typed by the user. An item such as
`elf001...elf003` stands for every ID of the `elf` series from number 1 to
number 3. The popup expands the list to an ordered list of catalogue IDs,
pads numbers below 100 to three digits, and turns every ID into the URL of
its BrickLink catalogue page. It then opens those pages in tabs.

This project models the expander and the URL list in Dafny and proves what
they promise:

- `results.dfy` holds the `Option` and `Result` types. They stand for the
  `null` and the exceptions of the JavaScript.
- `text.dfy` models the JavaScript string built-ins the expander relies on:
  - `trim` over the ECMAScript whitespace set;
  - `includes`;
  - `split` with a string separator;
  - `parseInt` on a run of digits;
  - the decimal rendering of a number.
- `minifig_ids.dfy` models the expander itself:
  - `getStringWithZeroes` is `Pad`.
  - The endpoint pattern `^([a-zA-Z]+)(\d+)$` is `MatchEndpoint`.
  - `getIdsInRange` is the method `GetIdsInRange`. The function
    `RangeIds` specifies it.
  - `parseMinifigIds` is the method `ParseMinifigIds`. The function
    `ParseIds` specifies it.
- `lookup.dfy` models the part of the submit handler that runs before any
  tab is opened:
  - the empty-input guard;
  - the call to the parser;
  - the loop that pairs each ID with its lookup URL.

The JavaScript dereferences a failed match (`null`), which throws a
TypeError. Here that case is an explicit error value:
- `MalformedLower(piece)` when the piece before `...` fails to match;
- `MalformedUpper(piece)` when the piece after it fails.

The lower endpoint is examined first, as in the source. A descending range
gives `RangeIncorrect` carrying the source's message text.

A range item has two endpoints, but `split('...')` may give more pieces.
Everything after the second piece is ignored (`a1...a3...a9` is the range
`a1...a3`). Likewise only the left
endpoint's letters name the series, so `a1...b3` yields `a001`, `a002`,
`a003`.

## Model

| member | source | states |
|---|---|---|
| MinifigIds.Pad | popup/app.js:53-65 | `getStringWithZeroes`: two zeros before numbers below 10, one zero before numbers below 100, the plain decimal otherwise. Its contract is stated by `MinifigIds.PadSpec`. |
| MinifigIds.RangeIds | popup/app.js:28-51 | What `getIdsInRange` returns or throws: the parse error, or the IDs of the range. Its contract is stated by `MinifigIds.ParseRangeOfEndpoints`, `MinifigIds.ParseRangeMalformed` and `MinifigIds.IdsOfReadBack`. |
| MinifigIds.IdsOf | popup/app.js:45-48 | The IDs the counting loop pushes, from `lower` to `upper`. Its contract is stated by `MinifigIds.IdsOfReadBack`. |
| MinifigIds.IdsFrom | popup/app.js:45-48 | `count` IDs of the series numbered upwards from `lower`: what the loop has pushed after `count` steps. Its step is stated by `MinifigIds.IdsFromSnoc`. |
| MinifigIds.ExpandItem | popup/app.js:15-22 | One comma-separated item: its trimmed text when it has no `...`, otherwise its range expansion. Its contract is stated by `MinifigIds.CollectLiterals` and `MinifigIds.OutcomesOkIff`. |
| MinifigIds.Collect | popup/app.js:14-23 | The pushes of the `forEach`, left to right, with the first thrown error aborting. Its contract is stated by `MinifigIds.CollectAppend`, `MinifigIds.CollectOkIff` and `MinifigIds.CollectLength`. |
| MinifigIds.ParseIds | popup/app.js:11-26 | What `parseMinifigIds` returns or throws. Its contract is stated by `MinifigIds.ParseIdsOkIff`, `MinifigIds.ParseIdsFirstError`, `MinifigIds.ParseIdsLength` and `MinifigIds.ParseIdsLiterals`. |
| Lookup.UrlFor | popup/app.js:89 | The fixed prefix, the ID verbatim, then the fixed fragment. Its contract is stated by `Lookup.UrlRoundTrip` and `Lookup.UrlInjective`. |
| Text.Trim | popup/app.js:15 | `String.prototype.trim`, also applied to the whole input at :77. Its contract is stated by `Text.TrimSpec`, `Text.TrimEmptyIff` and `Text.TrimIdempotent`. |
| Text.Contains | popup/app.js:17 | `includes`: the search finds an occurrence. Its contract is stated by `Text.IndexOfSpec`. |
| Text.ParseDecimal | popup/app.js:35-39 | `parseInt` on a run of digits, read left to right. Its contract is stated by `Text.DecimalReadsBack` and `Text.ParseDecimalLeadingZeros`. |
| MinifigIds.PadSpec | popup/app.js:53-65 | The padded number is all digits. It is the decimal of `n` preceded only by zeros. Its length is 3 when `n` has fewer than 3 digits and otherwise the digit count of `n`, so nothing is truncated. It reads back as `n`. |
| Text.DecimalLength | popup/app.js:56-62 | The decimal of `n` has one digit exactly when `n < 10`, and at most two exactly when `n < 100`. These are the thresholds the padding tests. |
| Text.DecimalReadsBack | popup/app.js:35 | `parseInt` of the decimal rendering of `n` is `n`. |
| Text.ParseDecimalLeadingZeros | popup/app.js:35 | Leading zeros do not change the number `parseInt` reads from a digit string, so `elf003` and `elf3` carry the same number. |
| Text.Decimal | popup/app.js:47 | The rendering of a number is non-empty and all digits, with no leading zero except for `0` itself. |
| Text.TrimSpec | popup/app.js:15 | `trim` returns the infix of the input left after removing whitespace on both sides. What it removed is whitespace only, and the result neither starts nor ends with whitespace. |
| Text.TrimEmptyIff | popup/app.js:77-83 | Trimming gives the empty string exactly when the input is all whitespace. |
| Text.TrimIdempotent | popup/app.js:15 | Trimming an already trimmed text changes nothing. The submit handler trims the whole input before the parser trims each item; this is a property of `trim` stated for the reader, and no other proof relies on it. |
| Text.IndexOfSpec | popup/app.js:17 | The search finds an occurrence of the separator with none before it. When it finds none, there is none. So `includes('...')` holds exactly when the text contains `...`. |
| Text.Split | popup/app.js:14 | `split` gives at least one piece, and two or more exactly when the text contains the separator. |
| Text.SplitPieces | popup/app.js:14 | No piece of a split contains the separator. |
| Text.SplitJoin | popup/app.js:14 | Joining the pieces with the separator gives back the input. |
| Text.SplitCount | popup/app.js:14 | Splitting on a one-character separator gives one more piece than there are occurrences of that character. |
| Text.SplitFirstTwo | popup/app.js:29 | For `x + sep + y + rest`, where neither `x` nor `y` contains the separator's first character and `rest` is empty or starts with the separator, the first two pieces are `x` and `y`. |
| MinifigIds.LeadingLetters | popup/app.js:31 | Returns the length of the longest prefix of ASCII letters. |
| MinifigIds.MatchEndpoint | popup/app.js:31-32 | A successful match yields a non-empty letter group and a non-empty digit group whose concatenation is the whole string. |
| MinifigIds.MatchEndpointComplete | popup/app.js:31-32 | Non-empty letters followed by non-empty digits match, with exactly those two capture groups. |
| MinifigIds.MatchEndpointIff | popup/app.js:31-37 | The match succeeds exactly on strings made of one or more ASCII letters followed by one or more digits. |
| MinifigIds.ParseRange | popup/app.js:29-43 | A range that parses has a non-empty series of letters and `lower <= upper`. |
| MinifigIds.ParseRangeOfEndpoints | popup/app.js:29-43 | `lo...hi`, possibly followed by more `...` pieces, contains the range separator. Parsing it fails with the "Range seems incorrect" error when the first number exceeds the second. Otherwise it gives the left endpoint's series and the two numbers. The right endpoint's letters and any extra pieces are ignored. |
| MinifigIds.RangeItemPieces | popup/app.js:29 | A range item built from two dot-free endpoints splits into exactly those two endpoints as its first pieces. |
| MinifigIds.NoDot | popup/app.js:31 | A string the endpoint pattern accepts has no `.`, so it cannot contain the range separator. |
| MinifigIds.ParseRangeMalformed | popup/app.js:31-37 | If either of the first two pieces is not letters-then-digits, the range fails. The error names the left piece when the left piece is bad, and otherwise the right piece. |
| MinifigIds.IdReadBack | popup/app.js:47 | A generated ID matches the endpoint pattern with the series and the padded number as its groups, and its number reads back as `n`. |
| MinifigIds.IdsOfReadBack | popup/app.js:45-50 | A valid range yields exactly `upper - lower + 1` IDs, at least one. Element `k` is the series followed by the padded `lower + k`. The IDs are in strictly increasing order of number and pairwise distinct. |
| MinifigIds.IdsFromSnoc | popup/app.js:46-47 | Counting one step further appends the next padded ID at the end. |
| MinifigIds.GetIdsInRange | popup/app.js:28-51 | The counting loop returns exactly what `RangeIds` specifies: the error of the parse, or the IDs of the range in order. |
| MinifigIds.ParseMinifigIds | popup/app.js:11-26 | The `forEach` over the comma-separated items returns exactly what `ParseIds` specifies. A failing range makes the method return that error at once. |
| MinifigIds.CollectAppend | popup/app.js:14-23 | Collecting two lists of item outcomes in turn is collecting their concatenation. The first error wins. Otherwise the ID lists are concatenated in order. |
| MinifigIds.CollectOkIff | popup/app.js:14-23 | Collecting succeeds exactly when every outcome succeeded. |
| MinifigIds.OutcomesOkIff | popup/app.js:14-23 | The items expand together exactly when each item expands. |
| MinifigIds.ParseIdsOkIff | popup/app.js:14-23 | The parse succeeds exactly when every comma-separated item expands. |
| MinifigIds.ParseIdsFirstError | popup/app.js:14-23 | When item `j` is the first that fails, the whole parse fails with that item's error. One bad range aborts everything. |
| MinifigIds.CollectLength | popup/app.js:14-23 | A successful expansion holds as many IDs as the per-item counts add up to, and at least one per item. |
| MinifigIds.ParseIdsLength | popup/app.js:12-25 | A successful parse holds as many IDs as the per-item counts add up to. That is at least one per comma-separated item, and at least one in total. |
| MinifigIds.CollectLiterals | popup/app.js:15-19 | Items without `...` contribute one entry each: the trimmed item, unchanged and in order. |
| MinifigIds.ParseIdsLiterals | popup/app.js:14-19 | When no item is a range, the parse succeeds. Entry `k` is item `k` trimmed, unpadded and possibly empty (as for a trailing comma). There are as many entries as commas plus one. |
| Lookup.IdOfUrl | popup/app.js:89 | The inverse of the URL template at :89; the source never parses URLs, and this function exists only so that contracts can state the round trip. An ID recovered from a URL is as long as the URL without the fixed prefix and suffix. |
| Lookup.UrlRoundTrip | popup/app.js:89 | A URL reads back as an ID exactly when it is the fixed prefix, that ID verbatim, and the fixed fragment the popup appends after the ID. |
| Lookup.UrlInjective | popup/app.js:89 | Distinct IDs get distinct URLs. |
| Lookup.BuildUrlData | popup/app.js:88-95 | The loop yields one `{id, url}` entry per ID, in the same order. Entry `k` holds ID `k` and that ID's URL. |
| Lookup.PrepareLookups | popup/app.js:77-95 | The submission is refused with `EmptyInput` exactly when the input is all whitespace. Otherwise a parse error is passed on as `InvalidIds`. Otherwise the result has one entry per parsed ID, in order, whose URL reads back as that ID. |

## Left out

- The tab loop of the submit handler (popup/app.js:111-130) opens each URL in a tab and runs a script in it, and that script is not part of this model. The tab calls are asynchronous browser plumbing, and the prices read in the tabs come from outside the model.
- Saving results with `browser.storage.local.set` (popup/app.js:132) and `console` logging are foreign I/O.
- `rendertoTable` and every `innerHTML` message are HTML rendering only. This covers the "Calculating..", "Generated list" and "Looking up prices.." messages and the displayed error text.
- Event wiring (`listenForClicks`, `DOMContentLoaded`) and the `extensionName` constant.
- Text.ParseDecimal: numbers are unbounded naturals. The loss of precision of JavaScript numbers above 2^53, which `parseInt` would suffer on very long digit runs, is not modelled.
- MinifigIds.ParseRange: a failed endpoint match is an explicit `MalformedLower` or `MalformedUpper` value. The model does not reproduce the text of the TypeError the source throws when it reads a group of a `null` match.
- Lookup.PrepareLookups: the input is a string. The `|| ''` fallback for an absent form value is not modelled.
- MinifigIds.GetIdsInRange requires that the item contains `...`. Its only caller, `parseMinifigIds`, checks this before calling it.
- MinifigIds.ParseMinifigIds: the model appends a range's IDs with no size limit. The source spreads them into the arguments of one `push` call (popup/app.js:22), which a JavaScript engine refuses beyond its argument-count limit (about 500,000 in Firefox) with a JavaScript `RangeError` exception that the popup shows as an alert; the model returns all IDs instead.
