# Static-asset budget check of the package-pulse performance tests

This project models the static-asset budget check that the network performance
test of the package-pulse QA suite runs while the home page loads. The test
registers a response listener. For every response whose URL names a static
asset (by file extension, ignoring case), the listener does two things:

- If the HTTP status is not in the budget's allow-list, it logs a failed request.
- If the `content-length` header exceeds the budget's maximum asset size, it
  logs an oversized asset.

The test passes when both logs are empty.

Modules:

- `JsValues`: the JavaScript values involved. These are `null` (`Option`), a
  number that is finite or NaN (`Num`), and `Number(text)` for the texts a
  `content-length` header carries.
- `Budgets`: the `performanceBudgets` constants. This covers the timing
  limits, the request and byte limits, and the allowed status codes.
- `StaticAssetPattern`: what `/\.(js|css|png|jpg|jpeg|gif|svg|woff2?|ttf|eot)$/i`
  accepts, written as a search over start positions. JavaScript compares
  case-insensitively without the `u` flag, and in that mode it never maps a
  non-ASCII character onto an ASCII one. Every alternative is ASCII, so ASCII
  folding is exact here.
- `AssetHelpers`: `getAssetSize`, `isStaticAsset` and `isOversized` from the
  shared helpers. `isStaticAsset` looks at the text after the last dot. It is
  proved to accept exactly what the regular expression accepts.
- `SuiteAssets`: the second, textually identical copy of the three helpers
  that sits beside the performance tests. Two of its three operations are
  written as loops of the model's own, replacing the regular expression and
  `Number`. Each operation is proved equal to the shared definition.
- `NetworkTest`: the response listener as a left fold over the responses in
  arrival order, the pass condition, and the imperative run of both.

## Model

| member | source | states |
|---|---|---|
| `AssetHelpers.GetAssetSize` | utils/helpers/performance/assetsTestHelpers.ts:12-15 | no size exactly when the header is missing or empty; otherwise `Number` of the header; the header `"0"` gives size 0, not null |
| `AssetHelpers.SizeOfPrintedHeader` | utils/helpers/performance/assetsTestHelpers.ts:12-15 | a header carrying a printed byte count yields that count |
| `JsValues.ToNumber` | utils/helpers/performance/assetsTestHelpers.ts:14 | this model's `Number(text)` is finite exactly for digit strings (the texts a `content-length` header is meant to carry), and the empty string is 0 |
| `JsValues.LeadingZeroIgnored` | utils/helpers/performance/assetsTestHelpers.ts:14 | in this model's `Number`, a leading zero does not change the number read from any header text |
| `JsValues.PrintedValueOfCanonical` | utils/helpers/performance/assetsTestHelpers.ts:14 | in this model's `Number` and printing, reading a canonical digit string (non-empty, no leading zero) and printing the number again gives the same text |
| `JsValues.NumberOfPrintedValue` | utils/helpers/performance/assetsTestHelpers.ts:14 | reading back a printed non-negative integer gives the same number |
| `JsValues.FormatDecimal` | tests/performance/network.spec.ts:37 | the printed status is a non-empty digit string without a leading zero, and its decimal value is the status |
| `AssetHelpers.StaticIffPatternMatches` | utils/helpers/performance/assetsTestHelpers.ts:21-23 | classifying by the text after the last dot accepts exactly the URLs the regular expression matches |
| `AssetHelpers.MatchUsesLastDot` | utils/helpers/performance/assetsTestHelpers.ts:22 | any match of the pattern starts at the last dot of the URL |
| `AssetHelpers.StaticIffDotExtension` | utils/helpers/performance/assetsTestHelpers.ts:21-23 | a URL is static iff it ends in a dot followed by one of the eleven extensions, in any letter case |
| `AssetHelpers.NamedAsset` | utils/helpers/performance/assetsTestHelpers.ts:21-23 | `name.ext`, with no dot in `ext`, is static iff `ext` lower-cased is an extension |
| `AssetHelpers.CaseInsensitive` | utils/helpers/performance/assetsTestHelpers.ts:22 | URLs that differ only in ASCII letter case are classified alike |
| `AssetHelpers.TrailingTextBreaksMatch` | utils/helpers/performance/assetsTestHelpers.ts:22 | the match is anchored at the end: a character that is neither a letter, a digit nor a dot, with no dot after it (such as a query string or fragment without a dot), makes a URL non-static |
| `AssetHelpers.OnlyTextAfterLastDotMatters` | utils/helpers/performance/assetsTestHelpers.ts:22 | once a dot appears in the tail of a URL, whatever precedes the tail does not affect the classification |
| `AssetHelpers.QueryEndingInExtension` | utils/helpers/performance/assetsTestHelpers.ts:22 | a query string that itself ends in an extension keeps the URL static: `a.js?v=b.css` is static |
| `AssetHelpers.NoDotNotStatic` | utils/helpers/performance/assetsTestHelpers.ts:22 | a URL without a dot is never static |
| `AssetHelpers.UpperCaseExamples` | utils/helpers/performance/assetsTestHelpers.ts:22 | `APP.JS` and `logo.Png` are static |
| `AssetHelpers.WoffExamples` | utils/helpers/performance/assetsTestHelpers.ts:22 | `woff2?` accepts both `.woff` and `.woff2` |
| `AssetHelpers.RejectedExamples` | utils/helpers/performance/assetsTestHelpers.ts:22 | `a.js?v=1`, `a.css#x`, `bundle.mjs` and `foojs` are not static |
| `StaticAssetPattern.MatchesIffDotExtensionSuffix` | utils/helpers/performance/assetsTestHelpers.ts:22 | the regular expression matches iff the URL ends, ignoring case, in a dot and one of the extensions |
| `StaticAssetPattern.ExtensionsAreLowerAlnum` | utils/helpers/performance/assetsTestHelpers.ts:22 | the alternatives contain only lower-case letters and digits, so no dot |
| `AssetHelpers.IsOversized` | utils/helpers/performance/assetsTestHelpers.ts:29-31 | never oversized when the size is null or NaN; otherwise oversized iff the size is strictly above the maximum |
| `AssetHelpers.ExactMaximumNotOversized` | utils/helpers/performance/assetsTestHelpers.ts:29-31 | a size equal to the maximum is within budget, one byte more is not |
| `AssetHelpers.OversizedMonotone` | utils/helpers/performance/assetsTestHelpers.ts:29-31 | a larger size against a smaller maximum stays oversized |
| `SuiteAssets.GetAssetSize` | tests/performance/utils/assets.ts:3-6 | the duplicate equals the shared `getAssetSize`: null only for a missing or empty header, otherwise the header's decimal value or NaN |
| `SuiteAssets.IsStaticAsset` | tests/performance/utils/assets.ts:8-10 | the duplicate equals the shared `isStaticAsset` and accepts exactly what the anchored, case-insensitive pattern matches |
| `SuiteAssets.IsOversized` | tests/performance/utils/assets.ts:12-14 | the duplicate equals the shared `isOversized`: false on null, strict comparison otherwise |
| `Budgets.Mebibytes` | utils/constants/performance/budgets.ts:10-11 | `factor * 1024 * 1024` is computed exactly as a whole number of bytes |
| `Budgets.BudgetValues` | utils/constants/performance/budgets.ts:3-11 | ttfb 200, fcp 1800, lcp 2500, tti 3800 ms; 50 requests; total 1572864 bytes; max asset 1048576 bytes |
| `Budgets.AllowedStatusCodes` | utils/constants/performance/budgets.ts:12 | a status is allowed iff it is 200 or 304; 206, 301 and 404 are not |
| `NetworkTest.FailureMessage` | tests/performance/network.spec.ts:37 | the failed-request entry is the URL, then " (status: ", the status spelled as JavaScript prints it (digits, no leading zero, value equal to the status), then ")"; URL and status can be read back from it |
| `NetworkTest.Listen` | tests/performance/network.spec.ts:33-44 | a non-static response changes nothing; otherwise each log only grows, by at most one entry; a failed entry is added iff the status is not allowed; an oversized entry is added iff the size is present and above the maximum, and it records the parsed header value |
| `NetworkTest.NonStaticIgnored` | tests/performance/network.spec.ts:35-43 | after any history, a non-static response leaves both logs unchanged |
| `NetworkTest.NonStaticIgnoredMidStream` | tests/performance/network.spec.ts:33-44 | a non-static response anywhere in the stream can be removed without changing either log |
| `NetworkTest.BothLogsExample` | tests/performance/network.spec.ts:36-42 | the two checks are independent: one static response can land in both logs |
| `NetworkTest.LogsFollowArrivalOrder` | tests/performance/network.spec.ts:33-44 | the logs hold one entry per offending response, in arrival order, so each has at most as many entries as there were responses |
| `NetworkTest.PassesIffAllWithinBudget` | tests/performance/network.spec.ts:49-50 | the test passes iff every static response has an allowed status and is not oversized |
| `NetworkTest.RunNetworkTest` | tests/performance/network.spec.ts:33-50 | running the listener over the responses gives the folded logs, and the verdict is pass iff every response is within budget |

## Left out

- `AssetHelpers.GetAssetSize`: `Number` is modelled only for the empty string and for digit strings. Every other header text counts as NaN. JavaScript would also read surrounding whitespace, a sign, hexadecimal, exponent and `Infinity` forms as numbers. A negative or fractional `content-length` is not a valid header, so a server does not send one.
- `AssetHelpers.IsOversized`: sizes are exact integers. JavaScript numbers round above 2^53. This does not change the comparison against 1048576, but it can change the size an oversized entry records.
- `JsValues.ToNumber`: returns NaN for every text that is neither empty nor all digits. JavaScript's `Number` reads padded text such as `" 12"`, signs, fractions, exponents, hexadecimal and `Infinity` as finite or infinite numbers. A valid `content-length` header is a plain digit string.
- The budget values `maxRequests`, `totalSize` and the four timing limits are modelled as constants only. The network test does not read them. No file of the suite reads `maxRequests` or `totalSize`. The load and runtime tests compare the timing limits against browser-supplied floating-point timings, which are out of scope.
- Registering the listener with `page.on('response', ...)`, navigating, and waiting for `networkidle` are browser I/O. The responses are a parameter in arrival order. The handler awaits nothing, so it is a sequential fold.
- Which responses arrive before the page goes idle is decided by the browser. The model checks whatever sequence it is given.
- The second budgets file `tests/performance/config/budgets.ts` is an older copy. It has no `maxAssetSize` or `allowedStatusCodes`, and the network test does not use it.
- The page objects, the chart checks, the metrics helpers and the visual helpers are Playwright DOM and timing plumbing. They are not part of this model.
