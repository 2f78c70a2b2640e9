# Wins journal: the wins hook and the date helpers

This is a Dafny model of the only stateful logic in a journaling web app where users
record short "wins". The model covers two things:

- **The wins hook** (`src/hooks/useWins.js`). It holds a list of win records, the draft text
  of the input bar and a validation flag. Its callbacks add a win, remove one, edit a
  win's text or image, update the draft and submit on Enter. A memoised reduction groups
  the wins by day.
- **The date helpers** (`src/utils/dateUtils.js`). `formatDateShort` renders a day as
  `DD.MM.YY`. `getTodayISO` cuts the `YYYY-MM-DD` day out of an ISO 8601 timestamp.

Files:

- `js_string.dfy`, module `JsString`: the JavaScript string built-ins the code relies on.
  These are `trim`, `padStart`, `slice`, `split(...)[0]` and `String(n)` for integers, with
  their properties.
- `date_utils.dfy`, module `DateUtils`: `formatDateShort` over the Date getters' results,
  `getTodayISO` over a timestamp string, and the `toISOString()` format for years 0 to 9999.
- `use_wins.dfy`, module `Wins`:
  - the `Win` record;
  - pure functions for the list transforms (`filter`, `map`, the grouping);
  - the loop method `GroupByDate`, which does the reduction;
  - the class `WinsState`, with fields `wins`, `text` and `error` and one method per callback.

Two inputs come from outside and are parameters:

- the fresh id that `crypto.randomUUID()` draws;
- the current time as its `toISOString()` string.

`AddWin` requires the fresh id to be absent from the current ids, but only when the draft
is accepted, because that is the only case where the source draws an id. `WinsState.Valid()`
is the id-uniqueness invariant, and every method preserves it.

## Model

| member | source | states |
|---|---|---|
| `JsString.Trim` | src/hooks/useWins.js:14 | the trimmed draft is no longer than the draft and has no whitespace at either end |
| `JsString.TrimDecomposition` | src/hooks/useWins.js:14-17 | the trimmed draft is the slice of the draft between its leading and trailing whitespace; everything cut off is whitespace |
| `JsString.TrimEmptyIffBlank` | src/hooks/useWins.js:14 | `text.trim()` is empty (falsy) exactly when every character of the draft is whitespace |
| `JsString.TrimIdempotent` | src/hooks/useWins.js:17 | trimming the stored text again changes nothing |
| `JsString.PadStart` | src/utils/dateUtils.js:8-9 | `padStart(n, '0')` reaches length n (or keeps a longer string), ends with the original and fills only with '0' |
| `JsString.SliceFrom` | src/utils/dateUtils.js:10 | `slice(k)` is the characters from index k on, or empty when the string is shorter |
| `JsString.BeforeFirst` | src/utils/dateUtils.js:19 | `split('T')[0]` is a prefix without 'T' that ends at the first 'T' or at the end of the string |
| `JsString.BeforeFirstUnique` | src/utils/dateUtils.js:19 | those three properties determine `split('T')[0]` uniquely |
| `JsString.NatToString` | src/utils/dateUtils.js:8-10 | `String(n)` is a non-empty string of digits with no leading zero unless n is 0 |
| `JsString.NatToStringValue` | src/utils/dateUtils.js:8-10 | reading the digits of `String(n)` back gives n |
| `JsString.NatToStringLength` | src/utils/dateUtils.js:8-10 | `String(n)` has at most k digits exactly when n < 10^k |
| `JsString.IntToString` | src/utils/dateUtils.js:8-10 | `String(n)` of an integer is non-empty, starts with '-' exactly when n is negative, and is digits (after that sign) |
| `JsString.IntToStringValue` | src/utils/dateUtils.js:8-10 | reading `String(n)` back, past the sign of a negative n, gives n (or -n) |
| `DateUtils.DayField` | src/utils/dateUtils.js:8 | `String(d.getDate()).padStart(2, '0')` is the day's own string, left-filled with '0' to at least two characters |
| `DateUtils.MonthField` | src/utils/dateUtils.js:9 | `String(d.getMonth() + 1).padStart(2, '0')` is the one-based month's string, left-filled with '0' to at least two characters |
| `DateUtils.YearField` | src/utils/dateUtils.js:10 | `String(d.getFullYear()).slice(2)` is the year's string without its first two characters, and empty when the string has at most two |
| `DateUtils.YearFieldOfNatural` | src/utils/dateUtils.js:10 | years 0-99 give an empty year part; from 100 on it is the digits after the first two, denoting the year modulo a power of ten: one digit for 100-999, three or more from 10000 |
| `DateUtils.YearFieldOfNegative` | src/utils/dateUtils.js:10 | for a negative year the minus sign is one of the two characters cut: -9 to -1 give an empty year part, and from -10 down it is the digits of the absolute year without its first, denoting it modulo a power of ten |
| `DateUtils.FormatDateShort` | src/utils/dateUtils.js:6-12 | the result is day, month and year joined by '.'; an invalid date renders as "NaN.NaN.N" |
| `DateUtils.DayFieldPadded` | src/utils/dateUtils.js:8 | the day is at least two digits, left-padded with '0', reads back as the day, and is exactly two digits for a day of the month |
| `DateUtils.MonthFieldOneBased` | src/utils/dateUtils.js:9 | the month reads back as the zero-based month plus one, is two digits for months 0 to 11, and month 0 prints "01" |
| `DateUtils.YearFieldLastTwoDigits` | src/utils/dateUtils.js:10 | for a four-digit year the year part is the year string minus its first two characters, two digits that read back as the year modulo 100 |
| `DateUtils.FormatDateShortShape` | src/utils/dateUtils.js:11 | for day 1-31, month 0-11 and a four-digit year the result has 8 characters, '.' at indices 2 and 5, and fields that read back as day, month + 1 and year mod 100 |
| `DateUtils.GetTodayISO` | src/utils/dateUtils.js:18-20 | the result is the prefix of the timestamp before its first 'T' and contains no 'T' |
| `DateUtils.TodayOfIsoTimestamp` | src/utils/dateUtils.js:18-20 | on a standard `toISOString()` value the result is exactly its 10-character YYYY-MM-DD date |
| `Wins.AppendFreshKeepsUnique` | src/hooks/useWins.js:15-21 | appending a record with a fresh id keeps the ids unique |
| `Wins.RemoveById` | src/hooks/useWins.js:31 | the filtered list holds exactly the records whose id differs from the argument |
| `Wins.RemoveByIdAppend` | src/hooks/useWins.js:31 | filtering distributes over concatenation, so survivors keep their relative order |
| `Wins.RemoveAbsentIsNoOp` | src/hooks/useWins.js:31 | removing an id no record carries returns the list unchanged |
| `Wins.RemoveIdempotent` | src/hooks/useWins.js:31 | removing the same id twice is the same as removing it once |
| `Wins.RemoveDeletesExactlyOne` | src/hooks/useWins.js:31 | with unique ids, removing the id at index k yields the list without index k, one shorter |
| `Wins.RemoveKeepsUnique` | src/hooks/useWins.js:31 | removal keeps the ids unique |
| `Wins.UpdateText` | src/hooks/useWins.js:36-41 | same length; records with other ids unchanged; matching records get the new text verbatim and keep id, date and image |
| `Wins.UpdateImage` | src/hooks/useWins.js:43-48 | same length; records with other ids unchanged; matching records get the image and keep id, date and text |
| `Wins.UpdateTextKeepsUnique` | src/hooks/useWins.js:36-41 | a text edit keeps the ids unique |
| `Wins.UpdateImageKeepsUnique` | src/hooks/useWins.js:43-48 | an image edit keeps the ids unique |
| `Wins.UpdateTextAbsentIsNoOp` | src/hooks/useWins.js:36-41 | editing the text of an id no record carries changes nothing |
| `Wins.UpdateImageAbsentIsNoOp` | src/hooks/useWins.js:43-48 | setting the image of an id no record carries changes nothing |
| `Wins.UpdateTextLastWriteWins` | src/hooks/useWins.js:36-41 | two text edits of the same id equal the second edit alone |
| `Wins.UpdateImageLastWriteWins` | src/hooks/useWins.js:43-48 | two image edits of the same id equal the second edit alone |
| `Wins.BucketMembers` | src/hooks/useWins.js:64-67 | a day's bucket holds exactly the wins whose date is that day |
| `Wins.BucketAppend` | src/hooks/useWins.js:64-67 | a day's bucket of a concatenation is the two buckets in order, so grouping never reorders wins within a day |
| `Wins.DistinctDates` | src/hooks/useWins.js:63-69 | the grouping's keys, in order of first appearance, are exactly the dates present, each once |
| `Wins.BucketSizesSum` | src/hooks/useWins.js:63-69 | the bucket sizes over all days sum to the number of wins |
| `Wins.GroupingPartition` | src/hooks/useWins.js:63-69 | every win is in its own day's bucket and in no other, and no bucket is empty |
| `Wins.GroupByDate` | src/hooks/useWins.js:63-69 | the reduction's keys are the distinct dates in first-appearance order; each day maps to that day's wins in list order; every win lands in exactly its day's bucket; no bucket is empty; sizes sum to the number of wins |
| `Wins.AddWinOutcome` | src/hooks/useWins.js:13-28 | a non-blank draft appends one record (fresh id, trimmed text, today's date, no image) after the unchanged old list and clears draft and error; a blank draft changes only the error flag, to true |
| `Wins.AddWinValidation` | src/hooks/useWins.js:14-27 | the error flag is raised exactly when the draft is all whitespace; an accepted text has no whitespace at either end |
| `Wins.AddWinKeepsUnique` | src/hooks/useWins.js:15-21 | with a fresh id, adding keeps the ids unique |
| `Wins.AddWinDateIsIsoDay` | src/hooks/useWins.js:18 | an accepted win is dated with the 10-character YYYY-MM-DD day of the supplied timestamp |
| `Wins.WinsState.constructor` | src/hooks/useWins.js:9-11 | the hook starts with no wins, an empty draft and no error |
| `Wins.WinsState.AddWin` | src/hooks/useWins.js:13-28 | the new state is `AddWinOutcome` of the old one; ids stay unique |
| `Wins.WinsState.RemoveWin` | src/hooks/useWins.js:30-34 | the list becomes `RemoveById` of the old list; draft and error unchanged; ids stay unique |
| `Wins.WinsState.UpdateWinText` | src/hooks/useWins.js:36-41 | the list becomes `UpdateText` of the old list; draft and error unchanged |
| `Wins.WinsState.UpdateWinImage` | src/hooks/useWins.js:43-48 | the list becomes `UpdateImage` of the old list; draft and error unchanged |
| `Wins.WinsState.HandleChange` | src/hooks/useWins.js:50-53 | the draft becomes the event value and the error flag is false, whatever it was; the list is unchanged |
| `Wins.WinsState.SetText` | src/hooks/useWins.js:81 | the exported setter changes the draft only |
| `Wins.WinsState.HandleKeyDown` | src/hooks/useWins.js:55-60 | Enter has exactly the effect of `AddWin`; any other key leaves all state unchanged |

## Left out

- The view components, authentication, image generation, IndexedDB, theming, install prompt, keyboard-height hooks and app bootstrap: rendering, browser APIs and network calls, with no logic of their own to state.
- The `localStorage` mirroring behind `setWins`, and starting from a previously stored list: the constructor starts from the hook's default, the empty list.
- `crypto.randomUUID()` and the system clock: both are parameters of `AddWin` and `HandleKeyDown`.
- The `setTimeout(() => document.activeElement.blur(), 100)` in `removeWin` and `e.preventDefault()` in `handleKeyDown`: DOM focus and event side effects.
- React's render cycle: each `useCallback` closes over the state of its render. The model applies each callback to the current state, which is what happens when one event is handled per render.
- `new Date(dateString)` and the Date getters in `formatDateShort`: the model starts from the day, zero-based month and full year they return, or from an invalid date. A date-only string is parsed as UTC while `getDate` reads the local day, so west of UTC the day shown can be one earlier than the stored date. The model does not capture this.
- `getTodayISO` takes the UTC day of `toISOString()`, not the local day. `IsoTimestamp` covers years 0 to 9999 only, since `toISOString()` uses a six-digit signed year outside that range.
- JavaScript strings are UTF-16 code units. Here they are Dafny `char`s, and `trim` strips the ECMAScript WhiteSpace and LineTerminator code points.
- Wins.GroupByDate: the reduction collects into a plain `{}`, so two kinds of date key behave differently in JavaScript, and the model treats every date as an ordinary key. First, integer-like keys such as "12" are enumerated before the other keys. Second, names every object inherits ("toString", "constructor", "valueOf", "hasOwnProperty", "__proto__") make `acc[win.date] || []` return the inherited property, and the `push` then throws a TypeError. Win dates from `getTodayISO` have the form YYYY-MM-DD and are never such names, so for the dates the hook writes, insertion-ordered keys and ordinary buckets are what the source does.
- JsString.NatToString: renders every natural number as plain digits, and `JsString.IntToString` puts a sign before them. A JavaScript number prints in exponent form from 1e21 up and loses integer precision above 2^53, and neither is modelled. The date getters whose values reach `String(n)` here stay within ±275760, far inside that range.
- A win's image is stored as the URL passed to `updateWinImage`, in its `image` field (`image: Option<string>` here). The `win.hasImage` flag that src/components/features/wins/WinItem.jsx:5 reads is never set by this hook. That component is not part of this model.
