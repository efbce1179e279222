# yc-directory helpers, modelled in Dafny

This project models the pure business helpers of the startup directory
(`lib/helpers.ts`) and proves what they promise:

- **Form validation** (`validateStartupForm`): four per-field checks (required,
  minimum length, maximum length) write at most one message per field into an
  error map; the form is valid when the map is empty. Blankness is JavaScript's
  `trim()` test and lengths are `String.length`, that is UTF-16 code units.
- **Sorting** (`sortStartups`): a copy of the list is sorted newest first or
  most viewed first with the host's stable sort; any other option returns the
  copy unchanged. A missing view count sorts as 0.
- **Statistics** (`calculateTotalViews`, `calculateTotalLikes`,
  `findTopStartupByViews`): `reduce` folds summing views and like counts, and
  a fold keeping the first listing with the most views.
- **Likes** (`toggleLikeInArray`, `hasUserLiked`, `getLikeCount`): adding or
  removing a user id in a like array, membership, and the count of a possibly
  missing array.
- **Relative dates** (`formatRelativeTime`): the whole-day difference between
  a timestamp and the current time, bucketed into "Today", "Yesterday",
  "N days ago", "N weeks ago", "N months ago" and "N years ago". The current
  time is a parameter.

Modules:

- `Wrappers` (`wrappers.dfy`): `Option` for `null`/`undefined`.
- `JsString` (`js_string.dfy`): JavaScript's `trim`, UTF-16 length and integer
  rendering.
- `Listing` (`listing.dfy`): the startup record.
- `FormValidation` (`form_validation.dfy`).
- `Sorting` (`sorting.dfy`).
- `Statistics` (`statistics.dfy`).
- `Likes` (`likes.dfy`).
- `DateFormat` (`date_formatting.dfy`).

The form check and the sort change state step by step in the source, so they
are methods:

- `ValidateStartupForm` fills an error map field by field, and is proved equal
  to a declarative map of per-field errors.
- `SortStartups` copies the list into a fresh array and sorts it in place with
  a stable insertion sort (`SortInPlace`, `InsertLast`). It is proved equal to
  a functional stable sort, `SortDescending`. That sort is shown to be
  descending, a permutation and stable, and to be the only arrangement with
  those three properties.

The other helpers are single expressions or folds, so they are functions with
lemmas.

## Model

| member | source | states |
|---|---|---|
| JsString.TrimStartDropsWhitespacePrefix | lib/helpers.ts:36 | the start of `trim` removes exactly the leading run of whitespace: the rest is a suffix that does not start with whitespace |
| JsString.TrimEndDropsWhitespaceSuffix | lib/helpers.ts:36 | the end of `trim` removes exactly the trailing run of whitespace: the rest is a prefix that does not end with whitespace |
| JsString.TrimEmptyIffAllWhitespace | lib/helpers.ts:36 | `value.trim()` is empty exactly when every character of `value` is whitespace |
| JsString.Trim | lib/helpers.ts:36 | `value.trim()`: its properties are stated by `TrimStartDropsWhitespacePrefix`, `TrimEndDropsWhitespaceSuffix` and `TrimEmptyIffAllWhitespace` |
| JsString.Utf16Length | lib/helpers.ts:38 | `value.length` in UTF-16 code units; its properties are stated by `Utf16LengthBounds` |
| JsString.Utf16LengthBounds | lib/helpers.ts:38 | `length` lies between the code-point count and twice that count; it equals the code-point count for basic-plane text and is 0 only for the empty string |
| JsString.NatToStringRoundTrip | lib/helpers.ts:235-238 | the decimal rendering of a count reads back as that count |
| JsString.IntToString | lib/helpers.ts:235-238 | the `${n}` rendering: never empty, and starts with '-' exactly for a negative number; that it is exact is stated by `IntToStringRoundTrip` and `IntToStringInjective` |
| JsString.IntToStringRoundTrip | lib/helpers.ts:235-238 | the `${n}` rendering is an integer literal that parses back to `n`, negative numbers included |
| JsString.IntToStringInjective | lib/helpers.ts:235-238 | different numbers render as different text |
| FormValidation.BlankIffTrimmedEmpty | lib/helpers.ts:36 | the model's blank test (every character whitespace) is the source's `trim().length === 0` |
| FormValidation.FieldError | lib/helpers.ts:36-67 | one field's message, or none; its meaning is stated by `FieldErrorNoneIffAcceptable` and `MessageNamesFirstFailure` |
| FormValidation.RuleFor | lib/helpers.ts:36-67 | each field's required message, minimum length and optional maximum length with their messages (title 3 to 100, description 20 to 500, category 3 to 20, pitch at least 10 with no maximum); the numbers and texts are stated only by its body, and `RuleTableDistinct` and `MessageNamesFirstFailure` state how they are used |
| FormValidation.FieldErrorNoneIffAcceptable | lib/helpers.ts:36-42 | a field gets no message exactly when it has a non-whitespace character and its length is within the minimum and the optional maximum |
| FormValidation.RuleTableDistinct | lib/helpers.ts:36-67 | for each of the four fields, the required, too-short and too-long messages are pairwise different |
| FormValidation.MessageNamesFirstFailure | lib/helpers.ts:36-67 | the required message appears exactly for a blank value; the minimum-length message exactly for a non-blank short value; the maximum-length message exactly for a non-blank value that meets the minimum and exceeds the maximum |
| FormValidation.EntryIffNotAcceptable | lib/helpers.ts:32-73 | a field has an entry in the error map exactly when its value is not acceptable |
| FormValidation.NoErrorsIffAllAcceptable | lib/helpers.ts:69-72 | the error map is empty exactly when all four fields are acceptable |
| FormValidation.ErrorsFieldwise | lib/helpers.ts:35-67 | a field's entry depends only on that field's value |
| FormValidation.AllFieldsFail | lib/helpers.ts:32-73 | when every field fails, the map has exactly the four fields as keys |
| FormValidation.CheckLeavesOthers | lib/helpers.ts:35-67 | one field's checks leave the other fields' entries unchanged |
| FormValidation.CheckedInOrderAt | lib/helpers.ts:35-67 | after all four checks, each field's entry is the one its own check produced |
| FormValidation.ChecksInSequence | lib/helpers.ts:35-67 | running the title, description, category and pitch checks in order produces the per-field error map |
| FormValidation.CheckField | lib/helpers.ts:36-42 | one field's if-chain leaves the map updated with that field's first failing message, or unchanged when the field passes |
| FormValidation.ValidateStartupForm | lib/helpers.ts:32-73 | the returned errors are the per-field error map; `isValid` holds exactly when that map is empty, that is exactly when every field is acceptable |
| Listing.ViewsOrZero | lib/helpers.ts:106-107 | the view count as the comparators and folds read it, 0 when it is missing; stated only by its body, and used by the sort key, the view total and the top-listing fold |
| Sorting.KeyOf | lib/helpers.ts:97-108 | the compared value of each comparator: the creation time for "newest", the view count (missing as 0) for "most_viewed"; stated only by its body, and the order it induces is stated by `SortDescendingIsDescending` |
| Sorting.SortDescending | lib/helpers.ts:97-109 | the stable descending sort that `SortStartups` is proved to compute: same length as its input; descending, permutation, stability and uniqueness are stated by `SortDescendingIsDescending`, `SortDescendingPermutation`, `SortDescendingKeepsTiesInOrder` and `StableSortIsSortDescending` |
| Sorting.InsertPermutation | lib/helpers.ts:97-109 | inserting one listing adds exactly that listing |
| Sorting.SortDescendingPermutation | lib/helpers.ts:94-109 | the sorted list holds the same listings, with the same multiplicities |
| Sorting.InsertDescending | lib/helpers.ts:97-109 | inserting into a descending list keeps it descending |
| Sorting.SortDescendingIsDescending | lib/helpers.ts:97-109 | the sorted list is non-increasing in the chosen key, matching a `b - a` comparator |
| Sorting.InsertWithKey | lib/helpers.ts:97-109 | inserting a listing puts it after every earlier listing with the same key |
| Sorting.SortDescendingKeepsTiesInOrder | lib/helpers.ts:97-109 | listings with equal keys keep their input order |
| Sorting.DescendingArrangementUnique | lib/helpers.ts:97-109 | two descending lists with the same listings per key, in the same order, are equal |
| Sorting.StableSortIsSortDescending | lib/helpers.ts:97-109 | every stable descending rearrangement of the input is the model's sort, so the result does not depend on which stable algorithm the host uses |
| Sorting.InsertAt | lib/helpers.ts:97-109 | placing a listing where the backward scan stops is the functional insertion |
| Sorting.InsertLast | lib/helpers.ts:97-109 | one in-place step turns the sorted prefix plus the next element into the functional insertion, and leaves the rest of the array alone |
| Sorting.SortInPlace | lib/helpers.ts:97-109 | the array ends up as the functional stable descending sort of its old contents |
| Sorting.SortStartups | lib/helpers.ts:92-113 | "newest" sorts by creation time and "most_viewed" by views, missing views counting as 0; both results are descending, a permutation and stable; any other option returns the list unchanged |
| Statistics.CalculateTotalViews | lib/helpers.ts:128-132 | the `reduce` from 0 adding each view count, a missing one as 0; its properties are stated by `TotalsAdditive`, `TotalsOfOne` and `TotalsUnderPermutation` |
| Statistics.CalculateTotalLikes | lib/helpers.ts:139-143 | the `reduce` from 0 adding each like array's length, a missing array as 0; its properties are stated by `TotalsAdditive`, `TotalsOfOne`, `TotalsUnderPermutation` and `TotalLikesNonNegative` |
| Statistics.SumBy | lib/helpers.ts:128-143 | the `reduce` from 0 adding a measure of each listing, left to right; stated by its body, and its properties by `SumByAppend` and `SumByPermutation` |
| Statistics.SumByAppend | lib/helpers.ts:128-143 | the fold over a concatenation is the sum of the folds |
| Statistics.SumByPermutation | lib/helpers.ts:128-143 | the fold does not depend on the order of the listings |
| Statistics.TotalsAdditive | lib/helpers.ts:128-143 | total views and total likes add up over concatenated lists, and are 0 for the empty list |
| Statistics.TotalsOfOne | lib/helpers.ts:128-143 | one listing contributes its views (0 when missing) and its like count (0 when missing) |
| Statistics.TotalsUnderPermutation | lib/helpers.ts:128-143 | reordering the listings changes neither total |
| Statistics.TotalLikesNonNegative | lib/helpers.ts:139-143 | total likes is never negative |
| Statistics.TopByViews | lib/helpers.ts:153-157 | the fold returns a listing of the input with the most views |
| Statistics.FindTopStartupByViews | lib/helpers.ts:150-158 | null exactly for the empty list; otherwise a listing of the input with views at least those of every listing |
| Statistics.TopIsFirstMaximum | lib/helpers.ts:153-157 | because replacement needs strictly more views, the result is the first listing with the maximum view count |
| Statistics.FindTopIsFirstMaximum | lib/helpers.ts:150-158 | for a non-empty list the result is the first listing with the most views |
| Likes.HasUserLiked | lib/helpers.ts:191-193 | `includes` is true exactly when the id is in the array |
| Likes.RemoveAll | lib/helpers.ts:178 | the filter removes every copy of the id and keeps every other id with its multiplicity |
| Likes.RemoveAllAppend | lib/helpers.ts:178 | filtering a concatenation filters each part |
| Likes.RemoveAllAbsent | lib/helpers.ts:178 | filtering out an absent id returns the array unchanged |
| Likes.ToggleLikeInArray | lib/helpers.ts:172-183 | a toggle flips whether the user has liked and leaves every other user's likes unchanged, multiplicities included; an absent user is appended at the end of the unchanged array; a present user is filtered out, which keeps the other ids in their order (`RemoveAllAppend`, `RemoveAllAbsent`) |
| Likes.ToggleTwiceRestores | lib/helpers.ts:172-183 | for a user who had not liked, two toggles give back the original array |
| Likes.ToggleTwiceMovesToEnd | lib/helpers.ts:172-183 | for a user who had liked, two toggles remove all of that user's copies and append a single one at the end |
| Likes.ToggleLikeCount | lib/helpers.ts:172-183 | a like adds one to the count; an unlike removes every copy of the user |
| Likes.RemoveAllKeepsNoDuplicates | lib/helpers.ts:178 | filtering keeps an array free of duplicates |
| Likes.OccursOnce | lib/helpers.ts:172-183 | in a duplicate-free array a present user occurs exactly once |
| Likes.ToggleKeepsNoDuplicates | lib/helpers.ts:172-183 | on a duplicate-free array a toggle keeps it duplicate-free and changes the count by exactly one |
| Likes.GetLikeCount | lib/helpers.ts:200-202 | the array's length, 0 for a missing array: that a missing array gives 0 and that duplicates are counted is stated only by its body; `LikeCountVersusDistinctUsers` and `ToggleLikeCount` state its relation to the users and to a toggle |
| Likes.LikeCountVersusDistinctUsers | lib/helpers.ts:200-202 | the like count is at least the number of distinct users, and equal to it on a duplicate-free array |
| DateFormat.FormatRelativeTime | lib/helpers.ts:227-239 | the ladder `AgeOf` of `DiffInDays`, rendered by `Render`; its properties are stated by `TodayIffWithinOneDay`, `YesterdayIffOneDay`, `FutureDateReadsNegativeDaysAgo`, `SevenDaysReadsOneWeeksAgo` and `OlderDateNeverReadsYounger` |
| DateFormat.Render | lib/helpers.ts:233-238 | the text of each bucket, with the unit always plural; that the text determines the bucket and number is stated by `RenderInjective` |
| DateFormat.DiffInDays | lib/helpers.ts:230-231 | the day count is the floor of the elapsed time divided by a day, also for negative (future) differences |
| DateFormat.AgeOf | lib/helpers.ts:233-238 | the buckets partition the day counts: 0 Today, 1 Yesterday, every other count below 7 (negatives included) is days with the count itself, 7–29 weeks (1–4), 30–364 months (1–12), 365 and up years (at least 1), each number being the floor of the count divided by the unit |
| DateFormat.RenderInjective | lib/helpers.ts:233-238 | two ages give the same text exactly when they are equal, so the text determines the bucket and the number |
| DateFormat.TodayIffWithinOneDay | lib/helpers.ts:230-233 | "Today" exactly when the elapsed time is at least 0 and under one day |
| DateFormat.YesterdayIffOneDay | lib/helpers.ts:230-234 | "Yesterday" exactly when the elapsed time is at least one day and under two |
| DateFormat.FutureDateReadsNegativeDaysAgo | lib/helpers.ts:230-235 | a future date lands in the days bucket with a negative number: the text starts with '-' and ends with " days ago" |
| DateFormat.SevenDaysReadsOneWeeksAgo | lib/helpers.ts:230-236 | exactly seven days before now reads "1 weeks ago" (the unit is not singularised) |
| DateFormat.OlderDateNeverReadsYounger | lib/helpers.ts:230-238 | of two past dates, the older one never reads as younger: its bucket is later, or it is the same bucket with a number at least as large |

## Left out

- `formatDate` is not modelled: it formats through the host's locale library (`toLocaleDateString` with the "en-US" locale).
- Parsing an ISO date string with `new Date(...)` is not modelled: timestamps are integer milliseconds. Invalid dates, whose time is NaN, are left out. So are the resulting NaN comparator results in `sortStartups` and the NaN day counts in `formatRelativeTime`.
- JavaScript numbers are IEEE doubles; the model uses unbounded integers. View counts above 2^53, fractional or NaN views, and rounding in the sums are not modelled. In particular, `views || 0` also maps NaN to 0, and the model has no NaN.
- The `!data.title` guard against `null`/`undefined` field values is not modelled: the form fields have type `string`, and an empty string is already blank.
- Dafny strings hold Unicode scalar values, so lone UTF-16 surrogates cannot occur in the model's strings. `Utf16Length` counts a supplementary-plane character as two code units, as `String.length` does.
- Sorting.SortInPlace: the host's sort algorithm is not specified by the language. The model uses a stable insertion sort. `StableSortIsSortDescending` shows that every stable sort with these comparators gives the same result.
- The TypeScript generics (`T extends StartupForSort`) are reduced to one `Startup` record. Its `title` field stands for the fields the helpers carry along untouched.
- The clock read by `formatRelativeTime` (`new Date()`) is the `now` parameter.
- FormValidation.CheckField: the source spells out one if-chain per field with literal limits and messages. The model runs one if-chain driven by a table (`RuleFor`) holding the same limits and messages.
