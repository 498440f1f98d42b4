# ECHO movie page: rating loader, filter and list builder in Dafny

ECHO is a static web page that lists the films and series a user has rated.
It reads the user's ratings from `data/ratings.json`, fetches each title's
catalog record from the OMDb service, keeps the records that pass the four
filter groups on the page (category, genre, region and year), and shows them
sorted by year or by rating. This project models the decision logic of
`scripts/scripts.js` and proves its properties:

- **Loading ratings** (`Ratings`). `RatingStore.Load` is the loop of
  `loadUserRatings`. It clears the store and then keeps a record only when:
  - its id is non-empty;
  - its id has not been accepted yet;
  - its rating lies in [1, 10].

  Proved: the store holds exactly the first acceptable record of each id, in
  document order. An unacceptable earlier record with the same id does not
  block a later acceptable one.
- **The filter** (`Filter`). `ShouldRender` is `shouldRenderMovie` together
  with its inner `isYearInRange`. Proved:
  - the category, genre, region and year rules, label by label;
  - the second region check can never change the outcome;
  - year fields "a", "a–b" and "a–" read back as spans, and year buttons
    match as stated.

  One quirk is proved rather than hidden: a series still running, whose Year
  is written "2019–", gets the end year 0. It therefore matches no numeric
  year button, yet counts as "2020以前".
- **Building the list** (`Pipeline`). `MoviePage.Render` is the loop of
  `renderMovies`. For each stored rating, in store order:
  1. it fetches the catalog record;
  2. it keeps the record when the fetch succeeded, the record passes the
     filter and its imdbID is not listed yet;
  3. it joins the record with the rating and name.

  Finally it sorts the list with the page's comparator. Proved: the list holds
  exactly the first passing record of each imdbID, each with its own rating
  and name. It has no imdbID twice, every entry passes the filter, and the
  order agrees with the comparator.
- **Sorting** (`StableSort`). `Array.prototype.sort` with the page's
  comparator is modelled as a stable sort by a descending key. This is sound
  because the comparator is a difference of keys and therefore consistent
  (`Pipeline.CompareIsConsistent`). It is also the only possible outcome:
  every ordered arrangement that keeps ties in their input order equals it.
- **Deduplication** (`FirstWins`). The loader and the list builder share one
  deduplication scheme: the first accepted candidate of each key wins.
  `KeepFirst` specifies that scan. It is characterised independently as the
  candidates at first-of-their-key positions.
- **String primitives** (`Text`). The JavaScript string primitives the code
  relies on are written out with their language semantics:
  - `trim`;
  - `split` on a string or on a character class;
  - `replace(/\D/g, '')`;
  - `parseInt(s, 10) || 0`;
  - `Number(s)` on digit strings.

A region label outside the four groups and "其他" imposes no constraint
(`scripts/scripts.js:197-221`; see `Filter.RegionRules`).

`getMovieDetails` (`scripts/scripts.js:46-58`) returns whatever JSON the
service sends, including its "not found" body, and `null` only when the request
or the JSON parsing fails. The model takes the lookup as a function
`details: string -> Option<Movie>`. `None` stands for `null`; any body the
service returns is a record whose missing fields are empty strings.

## Model

| member | source | states |
|---|---|---|
| Text.Show | scripts/scripts.js:240 | the decimal notation of a year is a non-empty digit string |
| Text.ShowRoundTrip | scripts/scripts.js:240 | reading back the digits of a number's notation gives the number |
| Text.TrimStart | scripts/scripts.js:202 | the result is a suffix of the input, everything dropped is white space, and it does not start with white space |
| Text.TrimEnd | scripts/scripts.js:202 | the result is a prefix of the input, everything dropped is white space, and it does not end with white space |
| Text.Trim | scripts/scripts.js:208 | `trim()` yields an infix surrounded only by white space that neither starts nor ends with white space |
| Text.TrimLeavesWord | scripts/scripts.js:208 | a country name without surrounding white space is unchanged by `trim()` |
| Text.KeepDigits | scripts/scripts.js:240 | `replace(/\D/g,'')` yields a digit string no longer than its input and leaves a digit string unchanged; `KeepDigitsOfChar` and `KeepDigitsAppend` pin it to the input's digits in order |
| Text.KeepDigitsOfChar | scripts/scripts.js:240 | a single character is kept iff it is a digit |
| Text.KeepDigitsAppend | scripts/scripts.js:240 | the digits of a concatenation are the digits of the first part followed by those of the second |
| Text.KeepDigitsCounts | scripts/scripts.js:240 | each digit occurs in the result as often as in the input |
| Text.ParseIntOr0 | scripts/scripts.js:95 | `parseInt(s, 10) \|\| 0`; characterised by `ParseIntReadsLeadingNumber` and `ParseIntStopsAt` |
| Text.LeadingDigits | scripts/scripts.js:95 | the longest digit prefix: a prefix of digits not followed by a digit |
| Text.ParseIntReadsLeadingNumber | scripts/scripts.js:95 | `parseInt(s,10)\|\|0` of a number's notation followed by a non-digit is that number |
| Text.LeadingNumber | scripts/scripts.js:95 | the digit run of digits followed by a non-digit is exactly those digits |
| Text.TrimStartBefore | scripts/scripts.js:95 | skipping leading white space does not reach past a non-space character |
| Text.LeadingDigitsBefore | scripts/scripts.js:95 | the digit run does not extend past a non-digit |
| Text.ParseIntStopsAt | scripts/scripts.js:95 | `parseInt` ignores everything after a character that is not white space, a digit or a sign |
| Text.SignedValueBefore | scripts/scripts.js:95 | the signed digit run does not extend past a non-digit, non-sign character |
| Text.NumberOf | scripts/scripts.js:249 | `Number(filterYear)` on the strings a year button carries; characterised by `NumberOfShow` |
| Text.NumberOfShow | scripts/scripts.js:249 | `Number` of a year's notation is that year |
| Text.Split | scripts/scripts.js:138-139 | `split` always yields at least one piece |
| Text.JoinSplitFrom | scripts/scripts.js:138-139 | the pieces of a partial split join back to the text read so far |
| Text.SplitThenJoin | scripts/scripts.js:138-139 | joining the pieces of `split(sep)` with `sep` gives the original string |
| Text.FirstPieceFrom | scripts/scripts.js:95 | the first piece of a partial split is the text before the first separator |
| Text.FirstPiece | scripts/scripts.js:95 | `split(sep)[0]` is a prefix of the string, followed by `sep` unless it is the whole string |
| Text.SplitFromWord | scripts/scripts.js:138-139 | text without the separator's first character goes into the current piece |
| Text.JoinThenSplit | scripts/scripts.js:138-139 | pieces without the separator's first character come back unchanged from join-then-split |
| Text.SplitAny | scripts/scripts.js:239 | splitting on a character class always yields at least one piece |
| Text.SplitAnyFromWord | scripts/scripts.js:239 | text without separator characters goes into the current piece |
| Text.JoinThenSplitAny | scripts/scripts.js:239 | pieces free of separator characters come back unchanged when joined by one separator and split on the class |
| FirstWins.KeepFirst | scripts/scripts.js:28-36 | the left-to-right scan that keeps a candidate unless its key was kept before; characterised by `KeepFirstIsFirstOccurrences`, `KeptAreCandidates` and `KeptKeysDistinct` |
| FirstWins.KeptKeys | scripts/scripts.js:71-87 | a key is among the kept values exactly when some input position yields a candidate with that key |
| FirstWins.KeepFirstIsFirstOccurrences | scripts/scripts.js:28-36 | the scan keeps exactly the first-of-key candidates, in input order |
| FirstWins.PrefixKeepsFirstOccurrences | scripts/scripts.js:28-36 | after each prefix of the input the scan holds that prefix's first-of-key candidates |
| FirstWins.KeptKeysDistinct | scripts/scripts.js:75-76 | no two kept values share a key |
| FirstWins.KeptAreCandidates | scripts/scripts.js:71-87 | a value is kept exactly when it is the candidate of a first-of-key position |
| FirstWins.OccurrenceMembers | scripts/scripts.js:71-87 | membership in the first-of-key list of a prefix, position by position |
| StableSort.Insert | scripts/scripts.js:93-104 | insertion preserves the multiset of elements plus the new one |
| StableSort.InsertKeepsSorted | scripts/scripts.js:93-104 | inserting into a descending list keeps it descending |
| StableSort.InsertKeepsKeyOrder | scripts/scripts.js:93-104 | the new element comes first among the elements with its key, and the others keep their order |
| StableSort.Sort | scripts/scripts.js:93-104 | the sort is a permutation, descending by key, and keeps elements with equal keys in input order |
| StableSort.WithKeyMembers | scripts/scripts.js:93-104 | the equal-key subsequence holds exactly the elements of the list with that key, both directions |
| StableSort.FirstKeyIsGreatest | scripts/scripts.js:93-104 | the head of a descending list has the greatest key |
| StableSort.SortedStableUnique | scripts/scripts.js:93-104 | two descending lists with the same equal-key subsequences are equal |
| StableSort.InsertKeepsDistinct | scripts/scripts.js:93-104 | insertion of a new key keeps keys distinct |
| StableSort.SortKeepsDistinct | scripts/scripts.js:93-104 | sorting keeps a list's distinct ids distinct |
| Filter.ShouldRender | scripts/scripts.js:136-254 | `shouldRenderMovie`: the conjunction of the four group checks; characterised by the rule lemmas below |
| Filter.CategoryOk | scripts/scripts.js:147-160 | the category check; characterised by `CategoryRules` |
| Filter.GenreOk | scripts/scripts.js:164-186 | the genre check; characterised by `GenreRule` and `GenreOfListedRecord` |
| Filter.RegionOk | scripts/scripts.js:188-221 | both region checks; characterised by `RegionRules` and `SingleCountryRegion` |
| Filter.YearOk | scripts/scripts.js:225-230 | the year check, skipped for "全部"; characterised through `YearInRange` |
| Filter.ParseYear | scripts/scripts.js:239-242 | the start and end year of a Year field; characterised by `ParseYearRoundTrip` |
| Filter.YearInRange | scripts/scripts.js:234-251 | `isYearInRange`; characterised by `YearInRangeBySpan`, `RangeMatching`, `SingleYearMatching`, `OpenRunMatching`, `NotAvailableMatchesNothing` and `NonNumericMatchesNothing` |
| Filter.AllSelectionAcceptsEverything | scripts/scripts.js:136-254 | with every group at "全部" every record is shown |
| Filter.CategoryRules | scripts/scripts.js:147-160 | "电影" only movies, "剧集" only non-Animation series, "动漫" only Animation, any other label no constraint |
| Filter.GenreTable | scripts/scripts.js:164-180 | an unlisted genre label is used verbatim; each of the fourteen table labels stands for its tag |
| Filter.GenreRule | scripts/scripts.js:182-186 | a genre label other than "全部" requires its tag among the record's genres, both directions |
| Filter.GenreOfListedRecord | scripts/scripts.js:138 | a Genre field written as a ", "-list splits back into its genres, and a label matches iff its tag is one of them |
| Filter.RegionRules | scripts/scripts.js:188-221 | a group label needs some trimmed country in the group; "其他" needs every country outside all groups; other labels constrain nothing; the repeated check never changes the outcome |
| Filter.NoCountryIsOther | scripts/scripts.js:139 | a record without countries is "其他" and in no group |
| Filter.SingleCountryRegion | scripts/scripts.js:197-221 | a one-country record is in a group iff the country is listed, and "其他" iff it is in no group |
| Filter.GermanyInNoGroup | scripts/scripts.js:189-194 | "Germany" is in none of the four country groups |
| Filter.GermanyIsOther | scripts/scripts.js:197-221 | a record from Germany is "其他" and not "国语" |
| Filter.ChinaIsNotOther | scripts/scripts.js:197-221 | a record from China is "国语" and not "其他" |
| Filter.PieceValueOfShow | scripts/scripts.js:240 | a piece holding a year's notation reads back as that year |
| Filter.ShowHasNoSeparator | scripts/scripts.js:239 | a year's notation contains none of "–", "~", "-" |
| Filter.ParseYearRoundTrip | scripts/scripts.js:239-242 | "a" reads as a..a, "a–b" as a..b, and an open run "a–" as a..0, for each separator "–", "~", "-" |
| Filter.DigitLedIsAvailable | scripts/scripts.js:236 | a Year field starting with a digit is neither empty nor "n/a" |
| Filter.ShowIsPlainNumber | scripts/scripts.js:245-246 | a year's notation is neither "全部" nor "2020以前" |
| Filter.YearInRangeBySpan | scripts/scripts.js:234-251 | "2020以前" matches iff the end year is at most 2020; a numeric button n matches iff start <= n <= end |
| Filter.RangeMatching | scripts/scripts.js:234-251 | "a–b" (any of the three separators) matches year n iff a <= n <= b, and "2020以前" iff b <= 2020 |
| Filter.SingleYearMatching | scripts/scripts.js:234-251 | a single year matches only itself, and "2020以前" iff it is at most 2020 |
| Filter.OpenRunMatching | scripts/scripts.js:239-250 | an open run "a–" (any of the three separators) matches no positive year, yet matches "2020以前" |
| Filter.NotAvailableMatchesNothing | scripts/scripts.js:236 | an empty Year or "n/a" in any letter case matches no year selection |
| Filter.NonNumericMatchesNothing | scripts/scripts.js:249-250 | a selection other than "全部" and "2020以前" that `Number` reads as NaN matches no Year |
| Filter.ShowExampleYears | scripts/scripts.js:240 | the notations of the example years |
| Filter.YearExamples | scripts/scripts.js:234-251 | "2019–2021" matches 2019, 2020, 2021 but not 2022 nor "2020以前"; "2015" matches "2020以前" |
| Ratings.IdSetAppend | scripts/scripts.js:31 | adding a record to the store adds its id to the seen ids |
| Ratings.RatingStore.constructor | scripts/scripts.js:15 | the store starts empty and well formed |
| Ratings.RatingStore.Load | scripts/scripts.js:19-43 | failure leaves the store as it was (fetch) or empty (no list) and returns false; otherwise it holds exactly the loaded records, ids distinct and all acceptable, and returns true |
| Ratings.Loaded | scripts/scripts.js:26-36 | the store after loading a list; characterised by `FirstAcceptableWins`, `LoadedInDocumentOrder` and `LoadedWellFormed` |
| Ratings.LoadedWellFormed | scripts/scripts.js:29-31 | loaded ids are distinct, ids non-empty and ratings in [1, 10] |
| Ratings.FirstAcceptableWins | scripts/scripts.js:28-36 | a record is stored iff it is acceptable and no earlier acceptable record has its id |
| Ratings.LoadedInDocumentOrder | scripts/scripts.js:28-36 | the stored records keep document order |
| Ratings.LoadExamples | scripts/scripts.js:29-35 | a duplicate id keeps the first record; an out-of-range rating does not claim its id |
| Pipeline.Compare | scripts/scripts.js:93-104 | the comparator handed to `sort`; characterised by `CompareIsConsistent` |
| Pipeline.LeadingYear | scripts/scripts.js:95-96 | `parseInt(Year.split('–')[0], 10) \|\| 0`; characterised by `LeadingYearIsParseInt` and the `LeadingYearOf…` lemmas |
| Pipeline.CompareIsConsistent | scripts/scripts.js:93-104 | the comparator is the difference of the sort keys: zero on equal keys, antisymmetric, transitive |
| Pipeline.LeadingYearIsParseInt | scripts/scripts.js:95-96 | `parseInt(Year.split('–')[0])` equals `parseInt(Year)` |
| Pipeline.LeadingYearAfterNumber | scripts/scripts.js:95-96 | a Year starting with a number followed by a non-digit sorts as that number |
| Pipeline.LeadingYearOfRange | scripts/scripts.js:95-96 | "a–b" sorts as year a |
| Pipeline.LeadingYearOfSingle | scripts/scripts.js:95-96 | "a" sorts as year a |
| Pipeline.LeadingYearWithoutDigits | scripts/scripts.js:95-96 | a Year without a leading number, such as "N/A", sorts as 0 |
| Pipeline.Arrange | scripts/scripts.js:93-104 | the sorted list is a permutation, never puts a later element first by the comparator, and keeps ties in order |
| Pipeline.ArrangeIsTheStableSort | scripts/scripts.js:93-104 | any ordered arrangement keeping ties in order equals the sorted list |
| Pipeline.RatingOrderExample | scripts/scripts.js:98-103 | ratings 7, 9, 9, 3 come out 9, 9, 7, 3 with the nines in input order |
| Pipeline.SortedTail | scripts/scripts.js:98-103 | keys 9, 9, 3 are already in order |
| Pipeline.InsertSeven | scripts/scripts.js:98-103 | a 7 goes between the nines and the 3 |
| Pipeline.MoviePage.constructor | scripts/scripts.js:59 | the movie list starts empty |
| Pipeline.MoviePage.Render | scripts/scripts.js:61-104 | the list becomes the sorted accumulation of the store's entries |
| Pipeline.Accumulate | scripts/scripts.js:71-87 | the list before sorting; characterised by `AccumulatedContents`, `AccumulatedDistinct` and `AccumulatedInStoreOrder` |
| Pipeline.Rendered | scripts/scripts.js:71-104 | the sorted list; characterised by `RenderedList` |
| Pipeline.AccumulatedContents | scripts/scripts.js:71-87 | a joined record is listed iff some entry fetched it successfully, it passes the filter, no earlier entry yielded its imdbID, and it carries that entry's rating and name |
| Pipeline.FirstShownIsFirstOfKey | scripts/scripts.js:71-87 | an entry yields a listed record exactly when it is the first to yield a shown record with that imdbID |
| Pipeline.AccumulatedDistinct | scripts/scripts.js:75-76 | no imdbID is listed twice |
| Pipeline.AccumulatedInStoreOrder | scripts/scripts.js:71-87 | records are listed in the order of the entries that yielded them |
| Pipeline.SkippedEntry | scripts/scripts.js:72-73 | an entry whose fetch fails or whose record is filtered out adds nothing |
| Pipeline.RenderedList | scripts/scripts.js:61-104 | the shown list has distinct imdbIDs, only filtered records, the same records as before sorting, in comparator order |
| Pipeline.NewestFirstExample | scripts/scripts.js:71-97 | two passing records from years y1 < y2 are shown newest first under "latest" |
| Pipeline.KeepBoth | scripts/scripts.js:71-87 | two candidates with different keys are both kept, in order |
| Pipeline.SortPair | scripts/scripts.js:93-97 | of two elements the one with the larger key comes first |

## Left out

- Network and JSON I/O. Reading `data/ratings.json` is the `Document` parameter of `Load`. `getMovieDetails` (`scripts/scripts.js:46-58`) is the `details` parameter of `Render`, with `None` for a failed request. Asynchrony and the order in which requests complete are not modelled.
- DOM output. The page shows nothing beyond the list `MoviePage.movies`: the movie cards, the "nothing matches" message, the error message and a missing container element are not modelled.
- `updateFilters`, the button handlers, `scripts/init.js` and the top-level `movies.sort` call at `scripts/scripts.js:264-280` are not part of this model. That call runs once at load time, on the empty list.
- Logging (`console.log`, `console.warn`, `console.error`) has no effect on the model.
- Missing JSON fields. A missing `Genre`, `Country` or `Year` is modelled as the empty string, which is also what the code does with a falsy field in the filter. Values of other JSON types in those fields are not modelled.
- Pipeline.Compare: a record without `Year` makes the code's comparator throw a TypeError under the "latest" sort, and the `catch` block of `renderMovies` then fails on the out-of-scope `container`, so the page keeps its loading message. The model has no exception path and sorts such a record as year 0. Such a record does reach the sort: the "not found" body has no `Year`, and every record passes when all groups are at "全部" (`Filter.AllSelectionAcceptsEverything`).
- Ratings.RatingStore.Load: ratings are modelled as numbers. A rating given as a string, which JavaScript compares after conversion, is not modelled. Neither is a non-string id, nor a `null` entry in the list: the code has then stored the acceptable records before the `null` when it throws, and returns `false` with that partial store.
- Pipeline.Compare: the `parseFloat` fallback for non-numeric ratings is not modelled, since ratings are numbers.
- Floating point. Ratings and keys are exact reals. The code's number subtraction and its rounding of very long digit strings are not modelled.
- Text.NumberOf models `Number(s)` only on the strings a year button carries: white space and digits with an optional sign. Decimals, exponents, hexadecimal, `Infinity` and similar forms are treated as NaN.
- Filter.YearInRange: `Number` applied to a Year piece sees only its digits, so the NaN case of the code's `|| 0` never arises. The model reads the digits as a natural number.
- Case folding is limited to what `toLowerCase() === 'n/a'` can match: "n/a" in any letter case.
- Lookups in the genre and region tables via inherited object keys such as "constructor" are not modelled. In the model the tables hold exactly the listed labels.
