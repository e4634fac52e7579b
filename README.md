# Book Arena leaderboard — a Dafny model

This project models the two computing parts of the Book Arena reading
competition:

- **The `GET /api/arena` handler** (`app/api/arena/route.ts`). The handler:
  1. turns the rows of the weekly sheet into players. `toInt` reads numbers and `isTrueLike` reads flags;
  2. drops nameless rows and keeps the submitted players;
  3. sorts the players by score, then by books finished this week, then by pages added, then by name, and numbers them from 1;
  4. reconciles the active employee roster against the ranked names, which gives the sorted "missed" list;
  5. lists the week's new finishers and the totals, and labels the response with the requested week (default `CURRENT`).
- **The TV screen's poll step** (`app/tv/page.tsx`). Each fetched leaderboard rebuilds two records:
  - the rank of every name;
  - every name's movement since the previous poll.

  The poll also stores the leader and fires confetti when a named leader replaces a different named leader. The screen shows the top five entries, each with a "▲ +n" or "▼ n" chip when its rank moved.

The model is split into modules that follow the program's layers:

| file | module | contents |
|---|---|---|
| `wrappers.dfy` | `Wrappers` | `Option` |
| `js_string.dfy` | `JsString` | the string operations the handler uses: `trim`, `toLowerCase`, the first-match `replace`, the symbol-stripping regex, and `localeCompare` (as code-point order) |
| `js_number.dfy` | `JsNumber` | `Number(s)` on the texts `toInt` can produce, over exact reals; `String(n)` for integers |
| `js_array.dfy` | `JsArray` | `filter` and its laws |
| `js_sort.dfy` | `JsSort` | `sort` as a stable insertion sort. It is a function (`InsertionSort`) that the in-place array methods (`InsertInPlace`, `SortInPlace`, `SortedCopy`) are proved equal to, with sortedness, permutation and stability proved about the function |
| `arena_route.dfy` | `ArenaRoute` | the handler's data model, `toInt`, `isTrueLike`, each pipeline stage, the whole response as the function `Arena`, and the method `Get` that runs the stages as the handler does |
| `arena_properties.dfy` | `ArenaProperties` | what `toInt`, `isTrueLike` and the week label promise |
| `arena_leaderboard.dfy` | `ArenaLeaderboard` | what the response promises: order, ranks, contents of `missed` and `newFinishers`, totals, and the worked scenarios |
| `tv_mode.dfy` | `TvMode` | the `RankTracker` class with the poll state and its loops, the specification functions the loops are proved against, confetti, the chip, and the top five |

How `toInt` reads separators:

- `toInt` reads the first ',' as a decimal point and then strips every character other than digits, '.' and '-'. So a thousands separator is lost: "1,200 pts" counts as 1 (`ArenaProperties.ToIntThousandsExample`).
- A European "1.200,5" becomes "1.200.5", which is not a number, so it counts as 0 (`ArenaProperties.ToIntEuropeanExample`).

## Model

| member | source | states |
|---|---|---|
| `Wrappers.Option.GetOr` | app/api/arena/route.ts:32 | `x ?? ""`: the value when present, the default when absent |
| `JsString.TrimStart` | app/api/arena/route.ts:33 | the result is no longer than the input |
| `JsString.TrimEnd` | app/api/arena/route.ts:33 | the result is no longer than the input |
| `JsString.TrimStartSpec` | app/api/arena/route.ts:33 | the front trim is a suffix of the input; what it cuts is white space; what it keeps does not start with white space |
| `JsString.TrimEndSpec` | app/api/arena/route.ts:33 | the back trim is a prefix of the input; what it cuts is white space; what it keeps does not end with white space |
| `JsString.TrimStartKeeps` | app/api/arena/route.ts:33 | every property of all input characters holds of the front-trimmed text |
| `JsString.TrimEndKeeps` | app/api/arena/route.ts:33 | every property of all input characters holds of the back-trimmed text |
| `JsString.TrimKeeps` | app/api/arena/route.ts:33 | trimming only removes characters |
| `JsString.TrimEdges` | app/api/arena/route.ts:33 | a trimmed text neither starts nor ends with white space |
| `JsString.TrimNoEdgeSpace` | app/api/arena/route.ts:33 | a text without white space at its ends is unchanged by `trim` |
| `JsString.TrimIdempotent` | app/api/arena/route.ts:33 | trimming twice equals trimming once |
| `JsString.TrimPadding` | app/api/arena/route.ts:33 | white-space padding on both sides is removed and nothing else changes |
| `JsString.TrimStartPadding` | app/api/arena/route.ts:33 | white space in front is dropped by the front trim |
| `JsString.TrimStartKeepsTail` | app/api/arena/route.ts:33 | once the front trim leaves something, whatever follows is kept |
| `JsString.TrimEndPadding` | app/api/arena/route.ts:33 | white space at the back is dropped by the back trim |
| `JsString.ToLowerCase` | app/api/arena/route.ts:41 | same length; each character lower-cased (ASCII letters) |
| `JsString.ToUpperCase` | app/api/arena/route.ts:41 | same length; each character upper-cased (ASCII letters); the reference for case-insensitivity |
| `JsString.LowerOfUpper` | app/api/arena/route.ts:41 | lower-casing an upper-cased text gives the text lower-cased |
| `JsString.UpperKeepsWhiteSpace` | app/api/arena/route.ts:41 | upper-casing neither creates nor removes white space |
| `JsString.TrimStartUpper` | app/api/arena/route.ts:41 | the front trim commutes with upper-casing |
| `JsString.UpperPrefix` | app/api/arena/route.ts:41 | upper-casing commutes with taking a prefix |
| `JsString.TrimEndUpper` | app/api/arena/route.ts:41 | the back trim commutes with upper-casing |
| `JsString.TrimUpper` | app/api/arena/route.ts:41 | `trim` commutes with upper-casing |
| `JsString.ReplaceFirst` | app/api/arena/route.ts:34 | replacing one character keeps the length |
| `JsString.IndexOf` | app/api/arena/route.ts:34 | the first position holding the character, or the length when there is none |
| `JsString.IndexOfAbsent` | app/api/arena/route.ts:34 | a text without the character reports no position |
| `JsString.IndexOfAfter` | app/api/arena/route.ts:34 | in `a + [c] + b` with no `c` in `a`, the first `c` is the one right after `a` |
| `JsString.ReplaceFirstAbsent` | app/api/arena/route.ts:34 | without a ',' the text is unchanged |
| `JsString.ReplaceFirstAt` | app/api/arena/route.ts:34 | only the first occurrence is replaced; later ones stay |
| `JsString.ReplaceFirstSpec` | app/api/arena/route.ts:34 | the result is the input with exactly the first occurrence replaced, or the input itself when there is none |
| `JsString.KeepNumeric` | app/api/arena/route.ts:35 | no longer than the input; only digits, '.' and '-' remain |
| `JsString.KeepNumericOfNumeric` | app/api/arena/route.ts:35 | a text of digits, '.' and '-' is kept whole |
| `JsString.KeepNumericNone` | app/api/arena/route.ts:35 | a text without digits, '.' or '-' becomes empty |
| `JsString.KeepNumericDropsTail` | app/api/arena/route.ts:35 | trailing symbols after a numeric text are dropped |
| `JsString.KeepNumericConcat` | app/api/arena/route.ts:35 | the stripping works piece by piece over concatenation |
| `JsString.CompareStrings` | app/api/arena/route.ts:101 | the comparison is -1, 0 or 1 |
| `JsString.CompareStringsZero` | app/api/arena/route.ts:101 | 0 exactly for equal names |
| `JsString.CompareStringsFlip` | app/api/arena/route.ts:101 | swapping the operands negates the result |
| `JsString.LexLessConsForward` | app/api/arena/route.ts:101 | lexicographic order: first characters, then the rests (one direction) |
| `JsString.LexLessConsBackward` | app/api/arena/route.ts:101 | the same, the other direction |
| `JsString.LexLessCons` | app/api/arena/route.ts:101 | lexicographic order is decided by the first characters, then the rests |
| `JsString.CompareStringsLess` | app/api/arena/route.ts:101 | a negative comparison is exactly lexicographic order |
| `JsString.CompareStringsTransitive` | app/api/arena/route.ts:101 | "not after" is transitive |
| `JsNumber.DigitValue` | app/api/arena/route.ts:36 | a digit's value is below 10 |
| `JsNumber.UnsignedValue` | app/api/arena/route.ts:36 | an unsigned decimal text reads as a non-negative value |
| `JsNumber.DecimalValue` | app/api/arena/route.ts:36 | `whole.frac` has a non-negative value |
| `JsNumber.NatText` | app/api/arena/route.ts:36 | the digits of a natural number read back as it, without leading zeros |
| `JsNumber.StringOf` | app/tv/page.tsx:188 | `String(n)`: a '-' exactly for negatives, followed by the digits of the magnitude, which read back as it and have no leading zero |
| `JsNumber.UnsignedOfDigits` | app/api/arena/route.ts:36 | a digit string reads as its value |
| `JsNumber.DecimalValueWhole` | app/api/arena/route.ts:36 | no fraction digits means the whole part |
| `JsNumber.NumberOfStringOf` | app/api/arena/route.ts:36 | `Number(String(n)) == n` for every integer |
| `JsNumber.DigitsValueBound` | app/api/arena/route.ts:36 | `n` digits stay below `10^n` |
| `JsNumber.UnsignedOfParts` | app/api/arena/route.ts:36 | `whole.frac` reads as whole plus fraction |
| `JsNumber.UnsignedNotNumber` | app/api/arena/route.ts:36 | a second '.' (or a '-') after the point is NaN |
| `JsNumber.FloorOfParts` | app/api/arena/route.ts:37 | `whole.frac` floors to `whole` |
| `JsNumber.FloorOfNegParts` | app/api/arena/route.ts:37 | `-whole.frac` floors to `-whole`, or to `-whole - 1` when the fraction is not zero |
| `JsNumber.NumberOfNegDecimal` | app/api/arena/route.ts:36 | `-whole.frac` reads as the negated decimal |
| `JsNumber.DecimalIsNumeric` | app/api/arena/route.ts:35 | `whole.frac` survives the stripping |
| `JsNumber.NumberOfDecimal` | app/api/arena/route.ts:36 | `whole.frac` reads as its decimal value |
| `JsArray.Filter` | app/api/arena/route.ts:89 | no longer than the input; every element kept passes the test |
| `JsArray.FilterMultiset` | app/api/arena/route.ts:89 | each passing element is kept as often as it occurs; the others are dropped |
| `JsArray.FilterMembers` | app/api/arena/route.ts:89 | an element is kept exactly when it occurs and passes |
| `JsArray.FilterNone` | app/api/arena/route.ts:89 | nothing passes, nothing remains |
| `JsArray.FilterConcat` | app/api/arena/route.ts:89 | filtering distributes over concatenation |
| `JsArray.FilterAround` | app/api/arena/route.ts:89 | filtering `front + [y] + back` filters the three parts |
| `JsArray.FilterAll` | app/api/arena/route.ts:89 | everything passes, everything remains |
| `JsArray.FilterExt` | app/api/arena/route.ts:89 | tests that agree on the elements filter alike |
| `JsArray.FilterSplitCount` | app/api/arena/route.ts:137-138 | the passing and the failing parts add up to the whole |
| `JsArray.FilterFrom` | app/api/arena/route.ts:89 | each kept element comes from the input |
| `JsArray.FilterKeepsOrder` | app/api/arena/route.ts:143-144 | filtering keeps relative order |
| `JsSort.Insert` | app/api/arena/route.ts:96-102 | inserting adds exactly one element |
| `JsSort.InsertionSort` | app/api/arena/route.ts:96-102 | sorting keeps the length |
| `JsSort.InsertMultiset` | app/api/arena/route.ts:96-102 | inserting adds exactly that element |
| `JsSort.InsertionSortPermutes` | app/api/arena/route.ts:96-102 | the sorted list is a permutation of the input |
| `JsSort.InsertionSortMembers` | app/api/arena/route.ts:96-102 | sorting keeps exactly the input's elements |
| `JsSort.InsertSorted` | app/api/arena/route.ts:96-102 | inserting into a sorted list keeps it sorted under a total preorder |
| `JsSort.InsertionSortSorted` | app/api/arena/route.ts:96-102 | the result is sorted under a total preorder |
| `JsSort.SortedIsPairwise` | app/api/arena/route.ts:96-102 | adjacent order gives order between every two positions |
| `JsSort.InsertPos` | app/api/arena/route.ts:96-102 | the insertion point lies within the list |
| `JsSort.InsertSplits` | app/api/arena/route.ts:96-102 | inserting splices the new element in after the last element not greater than it |
| `JsSort.FilterSpliced` | app/api/arena/route.ts:96-102 | splicing before any passing element appends to the filtered list |
| `JsSort.InsertFilter` | app/api/arena/route.ts:96-102 | inserting leaves earlier equivalent elements in front of the new one |
| `JsSort.InsertStable` | app/api/arena/route.ts:96-102 | one insertion keeps the order among elements that tie |
| `JsSort.NoneEquivalentAfterSplit` | app/api/arena/route.ts:96-102 | no element tying with the new one lies after its insertion point |
| `JsSort.InsertionSortStable` | app/api/arena/route.ts:96-102 | the sort is stable: elements that tie keep their input order |
| `JsSort.InsertPosAt` | app/api/arena/route.ts:96-102 | the gap where the shifting stops is the insertion point |
| `JsSort.Spliced` | app/api/arena/route.ts:96-102 | position-by-position agreement gives the spliced sequence |
| `JsSort.ShiftGreater` | app/api/arena/route.ts:96-102 | the elements greater than the new one are shifted right, in order, and the gap is the insertion point |
| `JsSort.InsertInPlace` | app/api/arena/route.ts:96-102 | the array prefix becomes the insertion; the rest is untouched |
| `JsSort.SortInPlace` | app/api/arena/route.ts:96-102 | the array becomes the stable sort of its old contents |
| `JsSort.SortedCopy` | app/api/arena/route.ts:96-102 | sorting a copy in an array gives the stable sort |
| `ArenaRoute.CleanNumeric` | app/api/arena/route.ts:32-35 | the cleaned text holds only digits, '.' and '-' |
| `ArenaRoute.ToInt` | app/api/arena/route.ts:31-38 | 0 when the cleaned text is not a number; otherwise the greatest integer not above its value |
| `ArenaRoute.BuildNameSet` | app/api/arena/route.ts:136 | the set built one name at a time is the set of ranked names |
| `ArenaRoute.Get` | app/api/arena/route.ts:69-160 | the handler's steps, as it runs them, produce the response `Arena` describes |
| `ArenaProperties.ToIntBlank` | app/api/arena/route.ts:32-37 | an absent or blank cell counts as 0 |
| `ArenaProperties.ToIntOfStringOf` | app/api/arena/route.ts:31-38 | a cell holding an integer's decimal text counts as that integer |
| `ArenaProperties.ToIntPadding` | app/api/arena/route.ts:33 | white space around a cell does not change it |
| `ArenaProperties.ToIntOfDecimal` | app/api/arena/route.ts:36-37 | a cell that cleans to `whole.frac` counts as `whole` |
| `ArenaProperties.CommaTextTrimmed` | app/api/arena/route.ts:33 | `whole,frac` followed by symbols is untouched by `trim` |
| `ArenaProperties.CommaTextReplaced` | app/api/arena/route.ts:34 | the first ',' becomes the decimal point |
| `ArenaProperties.DecimalTextKept` | app/api/arena/route.ts:35 | symbols after `whole.frac` are stripped |
| `ArenaProperties.CleanCommaDecimal` | app/api/arena/route.ts:32-35 | `whole,frac` plus symbols cleans to `whole.frac` |
| `ArenaProperties.ToIntCommaIsDecimalPoint` | app/api/arena/route.ts:31-38 | a ',' is read as a decimal point: `whole,frac…` counts as `whole` |
| `ArenaProperties.NumberTextTrimmed` | app/api/arena/route.ts:33 | a text of digits, '.' and '-' has nothing to trim |
| `ArenaProperties.CleanNumberText` | app/api/arena/route.ts:32-35 | such a text comes out of the cleaning unchanged |
| `ArenaProperties.CleanNegativeDecimal` | app/api/arena/route.ts:32-35 | `-whole.frac` comes out of the cleaning unchanged |
| `ArenaProperties.ToIntOfNegativeValue` | app/api/arena/route.ts:37 | a negative value counts as its floor |
| `ArenaProperties.NegativeFloor` | app/api/arena/route.ts:37 | a negative decimal floors to `-whole`, or to `-whole - 1` when the fraction is not zero |
| `ArenaProperties.ToIntNegativeFloorsDown` | app/api/arena/route.ts:31-38 | `-whole.frac` counts as `-whole - 1` unless its fraction is zero |
| `ArenaProperties.DotCommaTextTrimmed` | app/api/arena/route.ts:33 | `a.b,c` has nothing to trim |
| `ArenaProperties.DotCommaTextReplaced` | app/api/arena/route.ts:34 | `a.b,c` becomes `a.b.c` |
| `ArenaProperties.CleanDotThenComma` | app/api/arena/route.ts:32-35 | `a.b,c` cleans to `a.b.c` |
| `ArenaProperties.ToIntDotThenComma` | app/api/arena/route.ts:31-38 | a European `a.b,c` counts as 0 |
| `ArenaProperties.TrimmedWithoutDigits` | app/api/arena/route.ts:33 | trimming adds no digit, '.' or '-' |
| `ArenaProperties.KeepAfterReplaceWithoutDigits` | app/api/arena/route.ts:34-35 | a text without digits, '.' or '-' strips to "" or "." |
| `ArenaProperties.CleanWithoutDigits` | app/api/arena/route.ts:32-35 | such a cell cleans to "" or "." |
| `ArenaProperties.ToIntWithoutDigits` | app/api/arena/route.ts:31-38 | a word or symbol cell counts as 0 |
| `ArenaProperties.ToIntThousandsExample` | app/api/arena/route.ts:31-38 | "1,200" and "1,200 pts" both count as 1 |
| `ArenaProperties.ToIntNegativeExample` | app/api/arena/route.ts:31-38 | "-1.5" counts as -2 |
| `ArenaProperties.ToIntEuropeanExample` | app/api/arena/route.ts:31-38 | "1.200,5" counts as 0 |
| `ArenaProperties.ToIntWordExample` | app/api/arena/route.ts:31-38 | "n/a" counts as 0 |
| `ArenaProperties.IsTrueLikeUpperExample` | app/api/arena/route.ts:40-43 | "TRUE" sets the flag |
| `ArenaProperties.IsTrueLikePaddedExample` | app/api/arena/route.ts:40-43 | " yes " sets the flag |
| `ArenaProperties.IsTrueLikeFalseExample` | app/api/arena/route.ts:40-43 | "FALSE" does not |
| `ArenaProperties.IsTrueLikeZeroExample` | app/api/arena/route.ts:40-43 | "0" does not |
| `ArenaProperties.IsTrueLikeBlank` | app/api/arena/route.ts:40-43 | an absent or blank cell does not |
| `ArenaProperties.IsTrueLikePadding` | app/api/arena/route.ts:41 | white space around the flag does not change it |
| `ArenaProperties.IsTrueLikeIgnoresCase` | app/api/arena/route.ts:41 | letter case does not change the flag |
| `ArenaProperties.EffectiveWeekDefault` | app/api/arena/route.ts:70-71 | an absent or blank `week` gives "CURRENT" |
| `ArenaProperties.EffectiveWeekTrimmed` | app/api/arena/route.ts:70-71 | the week label is never blank and has no white space at its ends |
| `ArenaProperties.EffectiveWeekIdempotent` | app/api/arena/route.ts:70-71 | passing the label back in gives the same week |
| `ArenaProperties.EffectiveWeekPadding` | app/api/arena/route.ts:70 | white space around the parameter does not change the week |
| `ArenaLeaderboard.CompareStringsPreorder` | app/api/arena/route.ts:139 | the name comparison is a total preorder |
| `ArenaLeaderboard.ComparePlayersLess` | app/api/arena/route.ts:96-102 | the comparator puts `a` first exactly when `a` ranks ahead: a higher score, then more books, then more pages, then an earlier name |
| `ArenaLeaderboard.ComparePlayersZero` | app/api/arena/route.ts:96-102 | a tie exactly when all four keys agree |
| `ArenaLeaderboard.ComparePlayersFlip` | app/api/arena/route.ts:96-102 | swapping the players negates the comparison |
| `ArenaLeaderboard.ComparePlayersLe` | app/api/arena/route.ts:96-102 | "not after" means ranks ahead or ties on every key |
| `ArenaLeaderboard.ComparePlayersTransitive` | app/api/arena/route.ts:96-102 | "not after" is transitive |
| `ArenaLeaderboard.ComparePlayersPreorder` | app/api/arena/route.ts:96-102 | the comparator is a total preorder |
| `ArenaLeaderboard.SortPlayersOrdered` | app/api/arena/route.ts:96-102 | no player ranks ahead of one placed before it |
| `ArenaLeaderboard.SortPlayersPermutes` | app/api/arena/route.ts:96-102 | sorting neither adds, drops nor duplicates a player |
| `ArenaLeaderboard.SortPlayersStable` | app/api/arena/route.ts:96-102 | players tying on all four keys keep their sheet order |
| `ArenaLeaderboard.SortTwoPlayers` | app/api/arena/route.ts:96-102 | the player who ranks ahead comes first whatever the sheet order |
| `ArenaLeaderboard.TieBrokenByBooks` | app/api/arena/route.ts:98-99 | with equal scores, more books finished this week ranks first |
| `ArenaLeaderboard.RankNumbers` | app/api/arena/route.ts:104-124 | entry `i` has rank `i + 1` and the week; it copies the player's name, score, pages added (as `pages`), books, finished total and bonuses; `totalPages` is 0; a sheet rank of 0 becomes null |
| `ArenaLeaderboard.LeaderboardRanks` | app/api/arena/route.ts:104-152 | ranks run 1, 2, … with one entry per named submitted row; `totals.submitted` counts them |
| `ArenaLeaderboard.LeaderboardOrdered` | app/api/arena/route.ts:96-124 | no entry ranks ahead of an entry listed above it |
| `ArenaLeaderboard.RankOrdered` | app/api/arena/route.ts:104-124 | numbering keeps the order |
| `ArenaLeaderboard.SubmittedPlayersMembers` | app/api/arena/route.ts:77-91 | the players are exactly the normalised rows with a name and a true-like flag |
| `ArenaLeaderboard.ActiveEmployeesMembers` | app/api/arena/route.ts:128-134 | the active names are exactly those of the normalised roster rows with a name and a true-like `active` |
| `ArenaLeaderboard.RankNames` | app/api/arena/route.ts:136 | the ranked names are the names of the players ranked |
| `ArenaLeaderboard.RankedNamesOf` | app/api/arena/route.ts:96-136 | sorting and numbering keep every name and add none |
| `ArenaLeaderboard.RankedNames` | app/api/arena/route.ts:77-136 | the ranked names are exactly the names of submitted rows |
| `ArenaLeaderboard.MissedMembers` | app/api/arena/route.ts:137-139 | a name is missed exactly when it is active and not ranked |
| `ArenaLeaderboard.MissedCounts` | app/api/arena/route.ts:137-139 | a missed name appears as often as the roster lists it |
| `ArenaLeaderboard.MissedSorted` | app/api/arena/route.ts:139 | the missed names are in name order |
| `ArenaLeaderboard.ArenaMissed` | app/api/arena/route.ts:128-139 | the response's missed list holds exactly the active names that no submitted row carries |
| `ArenaLeaderboard.MissedNotRanked` | app/api/arena/route.ts:136-139 | nobody is both ranked and missed |
| `ArenaLeaderboard.NormalizedNamesTrimmed` | app/api/arena/route.ts:79 | every normalised sheet row's name is already trimmed |
| `ArenaLeaderboard.NormalizedRosterTrimmed` | app/api/arena/route.ts:130 | every normalised roster row's name is already trimmed |
| `ArenaLeaderboard.LeaderboardNamesTrimmed` | app/api/arena/route.ts:79-106 | every leaderboard name is non-empty and has no white space at its ends |
| `ArenaLeaderboard.MissedNamesTrimmed` | app/api/arena/route.ts:128-139 | every missed name is non-empty and has no white space at its ends |
| `ArenaLeaderboard.ArenaTotals` | app/api/arena/route.ts:150-154 | the totals count the active roster, the ranked entries and the missed names; missed plus active-and-ranked is the roster size |
| `ArenaLeaderboard.NewFinishersMembers` | app/api/arena/route.ts:143-145 | a name is a new finisher exactly when some ranked entry with it finished a book this week |
| `ArenaLeaderboard.NewFinishersInRankOrder` | app/api/arena/route.ts:143-145 | the finishers are listed in rank order |
| `ArenaLeaderboard.ArenaNewFinishers` | app/api/arena/route.ts:143-159 | the response's finishers are the leaderboard's, in rank order |
| `ArenaLeaderboard.NoActivity` | app/api/arena/route.ts:77-154 | an empty sheet gives an empty leaderboard, no finishers, and the whole active roster, sorted, as missed |
| `ArenaLeaderboard.SubmittedSingle` | app/api/arena/route.ts:77-91 | one named submitted row is the whole list of players |
| `ArenaLeaderboard.ActivePair` | app/api/arena/route.ts:128-134 | two active named roster rows give their names in order |
| `ArenaLeaderboard.MissedOfPair` | app/api/arena/route.ts:137-139 | of two names with the first ranked, the second is missed |
| `ArenaLeaderboard.OneOfTwoSubmitted` | app/api/arena/route.ts:77-160 | one of two active employees submits: the response ranks them first and misses the other |
| `TvMode.RankTracker.constructor` | app/tv/page.tsx:28-32 | the initial state is two empty records and no leader |
| `TvMode.RankTracker.Poll` | app/tv/page.tsx:45-72 | the poll stores the new rank record and the deltas against the old one, sets the leader, and fires exactly by `Fires` |
| `TvMode.NextRanks` | app/tv/page.tsx:48-49 | the loop builds the rank record of the leaderboard |
| `TvMode.NextDeltas` | app/tv/page.tsx:51-55 | the loop builds the delta record against the previous ranks |
| `TvMode.ByNameKeys` | app/tv/page.tsx:49-55 | a record filled by name has exactly the leaderboard's names as keys |
| `TvMode.ByNameLast` | app/tv/page.tsx:49-55 | a name's value is the one from its last entry |
| `TvMode.RanksOfSpec` | app/tv/page.tsx:47-58 | the rank record's keys are exactly the names, each with the rank of its last entry; names no longer listed are dropped |
| `TvMode.DeltasOfSpec` | app/tv/page.tsx:51-57 | the delta record's keys are exactly the names, each with its last entry's movement |
| `TvMode.DeltaDirection` | app/tv/page.tsx:53-54 | a positive delta means a smaller rank number than last time, a negative one a larger; 0 when the name is new or its rank did not change |
| `TvMode.DisplayDelta` | app/tv/page.tsx:131 | a name with a delta shows it; a name without one shows 0 |
| `TvMode.RepeatedPollNoMovement` | app/tv/page.tsx:47-58 | polling the same leaderboard twice shows no movement, duplicate names included |
| `TvMode.LastIndex` | app/tv/page.tsx:49 | the position of a name's last entry, or -1 when the name is not listed |
| `TvMode.FirstPollNoMovement` | app/tv/page.tsx:28-54 | the first poll shows no movement |
| `TvMode.NoFireWithoutChange` | app/tv/page.tsx:32-64 | the same leader twice, or no earlier leader, never fires |
| `TvMode.ChipOf` | app/tv/page.tsx:132-189 | no chip for 0; otherwise the chip points up exactly for positive deltas |
| `TvMode.ChipDeltaOfText` | app/tv/page.tsx:188 | a chip text made of a direction's prefix and the digits of `m` reads back as `m` in that direction |
| `TvMode.ChipRoundTrip` | app/tv/page.tsx:188 | a chip's text reads back as the delta it shows |
| `TvMode.TopFive` | app/tv/page.tsx:130 | the screen shows the first `min(5, n)` entries, in order |
| `TvMode.DisplayedHaveDeltas` | app/tv/page.tsx:130-131 | every displayed entry has a delta from the same poll |

## Left out

- Fetching and parsing the two CSV exports (`fetchCsv`, the parser, `filter(Boolean)`) is not modelled. The sheets arrive as sequences of rows whose cells may be absent.
- The missing-environment-variable error responses (route.ts lines 62-67) and the HTTP/JSON wrapping are not modelled.
- URL decoding of the query string is not modelled. The `week` parameter arrives already decoded, or absent.
- `updatedAt` reads the clock, so the response model has no such field.
- `localeCompare` is modelled as code-point order, because locale collation tables are outside the model.
- `toLowerCase` is modelled on ASCII letters only. JavaScript's full Unicode case mapping is not modelled.
- `Number(s)` is modelled over exact reals and only on texts of digits, '.' and '-', the only texts `toInt` passes it. Binary floating point, rounding of long digit strings and `Infinity` are not modelled.
- `Array.prototype.sort` is modelled as a stable insertion sort. The standard requires stability, and the comparator is a total preorder (`ArenaLeaderboard.ComparePlayersPreorder`), so any stable sort gives this result.
- The TV screen's React effects (the 15-second timer, mounting, `setData`, the clock, animations and the confetti call itself) are not modelled. Firing is the `Poll` method's boolean result.
- `Poll` receives the leaderboard already decoded; `json.leaderboard ?? []` for a missing field is the empty sequence. A failed fetch, which changes nothing, is not modelled.
- TvMode.RankTracker: records are modelled as maps from names to numbers. Keys inherited from `Object.prototype` (a player literally named `constructor` or `__proto__`) are not modelled.
- The second pipeline shape (per-submission rows with timestamps, deduplication, computed scores, `latestFinish`) is not part of this model.
