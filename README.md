# vue-bits gallery core, modelled in Dafny

vue-bits is a gallery of animated Vue components. This project models the
small amount of logic in the gallery itself that is more than markup:

- **fuzzy search** (`src/utils/fuzzy.ts`): `levenshtein`, the dynamic-programming
  edit distance, and `fuzzyMatch`, which accepts a component when the query is
  empty, is a substring of the candidate, or when every query word is within
  `max(1, floor(len/3))` edits of some candidate word (case-insensitive, words
  split on runs of JavaScript whitespace);
- **favorites** (`src/utils/favorites.ts`): the list of saved component keys
  kept as a JSON array in browser storage, with `getSavedComponents`,
  `isComponentSaved`, `addSavedComponent`, `removeSavedComponent`,
  `toggleSavedComponent`, and the `favorites:updated` event sent after each
  write;
- **the star-count cache** (`src/composables/useStars.ts`): `fetchStars`,
  which serves the GitHub star count from a cache entry younger than 24 hours,
  otherwise fetches and stores it, and falls back to the cached count when the
  fetch fails;
- **label decoding** (`decodeLabel` in `src/utils/utils.ts`): kebab-case to
  title case;
- **code objects** (`src/types/code.ts`): `createCodeObject`, which builds the
  `jsrepo` install command from a `Category/Name` path and copies the
  non-empty optional snippets.

Files: `wrappers.dfy` (`Option`), `js_strings.dfy` (the JavaScript string
operations the code relies on: `split`, `join`, `includes`, `filter(Boolean)`,
case mapping, the `\s` class), `fuzzy.dfy` and `fuzzy_examples.dfy`,
`favorites.dfy`, `stars.dfy`, `labels.dfy`, `code_object.dfy`.

Modelling choices:

- `levenshtein` fills a table in two nested loops; it is the method
  `Fuzzy.Levenshtein` over an `array2`, proved equal to the recursive
  definition `Fuzzy.EditDistance` (the same recurrence, on prefixes). Every
  property of the distance is proved about that definition. `fuzzyMatch` only
  calls it, so `Fuzzy.FuzzyMatch` is a function that uses `EditDistance`.
- The favorites module keeps its state in browser storage and sends events, so
  it is the class `Favorites.FavoritesStore` with the parsed storage entry and
  the log of dispatched events as fields. Whether `setItem` and
  `dispatchEvent` succeed is a parameter (`Platform`); failures are swallowed
  as in the code. The pure list operations (`Read`, `Without`, `Added`,
  `Toggle`) specify the methods, and the lemmas are about them.
- `fetchStars` updates the `stars` ref and the cache entry across a `try` and
  a `catch` block; it is the method `Stars.StarsCounter.FetchStars`, written
  with an explicit "thrown" flag, proved equal to the specification function
  `Stars.FetchStarsEffect`. The clock readings, the fetch outcome and whether
  `setItem` succeeds are parameters.
- Behaviour of the code worth knowing:
  - `fuzzyMatch("Split Text", "Pslit")` is false: the distance has no
    transposition step, so "pslit" is two edits from "split", above the
    threshold of one for a five-letter word
    (`FuzzyExamples.TranspositionRejected`).
  - `removeSavedComponent` of an absent key still writes the (unchanged) list
    and dispatches the event.
  - A failed fetch with no cache entry does not reach the caller: the `catch`
    block logs it and leaves the count at its previous value.
  - A cache entry that does not parse makes the `catch` block's own
    `JSON.parse` throw, so the promise of `fetchStars` rejects.
  - If storing a freshly fetched count throws, the `catch` block runs and the
    old cached count is shown instead of the fetched one.

## Model

| member | source | states |
|---|---|---|
| Fuzzy.Min3 | animate_lib/vue-bits/src/utils/fuzzy.ts:10 | `Math.min` of three: no larger than any argument and equal to one of them |
| Fuzzy.EditDistance | animate_lib/vue-bits/src/utils/fuzzy.ts:1-14 | the distance is at least the difference of the lengths and at most the longer length |
| Fuzzy.Levenshtein | animate_lib/vue-bits/src/utils/fuzzy.ts:1-14 | the table-filling loops return the edit distance of the two strings (insertions, deletions and substitutions at cost 1) |
| Fuzzy.FillRow | animate_lib/vue-bits/src/utils/fuzzy.ts:8-11 | filling row `i` makes every cell of rows `0..i` the distance between the matching prefixes and leaves later rows alone |
| Fuzzy.FillCell | animate_lib/vue-bits/src/utils/fuzzy.ts:9-10 | one cell becomes the distance between the prefixes from its three neighbours, and no other cell changes |
| Fuzzy.PrefixStep | animate_lib/vue-bits/src/utils/fuzzy.ts:9-10 | the cell recurrence holds for the distance between prefixes |
| Fuzzy.Threshold | animate_lib/vue-bits/src/utils/fuzzy.ts:26 | the allowed distance is at least 1, exactly 1 for words shorter than 6, and a third of the length rounded down |
| Fuzzy.Words | animate_lib/vue-bits/src/utils/fuzzy.ts:21-22 | the words of a string are non-empty and contain no whitespace (which words they are: `Fuzzy.WordsOfEmpty`, `Fuzzy.OneWord`, `Fuzzy.WordsAtRun`, `Fuzzy.WordsAfterLeadingRun`) |
| Fuzzy.WordsOfEmpty | animate_lib/vue-bits/src/utils/fuzzy.ts:21-22 | the empty string has no words: its one empty piece is dropped |
| Fuzzy.OneWord | animate_lib/vue-bits/src/utils/fuzzy.ts:21-22 | a non-empty string without whitespace is one word |
| Fuzzy.WordsAtRun | animate_lib/vue-bits/src/utils/fuzzy.ts:21-22 | a run of whitespace of any length ends a word: the words of `w + run + t` are `w` followed by the words of `t` |
| Fuzzy.WordsAfterLeadingRun | animate_lib/vue-bits/src/utils/fuzzy.ts:21-22 | leading whitespace of any length produces no word |
| Fuzzy.EditDistanceFromEmpty | animate_lib/vue-bits/src/utils/fuzzy.ts:5-6 | the distance to or from the empty string is the length |
| Fuzzy.EditDistanceToSelf | animate_lib/vue-bits/src/utils/fuzzy.ts:1-14 | a string is at distance 0 from itself |
| Fuzzy.EditDistanceZeroIff | animate_lib/vue-bits/src/utils/fuzzy.ts:1-14 | the distance is 0 exactly when the strings are equal |
| Fuzzy.EditDistanceSymmetric | animate_lib/vue-bits/src/utils/fuzzy.ts:1-14 | the distance does not depend on the order of its arguments |
| Fuzzy.SubstitutionCostsOne | animate_lib/vue-bits/src/utils/fuzzy.ts:10 | strings of equal length differing at one position are within distance 1 |
| Fuzzy.MismatchOnlyAtEnd | animate_lib/vue-bits/src/utils/fuzzy.ts:10 | equal-length strings that agree except at the last position mismatch at most once |
| Fuzzy.WithinOneEditIff | animate_lib/vue-bits/src/utils/fuzzy.ts:1-14 | for equal lengths, distance at most 1 holds exactly when the strings differ in at most one position |
| Fuzzy.Foreign | animate_lib/vue-bits/src/utils/fuzzy.ts:1-14 | the count of characters of `b` absent from `a` is at most `|b|` |
| Fuzzy.ForeignAntitone | animate_lib/vue-bits/src/utils/fuzzy.ts:1-14 | more characters in `a` leave fewer characters of `b` foreign to it |
| Fuzzy.ForeignLowerBound | animate_lib/vue-bits/src/utils/fuzzy.ts:1-14 | every character of `b` that does not occur in `a` costs at least one edit |
| Fuzzy.WordClose | animate_lib/vue-bits/src/utils/fuzzy.ts:25-27 | `levenshtein(cw, qw) <= threshold`: a word is close to itself, and a close word differs in length by at most the threshold |
| Fuzzy.EveryWordClose | animate_lib/vue-bits/src/utils/fuzzy.ts:23-29 | `every`/`some`: no query words pass, query words that all occur among the candidate words pass, and a query word needs at least one candidate word |
| Fuzzy.FuzzyMatch | animate_lib/vue-bits/src/utils/fuzzy.ts:16-30 | an empty query matches, a query contained in the candidate after lower-casing matches, and so every string matches itself |
| Fuzzy.EmptyQueryMatchesAll | animate_lib/vue-bits/src/utils/fuzzy.ts:18-19 | a missing or empty query matches every candidate, including a missing one |
| Fuzzy.CaseInsensitive | animate_lib/vue-bits/src/utils/fuzzy.ts:17-18 | lower-casing both arguments does not change the answer; nor does upper-casing them, under the case mapping for ASCII letters (in JavaScript `"ß".toUpperCase()` is "SS", so there it can) |
| Fuzzy.WhitespaceQueryMatchesAll | animate_lib/vue-bits/src/utils/fuzzy.ts:21-23 | a query of whitespace only has no words, so `every` holds vacuously |
| Fuzzy.SameWordsMatch | animate_lib/vue-bits/src/utils/fuzzy.ts:21-29 | a query whose words all occur among the candidate's words matches, in any order |
| Fuzzy.OneFarWordRejects | animate_lib/vue-bits/src/utils/fuzzy.ts:20-29 | a non-substring query with one word beyond the threshold from every candidate word does not match |
| FuzzyExamples.TwoWords | animate_lib/vue-bits/src/utils/fuzzy.ts:21-22 | two words separated by one run of whitespace split into exactly those words |
| FuzzyExamples.SplitTextWords | animate_lib/vue-bits/src/utils/fuzzy.ts:17-22 | "Split Text" lower-cases to "split text" with words "split" and "text" |
| FuzzyExamples.PslitNotIncluded | animate_lib/vue-bits/src/utils/fuzzy.ts:20 | "pslit" is not a substring of "split text" |
| FuzzyExamples.PslitFar | animate_lib/vue-bits/src/utils/fuzzy.ts:1-14 | "pslit" is more than one edit from both "split" and "text" |
| FuzzyExamples.ForeignLetters | animate_lib/vue-bits/src/utils/fuzzy.ts:1-14 | "text" lacks 4 letters of "pslit", "glass" 4 letters of "rocks" and "icons" 2 |
| FuzzyExamples.TranspositionRejected | animate_lib/vue-bits/src/utils/fuzzy.ts:16-30 | "pslit" does not find "Split Text": a swap of two letters costs two edits |
| FuzzyExamples.GlassIconsWords | animate_lib/vue-bits/src/utils/fuzzy.ts:17-22 | the words of "Glass Icons" are "glass" and "icons" |
| FuzzyExamples.GlassIconsLower | animate_lib/vue-bits/src/utils/fuzzy.ts:17 | "Glass Icons" lower-cases to "glass icons" |
| FuzzyExamples.GlassRocksWords | animate_lib/vue-bits/src/utils/fuzzy.ts:18-22 | the words of "glass rocks" are "glass" and "rocks" |
| FuzzyExamples.GlassRocksNotIncluded | animate_lib/vue-bits/src/utils/fuzzy.ts:20 | "glass rocks" is not a substring of "glass icons" |
| FuzzyExamples.RocksFar | animate_lib/vue-bits/src/utils/fuzzy.ts:1-14 | "rocks" is more than one edit from "glass" and from "icons" |
| FuzzyExamples.UnmatchedWordRejects | animate_lib/vue-bits/src/utils/fuzzy.ts:23-29 | "glass rocks" does not find "Glass Icons": every query word must be close to some candidate word |
| FuzzyExamples.TextSplitWords | animate_lib/vue-bits/src/utils/fuzzy.ts:18-22 | the words of "Text Split" are "text" and "split" |
| FuzzyExamples.TextSplitLower | animate_lib/vue-bits/src/utils/fuzzy.ts:18 | "Text Split" lower-cases to "text split" |
| FuzzyExamples.ReorderedWordsMatch | animate_lib/vue-bits/src/utils/fuzzy.ts:21-29 | "Text Split" finds "Split Text": word order does not matter |
| FuzzyExamples.TypoMatches | animate_lib/vue-bits/src/utils/fuzzy.ts:23-29 | "Spkit" finds "Split Text": one substitution is within the threshold |
| FuzzyExamples.SpkitWords | animate_lib/vue-bits/src/utils/fuzzy.ts:18-22 | the only word of "Spkit" is "spkit" |
| FuzzyExamples.SpkitLower | animate_lib/vue-bits/src/utils/fuzzy.ts:18 | "Spkit" lower-cases to "spkit" |
| FuzzyExamples.WhitespaceRunMatches | animate_lib/vue-bits/src/utils/fuzzy.ts:21-29 | "text \t split" finds "Split Text": a run of several whitespace characters separates words like one space |
| FuzzyExamples.TabbedWords | animate_lib/vue-bits/src/utils/fuzzy.ts:18-22 | the words of "text \t split" are "text" and "split" |
| FuzzyExamples.TabbedLower | animate_lib/vue-bits/src/utils/fuzzy.ts:18 | "text \t split" is already lower case |
| JsStrings.IsSpace | animate_lib/vue-bits/src/utils/fuzzy.ts:21-22 | the `\s` class: among ASCII characters exactly space and tab to carriage return, never a letter or digit; beyond ASCII the Unicode space separators, line and paragraph separators and the byte-order mark |
| JsStrings.LowerChar | animate_lib/vue-bits/src/utils/fuzzy.ts:17-18 | `toLowerCase` maps `A`..`Z` to `a`..`z` and keeps every other character |
| JsStrings.UpperChar | animate_lib/vue-bits/src/utils/utils.ts:32 | `toUpperCase` maps `a`..`z` to `A`..`Z` and keeps every other character |
| JsStrings.Lower | animate_lib/vue-bits/src/utils/fuzzy.ts:17-18 | lower-casing a string keeps its length and lower-cases each character |
| JsStrings.Upper | animate_lib/vue-bits/src/utils/utils.ts:32 | upper-casing a string keeps its length and upper-cases each character |
| JsStrings.Includes | animate_lib/vue-bits/src/utils/fuzzy.ts:20 | `includes` holds for every prefix, the empty string among them, and never for a longer string |
| JsStrings.Split | animate_lib/vue-bits/src/utils/utils.ts:31 | `split` on one character gives at least one piece, and no piece holds the separator |
| JsStrings.SkipRun | animate_lib/vue-bits/src/utils/fuzzy.ts:21-22 | skipping a run of separators drops a prefix of separators only, up to a non-separator |
| JsStrings.SplitOnRuns | animate_lib/vue-bits/src/utils/fuzzy.ts:21-22 | `split(/\s+/)` gives at least one piece, and no piece holds whitespace (which pieces they are: `JsStrings.SplitOnRunsAtRun`, `JsStrings.JoinSplitOnRuns`) |
| JsStrings.Join | animate_lib/vue-bits/src/utils/utils.ts:33 | `join` starts with the first piece and is that piece alone when there is one |
| JsStrings.Collapse | animate_lib/vue-bits/src/utils/fuzzy.ts:21 | collapsing runs of separators never lengthens the string |
| JsStrings.NonEmpty | animate_lib/vue-bits/src/utils/fuzzy.ts:21-22 | `filter(Boolean)` keeps exactly the non-empty pieces |
| JsStrings.LowerIdempotent | animate_lib/vue-bits/src/utils/fuzzy.ts:17-18 | lower-casing twice is lower-casing once |
| JsStrings.LowerOfUpper | animate_lib/vue-bits/src/utils/fuzzy.ts:17-18 | lower-casing after upper-casing is lower-casing, for the case mapping of ASCII letters |
| JsStrings.SplitNoSeparator | animate_lib/vue-bits/src/types/code.ts:17 | a string without the separator splits into itself |
| JsStrings.SplitAtSeparator | animate_lib/vue-bits/src/types/code.ts:17 | the first separator ends the first piece |
| JsStrings.JoinSplit | animate_lib/vue-bits/src/utils/utils.ts:30-33 | joining the pieces of a split with the same separator gives back the string |
| JsStrings.SplitJoin | animate_lib/vue-bits/src/utils/utils.ts:31-33 | splitting the join of separator-free pieces gives back the pieces |
| JsStrings.SplitOnRunsNoSeparator | animate_lib/vue-bits/src/utils/fuzzy.ts:21-22 | a string without whitespace splits into itself |
| JsStrings.SkipRunOfRun | animate_lib/vue-bits/src/utils/fuzzy.ts:21-22 | skipping a run of separators followed by a non-separator leaves exactly what follows |
| JsStrings.SplitOnRunsAtRun | animate_lib/vue-bits/src/utils/fuzzy.ts:21-22 | a whole run of separators, of any length, ends the first piece |
| JsStrings.JoinSplitOnRuns | animate_lib/vue-bits/src/utils/fuzzy.ts:21-22 | joining the pieces of a split on runs gives back the string with each run of separators collapsed to one separator |
| JsStrings.SplitOnRunsAllSeparators | animate_lib/vue-bits/src/utils/fuzzy.ts:21-22 | a string of whitespace splits into empty pieces only |
| JsStrings.NonEmptyOfEmpties | animate_lib/vue-bits/src/utils/fuzzy.ts:21-22 | filtering empty pieces only leaves nothing |
| Favorites.StringItems | animate_lib/vue-bits/src/utils/favorites.ts:7 | filtering an array for strings never lengthens it |
| Favorites.StringItemsMembership | animate_lib/vue-bits/src/utils/favorites.ts:7 | the filter keeps exactly the string elements of the array |
| Favorites.Read | animate_lib/vue-bits/src/utils/favorites.ts:3-11 | a missing, unparsable or non-array entry reads as the empty list, and an array reads as exactly its strings |
| Favorites.Serialize | animate_lib/vue-bits/src/utils/favorites.ts:15 | `JSON.stringify` of the list stores an array of its strings, element by element |
| Favorites.Without | animate_lib/vue-bits/src/utils/favorites.ts:43 | filtering out a key never lengthens the list |
| Favorites.Added | animate_lib/vue-bits/src/utils/favorites.ts:31-39 | the key is in the result, the old list is kept as a prefix, and the list grows by one exactly when the key was absent |
| Favorites.Toggle | animate_lib/vue-bits/src/utils/favorites.ts:48-58 | `saved` is true exactly when the key was absent, the key is in the new list exactly when `saved`, and every other key keeps its membership |
| Favorites.FavoritesStore.constructor | animate_lib/vue-bits/src/utils/favorites.ts:1-11 | a store starts from a given storage entry with no events sent |
| Favorites.FavoritesStore.Write | animate_lib/vue-bits/src/utils/favorites.ts:13-25 | a write stores the list when `setItem` succeeds and then sends `favorites:updated` with the list when dispatch succeeds; failures change nothing further |
| Favorites.FavoritesStore.GetSavedComponents | animate_lib/vue-bits/src/utils/favorites.ts:27 | returns the list read from storage |
| Favorites.FavoritesStore.IsComponentSaved | animate_lib/vue-bits/src/utils/favorites.ts:29 | true exactly when the key is in the list read from storage |
| Favorites.FavoritesStore.AddSavedComponent | animate_lib/vue-bits/src/utils/favorites.ts:31-39 | a present key returns the list and writes nothing; an absent key is appended, written and broadcast |
| Favorites.FavoritesStore.RemoveSavedComponent | animate_lib/vue-bits/src/utils/favorites.ts:41-46 | returns the list without the key and writes and broadcasts it, even when the key was absent |
| Favorites.FavoritesStore.ToggleSavedComponent | animate_lib/vue-bits/src/utils/favorites.ts:48-58 | removes a present key or appends an absent one, writes and broadcasts the new list, and reports whether the key is now saved |
| Favorites.ReadSerialize | animate_lib/vue-bits/src/utils/favorites.ts:3-15 | reading after a successful write gives back exactly the list written |
| Favorites.ReadOfNonArray | animate_lib/vue-bits/src/utils/favorites.ts:3-11 | a missing, unparsable or non-array entry reads as the empty list |
| Favorites.ReadKeepsStringsInOrder | animate_lib/vue-bits/src/utils/favorites.ts:7 | reading keeps the strings of the array in order and drops every other value |
| Favorites.StringItemsOfCons | animate_lib/vue-bits/src/utils/favorites.ts:7 | a leading string element is kept and a leading non-string element dropped |
| Favorites.WithoutContents | animate_lib/vue-bits/src/utils/favorites.ts:43 | removal keeps every other key with its multiplicity and drops every copy of the key |
| Favorites.WithoutConcat | animate_lib/vue-bits/src/utils/favorites.ts:43 | removal distributes over concatenation, so kept keys stay in order |
| Favorites.WithoutAbsent | animate_lib/vue-bits/src/utils/favorites.ts:43 | removing an absent key gives back the same list |
| Favorites.WithoutMembership | animate_lib/vue-bits/src/utils/favorites.ts:43 | after removal a key is present exactly when it was present and is not the removed key |
| Favorites.AddedKeepsNoDuplicates | animate_lib/vue-bits/src/utils/favorites.ts:31-39 | adding keeps a list without duplicates without duplicates |
| Favorites.WithoutKeepsNoDuplicates | animate_lib/vue-bits/src/utils/favorites.ts:41-46 | removing keeps a list without duplicates without duplicates |
| Favorites.ToggleKeepsNoDuplicates | animate_lib/vue-bits/src/utils/favorites.ts:48-58 | toggling keeps a list without duplicates without duplicates |
| Favorites.AddIdempotent | animate_lib/vue-bits/src/utils/favorites.ts:31-39 | adding a key twice is adding it once |
| Favorites.ToggleTwice | animate_lib/vue-bits/src/utils/favorites.ts:48-58 | toggling an absent key twice restores the list; toggling a present key twice moves it to the end |
| Favorites.AddTwice | animate_lib/vue-bits/src/utils/favorites.ts:31-39 | on an empty store, adding a key twice saves it once and sends one event |
| Favorites.ToggleOnEmptyStore | animate_lib/vue-bits/src/utils/favorites.ts:48-58 | on an empty store, a toggle saves `[key]`, a second toggle empties the list, and a reload sees it empty |
| Favorites.ReloadSeesEveryChange | animate_lib/vue-bits/src/utils/favorites.ts:3-58 | from any stored entry, a reload after a successful add, remove or toggle reads exactly the list the operation returned |
| Stars.IsFresh | animate_lib/vue-bits/src/composables/useStars.ts:14-18 | the strict `now - timestamp < CACHE_DURATION` test: only a cached entry is fresh, from its timestamp on, and stale once a day has passed |
| Stars.Fallback | animate_lib/vue-bits/src/composables/useStars.ts:38-42 | the `catch` block shows the cached count whenever an entry is cached, and otherwise keeps the previous count |
| Stars.FetchStarsEffect | animate_lib/vue-bits/src/composables/useStars.ts:10-44 | the fetcher runs exactly when the entry parses and is not fresh, the promise rejects exactly for an unparsable entry, and the cache changes only to the fetched count with the store time after a successful fetch and store |
| Stars.StarsCounter.constructor | animate_lib/vue-bits/src/composables/useStars.ts:8 | the count starts at 0 |
| Stars.StarsCounter.FetchStars | animate_lib/vue-bits/src/composables/useStars.ts:10-44 | the count, the cache entry, whether the fetcher ran and how the promise settles are those of the cache-hit, fetch-and-store or fallback path |
| Stars.CacheDurationIsOneDay | animate_lib/vue-bits/src/composables/useStars.ts:5 | the cache window is 86,400,000 ms |
| Stars.FreshEntryAnswers | animate_lib/vue-bits/src/composables/useStars.ts:12-21 | a fresh entry sets the count, calls no fetcher and leaves the cache alone |
| Stars.WindowBoundary | animate_lib/vue-bits/src/composables/useStars.ts:18 | an entry exactly one window old is stale; one stamped in the future is fresh |
| Stars.FetchStoresCount | animate_lib/vue-bits/src/composables/useStars.ts:24-34 | a successful fetch and store caches the count with the store time and shows it |
| Stars.FailureFallsBack | animate_lib/vue-bits/src/composables/useStars.ts:35-43 | on a failed fetch or store the cache is unchanged, the cached count is shown however old, with no entry the count keeps its value, and the promise resolves |
| Stars.UnparsableEntryRejects | animate_lib/vue-bits/src/composables/useStars.ts:15-40 | an entry that does not parse rejects the promise without a fetch and changes nothing |
| Stars.TimestampMonotone | animate_lib/vue-bits/src/composables/useStars.ts:18-31 | with a clock that does not go back, the cached timestamp never decreases |
| Stars.CacheAcrossTheWindow | animate_lib/vue-bits/src/composables/useStars.ts:10-44 | 42 fetched at `t` is served without a fetch at `t + window - 1`, refetched at `t + window + 1`, and still shown when that fetch fails |
| Labels.Capitalize | animate_lib/vue-bits/src/utils/utils.ts:32 | the first character is upper-cased and the rest kept |
| Labels.CapitalizeAll | animate_lib/vue-bits/src/utils/utils.ts:32 | every word is capitalized, in order |
| Labels.TitleCase | animate_lib/vue-bits/src/utils/utils.ts:22-34 | the title has the label's length and is given position by position |
| Labels.JoinCapitalized | animate_lib/vue-bits/src/utils/utils.ts:31-33 | joining capitalized hyphen-free words with spaces is the title of joining them with hyphens |
| Labels.DecodeLabel | animate_lib/vue-bits/src/utils/utils.ts:27-34 | decoding turns each hyphen into a space and upper-cases the first character of each segment, nothing else |
| Labels.DecodeLabelShape | animate_lib/vue-bits/src/utils/utils.ts:27-34 | the decoded label has the same length, no hyphen, and a space exactly where the label had a hyphen or a space |
| Labels.DecodeLabelKeepsInnerCharacters | animate_lib/vue-bits/src/utils/utils.ts:30-33 | a character not at the start of a segment is copied unchanged |
| Labels.DecodeSplitText | animate_lib/vue-bits/src/utils/utils.ts:22-25 | "split-text" decodes to "Split Text" |
| Labels.DecodeEmptySegments | animate_lib/vue-bits/src/utils/utils.ts:30-33 | empty segments stay empty: "a--b" decodes to "A  B" and "-a" to " A" |
| CodeObjects.IfTruthy | animate_lib/vue-bits/src/types/code.ts:20-23 | a conditional spread adds the key exactly for a non-empty string, with that string |
| CodeObjects.Element | animate_lib/vue-bits/src/types/code.ts:17-19 | a destructured element is the array element when it exists and otherwise renders as "undefined" |
| CodeObjects.CreateCodeObject | animate_lib/vue-bits/src/types/code.ts:16-25 | `code` is always the argument, `cli` is always present, and each optional snippet is present exactly when it is non-empty, with its value |
| CodeObjects.CliOfTwoSegmentPath | animate_lib/vue-bits/src/types/code.ts:17-19 | for `Category/Name` the command is the prefix followed by the path |
| CodeObjects.CliIgnoresExtraSegments | animate_lib/vue-bits/src/types/code.ts:17-19 | segments after the second do not reach the command |
| CodeObjects.CliOfPathWithoutSlash | animate_lib/vue-bits/src/types/code.ts:17-19 | a path without a slash yields a command ending in "/undefined" |
| CodeObjects.InputCodeIgnored | animate_lib/vue-bits/src/types/code.ts:16-25 | the `code` field of the input never reaches the result |

## Left out

- Unicode: characters are Unicode scalar values, whereas JavaScript strings are sequences of UTF-16 code units; a character outside the Basic Multilingual Plane counts 1 here but 2 in JavaScript, so lengths, thresholds and distances differ on such input. `toLowerCase`/`toUpperCase` are modelled on ASCII letters only; other letters are kept as they are.
- JSON: `JSON.parse` and `JSON.stringify` are abstracted. A favorites entry is one of missing, unparsable, not an array, or an array of string and non-string items; a star cache entry is missing, unparsable (which also covers text whose parse gives a value that cannot be destructured, such as `null`), or a numeric count with a numeric timestamp. Entries with non-numeric fields are not modelled.
- Stars.StarsCounter.FetchStars: `getStarsCount` (an HTTP request to the GitHub API, `src/utils/utils.ts:6-20`) is an oracle parameter, a count or a failure; its `stargazers_count || 0` defaulting is not modelled.
- Stars.StarsCounter.FetchStars: the `console.error` logging, the Vue `ref`/`onMounted` wrapper, and concurrent or overlapping calls and promise scheduling are not modelled; the two `Date.now()` readings are the parameters `now` and `storedAt`.
- Favorites.FavoritesStore: other tabs writing the same storage entry, and the listeners that react to `favorites:updated`, are not modelled.
- CodeObjects.CreateCodeObject: the order of the keys in the returned object is not modelled.
- `customToastStyles` in `src/utils/utils.ts` is constant styling data with no behaviour.
- Fuzzy.EditDistance is the Levenshtein recurrence itself; the model does not prove that it equals the fewest insertions, deletions and substitutions over all edit scripts.
