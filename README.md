# Crossover roster page, modelled in Dafny

The page lists Valorant professionals who played tier-one Counter-Strike. A
visitor narrows the roster with four controls:

- a free-text search box;
- a region selector;
- a role selector;
- a row of tag buttons.

The page derives several values from the static player dataset:

- the role options and the tag options the controls offer;
- the three header counters: CS:GO Major appearances, international Valorant placements, and trophies;
- the filtered roster, with its "Showing N of M" line.

This project models that derivation logic and proves what each derived value
is:

- `Strings` models the JavaScript string operations the page uses: `trim`, `toLowerCase`, `split`, `join` and `includes`, plus the order the option lists are sorted in.
- `Sorting` is insertion sort under that order, proved to give a sorted permutation.
- `Sequences` models `map` and `filter` on arrays.
- `PlayerData` holds the shape of the dataset records. `Wrappers` holds the nullable tag selection.
- `RosterFilter` models `filteredPlayers`, the four tests it combines, and `regionOptions`.
- `FilterOptions` models `roleOptions` and `tagOptions` as methods. Their loops fill an insertion-ordered `Set`, whose contents are then sorted.
- `Aggregates` models `aggregates` as a method with the nested loop of the `reduce`/`forEach`. It is proved against a flat count over all timeline entries.
- `PageState` models the component as the class `Page`:
  - the mutable fields are the four pieces of React state;
  - the handlers are its methods, and a visit is a list of control events (`Event`) replayed through them;
  - the values memoised without dependencies are constants computed in the constructor, so no handler can change them.

## Model

| member | source | states |
|---|---|---|
| Strings.Trim | src/app/page.tsx:23 | the trimmed text has no ECMAScript whitespace or line terminator at either end |
| Strings.TrimEmptyIff | src/app/page.tsx:41-45 | the trimmed query is empty exactly when the search term is all whitespace |
| Strings.TrimContained | src/app/page.tsx:23 | a trimmed piece is a contiguous part of the text it came from |
| Strings.Lower | src/app/page.tsx:41 | lower-casing keeps the length and maps every character through ASCII lower-casing |
| Strings.TrimLowerCommute | src/app/page.tsx:41 | trimming then lower-casing equals lower-casing then trimming |
| Strings.ContainsIff | src/app/page.tsx:58 | `includes` holds exactly when the needle occurs at some position of the text |
| Strings.ContainsLower | src/app/page.tsx:56-58 | a substring of a text stays a substring once both are lower-cased |
| Strings.ContainsTransitive | src/app/page.tsx:56-58 | a substring of a substring is a substring |
| Strings.LowerChar | src/app/page.tsx:57 | lower-casing leaves no upper-case ASCII letter, keeps letters letters and non-letters unchanged |
| Strings.JoinAppend | src/app/page.tsx:56 | joining one more field appends a space and that field |
| Strings.JoinContainsPart | src/app/page.tsx:46-56 | every joined field occurs in the joined search text |
| Strings.LowerJoin | src/app/page.tsx:56-57 | lower-casing the joined text equals joining the lower-cased fields with the lower-cased separator |
| Strings.JoinOccurrenceInPart | src/app/page.tsx:56-58 | a needle without the separator that occurs in the joined text occurs inside one part |
| Strings.LowerJoinOccurrence | src/app/page.tsx:46-58 | a space-free needle found in the lower-cased, space-joined fields is found in one lower-cased field |
| Strings.Split | src/app/page.tsx:22 | `split('/')` gives at least one piece, and no piece contains `/` |
| Strings.SplitJoin | src/app/page.tsx:22 | joining the pieces of `split('/')` with `/` gives back the descriptor |
| Strings.SplitPieceContained | src/app/page.tsx:22 | every piece of `split('/')` occurs in the descriptor |
| Strings.LessTotal | src/app/page.tsx:27 | the comparison orders any two different strings exactly one way, and equal strings neither way |
| Strings.LessTransitive | src/app/page.tsx:27 | the comparison is transitive |
| Strings.LessIrreflexive | src/app/page.tsx:27 | no string is before itself |
| Sorting.Sort | src/app/page.tsx:27 | the sorted array is a sorted permutation of the input, strictly sorted when the input has no duplicates |
| Sorting.SortElements | src/app/page.tsx:27 | sorting keeps the length and exactly the same elements |
| Sorting.StrictlySortedUnique | src/app/page.tsx:27 | two strictly sorted lists with the same elements are the same list |
| Sorting.StrictlySortedIsDistinct | src/app/page.tsx:27 | a strictly sorted list has no duplicates |
| Sequences.Map | src/app/page.tsx:23 | `map` keeps the length and applies the callback at each position |
| Sequences.Filter | src/app/page.tsx:43 | `filter` never lengthens the array |
| Sequences.FilterIsSubsequence | src/app/page.tsx:43-70 | `filter` returns the elements at increasing positions, and keeps a position exactly when the callback accepts its element |
| Sequences.FilterElement | src/app/page.tsx:43-70 | a value is in the result exactly when it is in the input and the callback accepts it |
| Sequences.FilterSamePredicate | src/app/page.tsx:43-70 | callbacks that agree on every element filter alike |
| Sequences.FilterAll | src/app/page.tsx:43-70 | a callback that accepts everything returns the input itself |
| Sequences.FilterNone | src/app/page.tsx:43-70 | a callback that accepts nothing returns an empty array |
| RosterFilter.RegionOptions | src/app/page.tsx:11 | three options, `All regions` first, no duplicates |
| RosterFilter.RegionLabels | src/app/page.tsx:7-11 | the options read `All regions`, `North America`, `EMEA` in that order, and two selector values are equal exactly when their labels are, so the region test's string comparison is value equality |
| RosterFilter.RegionOptionsComplete | src/app/page.tsx:7-11 | every value of the region selector's type is offered |
| RosterFilter.FilteredPlayers | src/app/page.tsx:43-70 | the shown roster is never longer than the dataset |
| RosterFilter.FilterSelectsMatching | src/app/page.tsx:43-70 | the shown roster is the dataset's subsequence at increasing positions, and a position is kept exactly when its player passes the search, region, role and tag tests |
| RosterFilter.FilterMembership | src/app/page.tsx:43-70 | a player is shown exactly when it is in the dataset and passes all four tests |
| RosterFilter.UnconstrainedShowsAll | src/app/page.tsx:41-67 | a blank search with `All regions`, `All roles` and no tag shows the whole dataset in order |
| RosterFilter.SearchIgnoresCase | src/app/page.tsx:41-58 | search terms that differ only in letter case show the same roster |
| RosterFilter.SearchIgnoresSurroundingSpace | src/app/page.tsx:41 | search terms that differ only in surrounding whitespace show the same roster |
| RosterFilter.SameQuerySameRoster | src/app/page.tsx:41-58 | the roster depends on the search term only through its trimmed, lower-cased query |
| RosterFilter.SearchFindsField | src/app/page.tsx:44-58 | a query found, ignoring case, in any single searchable field passes the text search |
| RosterFilter.SearchNeedsOneField | src/app/page.tsx:44-58 | conversely, a query without a space passes the text search only if it occurs, ignoring case, inside one searchable field (a query with an inner space can span two fields) |
| RosterFilter.SearchMissShowsNobody | src/app/page.tsx:41-70 | a space-free query found in no searchable field of any player shows nobody ("Showing 0 of M") |
| FilterOptions.RoleNamesMember | src/app/page.tsx:21-24 | a descriptor's role names are exactly the non-empty trimmed `/`-pieces |
| FilterOptions.RoleNameShape | src/app/page.tsx:21-24 | every role name is non-empty, trimmed, and a substring of its descriptor |
| FilterOptions.CollectMember | src/app/page.tsx:19-34 | a string is in the filled set exactly when some element supplies it |
| FilterOptions.RoleVocabularyMember | src/app/page.tsx:19-26 | the role set holds exactly the role names of some player |
| FilterOptions.TagVocabularyMember | src/app/page.tsx:31-34 | the tag set holds exactly the tags of some player |
| FilterOptions.SetAdd | src/app/page.tsx:25 | `Set.add` keeps the contents duplicate-free and adds exactly the one value |
| FilterOptions.CollectDistinct | src/app/page.tsx:19-34 | the nested loops leave the set holding each collected string once, and exactly the strings the elements supply |
| FilterOptions.RoleOptions | src/app/page.tsx:18-28 | `All roles` first, then the role vocabulary strictly sorted (so without duplicates) |
| FilterOptions.TagOptions | src/app/page.tsx:30-36 | the tag vocabulary, strictly sorted (so without duplicates) |
| FilterOptions.RoleOptionsAreRolePieces | src/app/page.tsx:18-28 | an option after `All roles` is exactly a non-empty trimmed `/`-piece of some player's descriptor |
| FilterOptions.RoleOptionShape | src/app/page.tsx:23-24 | every role option after `All roles` is non-empty and trimmed |
| FilterOptions.RoleOptionSelectsSomeone | src/app/page.tsx:18-64 | choosing any offered role, with the other controls open, shows at least one player |
| FilterOptions.TagOptionsAreTags | src/app/page.tsx:30-36 | a tag is offered exactly when some player carries it |
| FilterOptions.TagOptionSelectsCarriers | src/app/page.tsx:30-67 | choosing any offered tag, with the other controls open, shows at least one player; for a non-empty tag, exactly its carriers (the empty tag is falsy and selects everyone) |
| FilterOptions.RoleOptionsOrderIndependent | src/app/page.tsx:18-28 | the role options depend only on which players there are, not on their order |
| FilterOptions.TagOptionsOrderIndependent | src/app/page.tsx:30-36 | the tag options depend only on which players there are, not on their order |
| Aggregates.Count | src/app/page.tsx:76-86 | a counter never exceeds the number of entries counted |
| Aggregates.ComputeAggregates | src/app/page.tsx:73-95 | the `reduce` from zeroed counters ends with each counter equal to the count of its kind of entry over all players' timelines |
| Aggregates.AddTimeline | src/app/page.tsx:75-88 | the callback adds to each counter the count of its kind of entry in one timeline |
| Aggregates.CountStep | src/app/page.tsx:76-86 | one more entry adds one to a counter exactly when the entry meets its condition |
| Aggregates.CountAppend | src/app/page.tsx:74-88 | counts over consecutive timelines add up |
| Aggregates.CountIsNumberOfPositions | src/app/page.tsx:76-86 | a counter equals the number of entries that meet its condition |
| Aggregates.EntriesLength | src/app/page.tsx:74-76 | the pass visits exactly the sum of the timeline lengths |
| Aggregates.TallyBounded | src/app/page.tsx:73-95 | every counter is at most the total number of timeline entries |
| Aggregates.EntriesAppend | src/app/page.tsx:74-76 | the entries of two rosters side by side are theirs one after the other |
| Aggregates.TallyAppend | src/app/page.tsx:73-95 | the counters over two rosters side by side are the sums of their counters |
| PageState.ToggleTag | src/app/page.tsx:175 | a tag click clears the selection exactly when that tag was selected, and otherwise selects that tag |
| PageState.ToggleTwiceFromNone | src/app/page.tsx:175 | two clicks on one tag from no selection end with no selection |
| PageState.ToggleTwiceFromSelected | src/app/page.tsx:175 | two clicks on one tag go back to that tag if it was selected, and otherwise to no selection |
| PageState.Page.constructor | src/app/page.tsx:14-38 | the first render has an empty search, `All regions`, `All roles` and no tag, and the memoised options and counters meet their specifications |
| PageState.Page.Shown | src/app/page.tsx:40-71 | the roster for the current selections is never longer than the dataset |
| PageState.Page.SetSearchTerm | src/app/page.tsx:136 | the search box sets the search term and nothing else |
| PageState.Page.SetRegion | src/app/page.tsx:141 | the region selector sets the region and nothing else |
| PageState.Page.SetRole | src/app/page.tsx:152 | the role selector sets the role and nothing else |
| PageState.Page.ClickAllTags | src/app/page.tsx:165 | `All tags` clears the tag selection and nothing else |
| PageState.Page.ClickTag | src/app/page.tsx:175 | a tag button toggles the tag selection and changes nothing else |
| PageState.Handle | src/app/page.tsx:136-175 | each control's handler changes the selections exactly as one `Step` says |
| PageState.ReplayTagWasClicked | src/app/page.tsx:165-175 | after any events from the first render, the tag selection is null or a tag whose button was clicked |
| PageState.Session | src/app/page.tsx:73-184 | for any list of control events after the first render, the roster shown is `filteredPlayers` for the selections the events lead to, it is no longer than the dataset, and the header counters are still those of the whole dataset |

## Left out

- Rendering is not modelled: the JSX markup, styles, the `InsightMetric` component, the player cards and the layout. None of it takes part in the derivation.
- React's scheduling, re-rendering and `useMemo` caching are not modelled. Memoised values with no dependencies are computed once in the `Page` constructor. `filteredPlayers` is a function of the current state.
- The dataset module is not part of this model. Every operation takes an arbitrary sequence of players.
- The region selector's casts of `event.target.value` are not modelled: the selector's value is always one of the options, so the model takes a `RegionFilter` value directly (RosterFilter.RegionLabels relates values and option text).
- The `id`, `headline`, socials, timeline year and timeline team fields are carried in the records but feed no derivation.
- Strings.Less: stands in for `localeCompare`. It is lexicographic order on Unicode code points (a Dafny `char` is a Unicode scalar value; this differs from UTF-16 code-unit order only when a character beyond the Basic Multilingual Plane meets one from U+E000 to U+FFFF), because locale collation tables are outside the model. Any total strict order would give the same proved properties, but `localeCompare` is not one: it returns 0 for distinct canonically equivalent strings (U+00E9 and `e` followed by U+0301). Both stay in the `Set` as separate options, and the stable sort leaves them in insertion order, so on such data the page's option order follows the dataset's order. FilterOptions.RoleOptionsOrderIndependent and FilterOptions.TagOptionsOrderIndependent hold for the model's order, which has no such ties.
- Strings.Lower: lower-cases ASCII letters only. `toLowerCase` also maps non-ASCII letters by Unicode case tables, which are outside the model.
- `/won/i` is modelled as substring search for `won` in the ASCII-lower-cased achievement. This is exact for this pattern. Without the `u` flag, case-insensitive matching upper-cases each code unit. It keeps a character of code 128 or above unchanged whenever its upper-case form would fall below 128. So only `w`/`W`, `o`/`O` and `n`/`N` can match the pattern's letters.
- Sorting.Sort: a fixed sorting algorithm stands in for the engine's `Array.prototype.sort`. Since the option lists have no duplicates, any correct sort gives the same result (Sorting.StrictlySortedUnique).
- If a player's role descriptor ever contained the piece `All roles`, the role options would offer it twice: once as the sentinel and once as a role. The contracts of FilterOptions.RoleOptions state what the page computes and do not exclude this.
