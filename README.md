# SnowSneeker resort list, modelled in Dafny

SnowSneeker is an app for browsing ski resorts. Its main screen shows the
resort catalog as a list. The user can narrow the list by typing search
text. The user can also pick one of three sort orders: default, alphabetical
or by country. This project models how that list is derived, and proves
what the derivation promises.

The list is derived in two pure steps:

1. **Search filter.** If the search text is empty, the whole catalog is
   shown. Otherwise the app keeps, in catalog order, the resorts whose name
   contains the search text, ignoring letter case.
2. **Sort.** The filtered list is passed through unchanged (default), or
   sorted by name or by country with a strict `<` on strings.

Modules:

- `Text` (`text.dfy`): the string operations the two steps use. It has a
  case fold, substring containment, and the case-insensitive containment
  test built from them. It also has the lexicographic order on strings and
  a proof that this order is total.
- `Sorting` (`sorting.dfy`): sorting a list by a string key. An insertion
  sort is proved to return a permutation whose keys never decrease. A
  separate lemma proves that any two sorted permutations of the same list
  have the same keys in the same positions.
- `ContentView` (`content_view.dfy`): the `Resort` record, the `SortType`
  enumeration (the enum of SnowSneeker/ContentView.swift:49-52, one
  constructor per case, matched exhaustively by `SortResults`), the search
  filter, the sort step and their composition, with
  lemmas about them.

## Model

| member | source | states |
|---|---|---|
| `ContentView.FilteredResorts` | SnowSneeker/ContentView.swift:30-36 | With empty search text the result is the catalog itself. It is never longer than the catalog. With non-empty text, a resort is in the result if and only if it is in the catalog and its name matches. |
| `ContentView.NameMatches` | SnowSneeker/ContentView.swift:34 | The filter closure: a resort matches when its name contains the search text case-insensitively (`Text.CaseInsensitiveContains`). A name that contains the text exactly always matches. A match implies the search text is no longer than the name. |
| `ContentView.FilterByName` | SnowSneeker/ContentView.swift:34 | The name filter returns only catalog resorts whose names match, returns every matching catalog resort, and is never longer than the catalog. |
| `ContentView.FilteredCount` | SnowSneeker/ContentView.swift:30-36 | Each resort appears in the filtered list exactly as often as in the catalog if the search text is empty or its name matches, and otherwise not at all. |
| `ContentView.FilterByNameCount` | SnowSneeker/ContentView.swift:34 | The same count, for the name filter alone. |
| `ContentView.FilteredIsSubsequence` | SnowSneeker/ContentView.swift:30-36 | The filtered list is an order-preserving subsequence of the catalog. |
| `ContentView.FilterByNameIsSubsequence` | SnowSneeker/ContentView.swift:34 | The name filter keeps the catalog order. |
| `ContentView.FilterRefines` | SnowSneeker/ContentView.swift:34 | Filtering already-filtered results by a longer search text gives the same list as filtering the catalog by it directly. "Longer" means the new text contains the old one, ignoring case. |
| `ContentView.SortResults` | SnowSneeker/ContentView.swift:38-47 | The result is a permutation of the filtered list. With `Default` it is the filtered list unchanged. With `Alphabetical` names never decrease along it. With `Country` countries never decrease along it. |
| `ContentView.SortedResults` | SnowSneeker/ContentView.swift:38-47 | For every sort type, the list shown is no longer than the catalog. Every resort in it is a catalog resort that matches the search text, when there is search text. |
| `ContentView.SortedResultsCount` | SnowSneeker/ContentView.swift:38-52 | For each of the three sort types, each resort appears exactly as often as in the filtered list. Sorting never adds, drops or duplicates a resort. |
| `ContentView.SortedResultsMembership` | SnowSneeker/ContentView.swift:38-52 | For every sort type, a resort is shown if and only if it is in the catalog and either the search text is empty or its name matches. |
| `ContentView.AlphabeticalNamesDetermined` | SnowSneeker/ContentView.swift:42-43 | Any name-sorted permutation of the filtered list has the same name as the model's result at every position. The result is fixed up to resorts with equal names. |
| `ContentView.CountryOrderDetermined` | SnowSneeker/ContentView.swift:44-45 | Any country-sorted permutation of the filtered list has the same country as the model's result at every position. |
| `ContentView.TwoResortSortScenario` | SnowSneeker/ContentView.swift:38-47 | Catalog [Chamonix (France), Aspen (USA)] with empty search text. Default gives Chamonix, Aspen. Alphabetical gives Aspen, Chamonix. Country gives Chamonix, Aspen. |
| `ContentView.TwoResortSearchScenario` | SnowSneeker/ContentView.swift:34 | Searching that catalog for "CHAM" gives only Chamonix: the letter case of the search text is ignored. |
| `ContentView.TwoResortNoHitScenario` | SnowSneeker/ContentView.swift:34 | Searching that catalog for "xyz" gives the empty list. |
| `ContentView.ChamFacts` | SnowSneeker/ContentView.swift:34 | The case-insensitive test accepts "Chamonix" for "CHAM" and rejects "Aspen" for it. |
| `ContentView.ChamonixRejectsXyz` | SnowSneeker/ContentView.swift:34 | The case-insensitive test rejects "Chamonix" for "xyz". |
| `ContentView.AspenRejectsXyz` | SnowSneeker/ContentView.swift:34 | The case-insensitive test rejects "Aspen" for "xyz". |
| `Sorting.Insert` | SnowSneeker/ContentView.swift:43 | Inserting one element adds exactly that element to the multiset of the list. |
| `Sorting.InsertSorted` | SnowSneeker/ContentView.swift:43 | Inserting into a key-sorted list keeps it key-sorted. |
| `Sorting.SortBy` | SnowSneeker/ContentView.swift:43-45 | Sorting by a key returns a permutation of its input, of the same length, whose keys never decrease. |
| `Sorting.SortedPermutationsAgreeOnKeys` | SnowSneeker/ContentView.swift:43-45 | Two key-sorted permutations of the same elements have the same key at every position. A `sorted(by:)` result is therefore fixed except for the order of elements with equal keys. |
| `Text.Fold` | SnowSneeker/ContentView.swift:34 | The case fold keeps length and folds each character on its own. |
| `Text.FoldChar` | SnowSneeker/ContentView.swift:34 | A capital letter becomes its lower-case letter. Every other character is kept. No capital letter remains. |
| `Text.FoldIdempotent` | SnowSneeker/ContentView.swift:34 | Folding twice is the same as folding once. |
| `Text.Contains` | SnowSneeker/ContentView.swift:34 | Containment holds when the needle is a prefix. It implies the needle is no longer than the string. |
| `Text.ContainsIffOccurs` | SnowSneeker/ContentView.swift:34 | The string contains the needle if and only if the needle occurs at some position in it. |
| `Text.ContainsTransitive` | SnowSneeker/ContentView.swift:34 | A substring of a substring is a substring. |
| `Text.CaseInsensitiveContains` | SnowSneeker/ContentView.swift:34 | Stands in for `localizedCaseInsensitiveContains`: the folded needle occurs at some position of the folded string, if and only if the test holds. A match implies the needle is no longer than the string. Described further by `Text.ExactMatchIsCaseInsensitiveMatch`, `Text.CaseInsensitiveContainsIgnoresCase` and `Text.MissingCharNoCaseInsensitiveMatch`. |
| `Text.ExactMatchIsCaseInsensitiveMatch` | SnowSneeker/ContentView.swift:34 | A name that contains the search text exactly also matches it ignoring case. |
| `Text.CaseInsensitiveContainsIgnoresCase` | SnowSneeker/ContentView.swift:34 | Folding either side first does not change the outcome of the case-insensitive test. |
| `Text.MissingCharNotContained` | SnowSneeker/ContentView.swift:34 | A string cannot contain a needle that has a character the string lacks. |
| `Text.MissingCharNoCaseInsensitiveMatch` | SnowSneeker/ContentView.swift:34 | The case-insensitive test fails when the folded needle has a character the folded string lacks. |
| `Text.Less` | SnowSneeker/ContentView.swift:43-45 | Stands in for Swift's `String <`: lexicographic order on characters. A string never comes strictly before an equal string, and a proper prefix comes strictly before the longer string. Its order laws are `Text.LessIrreflexive`, `Text.LessAsymmetric`, `Text.LessTransitive` and `Text.LessTrichotomous`. |
| `Text.LessEq` | SnowSneeker/ContentView.swift:43-45 | "Not after", the order the sorted results must keep. It holds exactly when the strings are equal or the first comes strictly before the second. Its laws are `Text.LessEqAntisymmetric` and `Text.LessEqTotalPreorder`. |
| `Text.LessAsymmetric` | SnowSneeker/ContentView.swift:43-45 | Two strings never each come strictly before the other. |
| `Text.LessIrreflexive` | SnowSneeker/ContentView.swift:43-45 | No string comes strictly before itself. |
| `Text.LessTransitive` | SnowSneeker/ContentView.swift:43-45 | The strict string order is transitive. |
| `Text.LessTrichotomous` | SnowSneeker/ContentView.swift:43-45 | Any two strings are equal, or one comes strictly before the other. |
| `Text.LessEqAntisymmetric` | SnowSneeker/ContentView.swift:43-45 | Two strings that each do not come after the other are equal. |
| `Text.LessEqTotalPreorder` | SnowSneeker/ContentView.swift:43-45 | The non-strict order is reflexive, total and transitive. So the sort comparator is a valid strict weak ordering. |

## Left out

- SortResults: does not state how resorts with equal names (or equal countries) are ordered among themselves. The model computes with an insertion sort, and `Sorting.SortedPermutationsAgreeOnKeys` shows that any sort meeting the same contract gives the same key at every position.
- Text.CaseInsensitiveContains: folds only the ASCII capitals A-Z. It is a stand-in for Foundation's `localizedCaseInsensitiveContains`, whose locale- and Unicode-aware case folding is library behaviour outside this repository.
- Text.Less: compares strings character by character. Swift's `String <` compares under Unicode canonical equivalence. That detail belongs to the standard library and is not modelled.
- Text.Contains: accepts an empty needle, because the empty string is a prefix of every string. Foundation answers false for an empty needle. The difference cannot be seen in the app: the empty search text is handled first (SnowSneeker/ContentView.swift:31-32), and `Text.Fold` keeps length, so a non-empty search text never gives an empty needle.
- ContentView.Resort: the source of the `Resort` struct is not among the files. The model keeps only `id`, `name`, `country` and `runs`, the fields the list screen reads. The other fields and the facility lookup are left out.
- Catalog loading (SnowSneeker/Bundle-Decodable.swift) is left out. It is file I/O plus a library JSON decoder that ends in `fatalError` on failure; it has no logic of its own.
- `Favorites` (add, remove, contains, persistence) is not part of this model. Its implementation is not among the source files, and it involves storage and observation.
- SnowSneeker/ResortView.swift is SwiftUI presentation, and is left out. That covers the stacked-layout test, the facility alert state and the favourite button.
- The view `body`, `phoneOnlyStackNavigationView` and the sort dialog buttons (SnowSneeker/ContentView.swift:10-19, 54-106) are left out. They are view composition, a device query and UI state writes.
