# NEET question-paper frontend: a Dafny model of its data shaping

The NEET paper app is a small CRUD application. Its React frontend shows
previous-year NEET question papers, their solutions and the cutoff marks over
the years. This project models, in Dafny, the frontend logic that decides what
the user sees once the data has arrived from the API:

- **Cutoff analysis page** (`CutoffAnalysis`):
  - the three-state trend of the last two cutoff points;
  - the rounded average of the cutoffs;
  - the highest and lowest point, each the earliest point on ties;
  - the subject drop-down;
  - the paper table, filtered by subject and sorted newest first by a stable sort.
- **Archive page** (`PaperArchive`):
  - the conjunctive pipeline of a case-insensitive search and three exact-match filters, where an empty criterion means "any";
  - the bookmark toggle of each paper card.
- **Application-wide bookmark list** (`App`): add (once per id, at the end), remove (every entry with the id) and the membership test. Its invariant is that ids are unique.
- **Filter panel** (`FilterPanel`):
  - the year options (distinct, newest first) and the subject options (distinct, in first-seen order);
  - the difficulty options, the constant `Difficulties = ["Easy", "Medium", "Hard"]`;
  - the single-key update of the `filters` record, and its reset.
- **API client** (`Api`):
  - the ordered, conditional query parameters of the paper and cutoff requests;
  - the choice of URL;
  - the file-URL helper.
- **Solutions page** (`Solutions`):
  - the per-question visibility map, flipped one key at a time;
  - the rule that highlights the correct option;
  - the option letters;
  - the link and file name of a solution download.

Supporting modules model the JavaScript built-ins the pages rely on:

- `Seqs`:
  - `Array.prototype.filter`;
  - spreading a `Set` back into an array (first-seen order);
  - the stable `Array.prototype.sort` with a numeric descending comparator, as an insertion sort, with a lemma that any stable descending order equals it.
- `Text`:
  - `toLowerCase` as an ASCII fold;
  - `String.prototype.includes`;
  - the decimal rendering of an integer, with its round trip.
- `Records`: the paper and cutoff-point records, with the fields the frontend reads.
- `Options`: an absent value, used for JavaScript default parameters.

State the pages keep is modelled as classes whose methods update it:

- `App.BookmarkStore` holds the bookmark list.
- `FilterPanel.FilterState` holds the archive's `filters`.
- `Solutions.SolutionVisibility` holds the `showSolution` map.

Each state update is stated as the pure updater function of the source, and
the invariants it preserves are proved about that function.

## Model

| member | source | states |
|---|---|---|
| Seqs.Filter | frontend/src/pages/PYQArchive.jsx:46-66 | the result holds exactly the elements that pass, is an order-preserving subsequence of the input, and is no longer than it |
| Seqs.FilterKeepsEveryCopy | frontend/src/pages/PYQArchive.jsx:46-66 | `filter` keeps every copy of a passing element and drops every copy of a failing one; with the subsequence clause of `Filter` this fixes the result |
| Seqs.FilterFilter | frontend/src/pages/PYQArchive.jsx:45-66 | filtering by one test and then another equals one filter by their conjunction |
| Seqs.FilterMonotone | frontend/src/pages/PYQArchive.jsx:53-66 | a stronger test keeps a subsequence of what a weaker test keeps |
| Seqs.FilterKeepsAll | frontend/src/pages/PYQArchive.jsx:42 | when every element passes, the filter returns the list unchanged |
| Seqs.FilterKeepsDistinctBy | frontend/src/App.jsx:37 | filtering keeps keys pairwise distinct |
| Seqs.Dedup | frontend/src/components/FilterPanel.jsx:7 | the `[...new Set(xs)]` result is duplicate-free, contains exactly the elements of `xs`, and lists them in the order of their first occurrence |
| Seqs.SortDesc | frontend/src/pages/CutoffAnalysis.jsx:266 | the sorted list is in descending key order, is a permutation of the input, and keeps the input order among elements of equal key (stable) |
| Seqs.SortedStableUnique | frontend/src/pages/CutoffAnalysis.jsx:266 | two lists that are descending and agree on the order within every key are equal, so a stable sort has only one possible result |
| Text.Lower | frontend/src/pages/PYQArchive.jsx:48 | `toLowerCase` keeps the length, leaves no capital letter, maps each capital to its lower-case letter and leaves every other character alone |
| Text.LowerIsIdempotent | frontend/src/pages/PYQArchive.jsx:48 | lower-casing twice is lower-casing once |
| Text.LowerKeepsOccurrences | frontend/src/pages/PYQArchive.jsx:48 | if `t` occurs in `s`, the lower-cased `t` occurs in the lower-cased `s` |
| Text.Includes | frontend/src/pages/PYQArchive.jsx:48-49 | `s.includes(t)` holds exactly when `t` occurs at some position of `s` |
| Text.IntToString | frontend/src/pages/PYQArchive.jsx:49-56 | `toString()` of an integer starts with `-` exactly for negative numbers, is otherwise decimal digits, and has no leading zero unless the number is 0; with the round trip this fixes the string |
| Text.IntToStringRoundTrip | frontend/src/pages/PYQArchive.jsx:56 | the decimal rendering of a year parses back to the year |
| Text.IntToStringInjective | frontend/src/pages/PYQArchive.jsx:56 | different years have different decimal renderings |
| Records.YearsMembership | frontend/src/components/FilterPanel.jsx:6 | a year is in `papers.map(p => p.year)` exactly when some paper has that year |
| Records.SubjectsMembership | frontend/src/components/FilterPanel.jsx:7 | a subject is in `papers.map(p => p.subject)` exactly when some paper has that subject |
| Records.DistinctSubjects | frontend/src/pages/CutoffAnalysis.jsx:85 | the subject list (also used by the filter panel) has each subject of a paper exactly once, no other subject, in first-appearance order |
| CutoffAnalysis.CutoffTrend | frontend/src/pages/CutoffAnalysis.jsx:52-62 | fewer than two points gives stable with change 0; otherwise up exactly when the last step is positive, down exactly when it is negative, with change the step's absolute value, never negative |
| CutoffAnalysis.TrendRecoversLastStep | frontend/src/pages/CutoffAnalysis.jsx:54-61 | the latest cutoff equals the previous one plus the signed change, so the trend loses nothing about the last step |
| CutoffAnalysis.TrendIgnoresHistory | frontend/src/pages/CutoffAnalysis.jsx:55-56 | only the last two points in list order decide the trend |
| CutoffAnalysis.Sum | frontend/src/pages/CutoffAnalysis.jsx:67 | the `reduce` total, accumulated from the left, equals the total added from the first point on |
| CutoffAnalysis.AverageCutoff | frontend/src/pages/CutoffAnalysis.jsx:64-69 | 0 for no data; otherwise the mean rounded half up, avg - 1/2 <= mean < avg + 1/2, stated without division |
| CutoffAnalysis.AverageWithinRange | frontend/src/pages/CutoffAnalysis.jsx:64-83 | the rounded mean lies between the lowest and the highest cutoff; with no data all three are 0 |
| CutoffAnalysis.HighestCutoff | frontend/src/pages/CutoffAnalysis.jsx:71-76 | `{0, 0}` for no data; otherwise a point of the data whose cutoff is at least every cutoff, and no point of equal cutoff comes before it |
| CutoffAnalysis.LowestCutoff | frontend/src/pages/CutoffAnalysis.jsx:78-83 | `{0, 0}` for no data; otherwise a point of the data whose cutoff is at most every cutoff, and no point of equal cutoff comes before it |
| CutoffAnalysis.HighestIsEarliestMaximum | frontend/src/pages/CutoffAnalysis.jsx:73-75 | the highest point is the point at the first position of greatest cutoff, because the strict `>` keeps the earlier point on ties |
| CutoffAnalysis.LowestIsEarliestMinimum | frontend/src/pages/CutoffAnalysis.jsx:80-82 | the lowest point is the point at the first position of least cutoff, because the strict `<` keeps the earlier point on ties |
| CutoffAnalysis.TableRows | frontend/src/pages/CutoffAnalysis.jsx:260-266 | the table holds exactly the papers of the selected subject (all papers for "all"), as a permutation of the filtered list, newest first, with papers of one year in their original order |
| CutoffAnalysis.TableOrderIsDetermined | frontend/src/pages/CutoffAnalysis.jsx:260-266 | any newest-first, stable arrangement of the selected papers is exactly the table |
| CutoffAnalysis.SubjectOptionsMatchTable | frontend/src/pages/CutoffAnalysis.jsx:85 | a subject other than "all" is offered exactly when its table is non-empty |
| FilterPanel.WithFilter | frontend/src/components/FilterPanel.jsx:10-15 | `{...prev, [key]: value}` sets that key to the value and leaves the other two criteria as they were |
| FilterPanel.YearOptions | frontend/src/components/FilterPanel.jsx:6 | the year options are strictly descending (hence distinct) and contain exactly the years that occur in the papers |
| FilterPanel.FilterState.constructor | frontend/src/pages/PYQArchive.jsx:16-20 | the filters start with all three criteria empty |
| FilterPanel.FilterState.HandleFilterChange | frontend/src/components/FilterPanel.jsx:10-15 | the new filters are the old ones with that key set to the value, the other keys unchanged |
| FilterPanel.FilterState.ClearFilters | frontend/src/components/FilterPanel.jsx:17-23 | every criterion is empty afterwards, whatever it was before, so clearing twice is clearing once |
| App.FindById | frontend/src/App.jsx:30 | `find` returns a bookmark with that id, or nothing when no bookmark has it |
| App.HasBookmark | frontend/src/App.jsx:41 | `some` holds exactly when some bookmark has that id |
| App.BookmarkStore.IsBookmarked | frontend/src/App.jsx:40-42 | true exactly when some stored bookmark has the id |
| App.FindAgreesWithSome | frontend/src/App.jsx:30-41 | `find` finds something exactly when `some` holds |
| App.WithBookmark | frontend/src/App.jsx:28-34 | a paper whose id is already bookmarked leaves the list unchanged; otherwise it is appended at the end |
| App.WithoutBookmark | frontend/src/App.jsx:36-38 | the result keeps, in order, exactly the bookmarks with another id, each as many times as before, and afterwards the id is not bookmarked |
| App.AddedIsBookmarked | frontend/src/App.jsx:28-42 | after adding a paper its id is bookmarked |
| App.AddIsIdempotent | frontend/src/App.jsx:30-31 | adding the same paper twice gives the same list as adding it once |
| App.AddKeepsEarlier | frontend/src/App.jsx:32 | adding never changes or moves the earlier bookmarks |
| App.RemoveAbsentIsNoOp | frontend/src/App.jsx:37 | removing an id that is not bookmarked changes nothing |
| App.AddKeepsIdsUnique | frontend/src/App.jsx:28-34 | adding preserves pairwise-distinct ids |
| App.RemoveKeepsIdsUnique | frontend/src/App.jsx:36-38 | removing preserves pairwise-distinct ids |
| App.ReplayKeepsIdsUnique | frontend/src/App.jsx:25-38 | from the initial empty list, any sequence of adds and removes keeps the ids pairwise distinct |
| App.BookmarkStore.constructor | frontend/src/App.jsx:25 | the bookmark list starts empty, which satisfies the invariant |
| App.BookmarkStore.AddBookmark | frontend/src/App.jsx:28-34 | the new list is the add updater applied to the old one; afterwards the id is bookmarked; unique ids are preserved |
| App.BookmarkStore.RemoveBookmark | frontend/src/App.jsx:36-38 | the new list is the remove updater applied to the old one; afterwards the id is not bookmarked; unique ids are preserved |
| PaperArchive.MatchesSearch | frontend/src/pages/PYQArchive.jsx:47-49 | the empty term matches every paper, and a term found in the subject as written matches |
| PaperArchive.SearchIgnoresSubjectCase | frontend/src/pages/PYQArchive.jsx:48 | the search does not depend on the case of the subject |
| PaperArchive.SearchIgnoresTermCase | frontend/src/pages/PYQArchive.jsx:48-49 | two terms that lower-case alike match the same papers, also on the year, which is compared as typed |
| PaperArchive.ApplyFilters | frontend/src/pages/PYQArchive.jsx:41-69 | the step-by-step narrowing gives the papers meeting every set criterion (search on lower-cased subject or year string, exact year string, subject, difficulty), as an order-preserving subsequence of the papers, so the shown count never exceeds the total |
| PaperArchive.NoCriteriaShowsAll | frontend/src/pages/PYQArchive.jsx:42-68 | with an empty search and empty filters every paper is shown, in order |
| PaperArchive.NarrowingNeverEnlarges | frontend/src/pages/PYQArchive.jsx:53-66 | keeping every criterion set and setting more shows a subsequence of what was shown, never more papers |
| PaperArchive.SettingAFilterNarrows | frontend/src/pages/PYQArchive.jsx:53-66 | setting a filter that was empty, to any value, never enlarges the result |
| PaperArchive.SearchingNarrows | frontend/src/pages/PYQArchive.jsx:45-51 | typing a search where there was none never enlarges the result |
| PaperArchive.YearOptionSelectsThatYear | frontend/src/pages/PYQArchive.jsx:54-57 | choosing a year option (its value is the decimal year) shows exactly the papers of that year |
| PaperArchive.Toggled | frontend/src/pages/PYQArchive.jsx:81-87 | toggling flips whether the paper's id is bookmarked and leaves every other id as it was |
| PaperArchive.ToggleTwiceRestores | frontend/src/pages/PYQArchive.jsx:81-87 | toggling an unbookmarked paper twice gives back the original list |
| PaperArchive.ToggleBookmark | frontend/src/pages/PYQArchive.jsx:81-87 | removes a bookmarked paper and adds an unbookmarked one, so its status flips; unique ids are preserved |
| Api.Serialize | frontend/src/services/api.js:14 | the query string is empty exactly when there are no parameters |
| Api.CandidateParams | frontend/src/services/api.js:7-12 | one pair per key, in the fixed order year, subject, difficulty, sortBy, order |
| Api.PaperParams | frontend/src/services/api.js:7-12 | exactly the pairs of the truthy fields, in the fixed key order |
| Api.PaperParamsDistinctKeys | frontend/src/services/api.js:7-12 | no key is sent twice |
| Api.PaperParamsLookup | frontend/src/services/api.js:7-12 | each of the five keys reads back as its field when the field was supplied, and as absent otherwise |
| Api.BuildPaperParams | frontend/src/services/api.js:5-12 | the successive conditional appends build exactly the paper parameters |
| Api.PapersUrl | frontend/src/services/api.js:14-16 | with no parameters the URL is the base plus `/papers` with no `?`; otherwise the base plus `/papers?` plus the query string |
| Api.NoQueryAsksForAll | frontend/src/services/api.js:3 | the default `fetchPapers()` requests the base plus `/papers` with no query string |
| Api.CutoffParams | frontend/src/services/api.js:60-63 | the first pair is the category, defaulting to "general"; the subject defaults to "all" and is present exactly when it is not "all"; no other key and no key twice |
| Api.BuildCutoffParams | frontend/src/services/api.js:60-63 | the constructor call and the conditional append build exactly the cutoff parameters |
| Api.CutoffsUrl | frontend/src/services/api.js:65 | the cutoff URL always carries a query string that starts with the category, and is only that when the subject is "all" |
| Api.FileUrl | frontend/src/services/api.js:77-80 | nothing for a missing or empty path; otherwise the base, `/`, and the path |
| Api.FileUrlRecoversPath | frontend/src/services/api.js:79 | the path is what follows the base and `/` in the file URL |
| Api.FileUrlInjective | frontend/src/services/api.js:77-80 | different paths give different file URLs |
| Solutions.Toggled | frontend/src/pages/Solutions.jsx:66-71 | toggling negates the visibility of that question (a never-toggled question counts as hidden), adds its key, and leaves every other key unchanged |
| Solutions.ToggleTwiceRestores | frontend/src/pages/Solutions.jsx:69 | toggling one question twice restores what every question shows |
| Solutions.ToggleIsLocal | frontend/src/pages/Solutions.jsx:67-70 | toggling a question never changes what another question shows |
| Solutions.SolutionVisibility.constructor | frontend/src/pages/Solutions.jsx:11 | the map starts empty, so no solution is shown |
| Solutions.SolutionVisibility.ToggleSolution | frontend/src/pages/Solutions.jsx:66-71 | the new map is the toggle updater applied to the old one: that question's visibility flips and no other question's changes |
| Solutions.Highlights | frontend/src/pages/Solutions.jsx:173-176 | an option is highlighted exactly when its question's solution is shown and its index is the correct one |
| Solutions.HighlightCount | frontend/src/pages/Solutions.jsx:170-178 | a shown question highlights exactly one option when the correct index is in range, and none otherwise; a hidden question highlights none |
| Solutions.OptionLabel | frontend/src/pages/Solutions.jsx:181 | the label of option i is the character with code 65 + i |
| Solutions.OptionLabelsAreLetters | frontend/src/pages/Solutions.jsx:181 | the first 26 labels are the capital letters `A` to `Z` in order, and distinct options get distinct labels |
| Solutions.SolutionDownload | frontend/src/pages/Solutions.jsx:73-82 | no download without a solution link; otherwise the href, built from the fixed uploads address, equals what getFileUrl gives for `uploads/` plus the link, and the file name is subject, `_`, year and `_solution.pdf` |
| Solutions.SolutionFilenameRecoversYear | frontend/src/pages/Solutions.jsx:77 | given the subject, the year can be read back from the solution file name |
| Solutions.SolutionFilenameDistinguishesYears | frontend/src/pages/Solutions.jsx:77 | two papers of one subject get the same solution file name only when they are of the same year |

## Left out

- Backend (Express server, routes, controllers, Mongoose models): each handler passes one database query straight through and holds no logic. The frontend records follow what the pages read, not the schemas (e.g. `.cutoff` rather than `cutoffMarks`).
- Download tracking and `/stats` (`trackDownload`, `fetchStats`): nothing in the backend serves them, and they contain no logic beyond the request.
- Network, DOM and React plumbing are not modelled: `fetch` and the JSON and blob responses, object URLs, anchor-click downloads (`downloadFile`, the archive's `handleDownload`), loading flags, and the ordering of concurrent effects. The data a page works on is a parameter of each function.
- The React render cycle is not modelled. `toggleBookmark` reads `isBookmarked` from the rendered state, while add and remove run as state updaters; the model applies them to one current list, so interleavings with stale closures are not captured.
- The floating-point average rating of `PaperCard` and its `toFixed(1)` formatting are not modelled.
- Rendering-only components (`Dashboard`, `Footer`, `CutoffChart`, and the styling of `PaperCard`) are not modelled.
- Falsy values: an empty string field is the empty string, and the model assumes every paper has its `subject` and `year` and every cutoff point its number. The source does not behave like an empty string when they are absent: the search throws on `paper.subject.toLowerCase()` and `paper.year.toString()`, and the solution file name starts with `undefined`. The `?.cutoff || 0` fallback of the trend therefore never applies.
- Seqs.Filter: its own ensures does not state how many copies of an element are kept; that is stated by Seqs.FilterKeepsEveryCopy, kept apart from the definition so that the proofs which unfold `Filter` stay small.
- Text.Lower: folds only ASCII letters, while the source's `toLowerCase` is full Unicode lowercasing.
- Numbers: years and cutoffs are JavaScript doubles in the source (`Number` in the Mongoose models); the model takes them as exact, unbounded integers. `getAverageCutoff` divides in floating point before `Math.round`, and CutoffAnalysis.AverageCutoff states exact rounding instead; the two agree for integer data whose total stays well below 2^53, and fractional cutoffs or larger totals are not covered.
- Text.IntToString: renders every integer in plain decimal; JavaScript uses exponent form for very large numbers, which no year reaches.
- Api.Serialize: does not percent-encode keys or values the way `URLSearchParams` does, so the model's URLs equal the source's only for values without reserved characters.
- Api.PaperQuery: holds strings; the source also accepts numbers or other truthy values in the filter object, which `URLSearchParams` would convert to strings.
- Solutions.OptionLabel: requires 65 + i to be below 0xD800, because Dafny characters exclude the surrogate range; `String.fromCharCode` accepts any number and wraps it modulo 65536. The page renders at most four options.
- The question texts and solutions of the solutions page are mock data; the model keeps only the id, the options and the correct index of a question.
