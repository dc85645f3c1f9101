# SteamVista dashboard logic in Dafny

SteamVista is a D3 dashboard over a catalogue of Steam games. This project
models the logic behind its views, without any drawing, and proves what that
logic guarantees:

- **Loading** (`Normalizer`, js/main.js). Each record's `Genres` value is parsed into a trimmed list. Ten niche genres collapse into "Miscellaneous". Genre popularity is tallied and ranked with a stable sort. Every record gets its `GenreMain`. The force graph's genre nodes and genre-game links are built.
- **Pack layout** (`PackLayout`, js/packLayout.js). Records are grouped by `GenreMain`. `getWellLinked` counts strongly related records. The hierarchy's nodes are classified by class and stroke width, and some get labels. The click handler toggles `isClicked`, collects the related games, shuffles them and keeps at most five.
- **Force graph** (`ForceGraph`, js/forceGraph.js). The nodes are split into genres and games and filtered by id. A genre click selects its games. Drawn game positions are clamped into the 745 × 555 chart; genre circles and labels are drawn at their raw positions.
- **Filter panel** (`FilterPanel`, js/filterPanel.js). The filter state, its rewrite on input, and the record test.
- **Scatter filter** (`ScatterFilter`, js/scatterFilter.js). Its state and its record test. The test reads a `rating` filter that nothing ever sets.

Shared modules:

- `JsValues` holds the JavaScript semantics the logic depends on:
  - NaN and `undefined` numbers as `None`;
  - thrown `TypeError`s as `Err`;
  - `trim`, `split(",")` and `toLowerCase`.
- `Seqs` holds sequence tools. These are `filter`, `indexOf`, first-occurrence deduplication (`Array.from(new Set(..))`), `flatMap` and subsequences.
- `Games` holds the game record.

JavaScript object identity is modelled by position:

- `e != d` in `getWellLinked` becomes comparing indices.
- `nodeClickData !== comparedNode` in the click handler does too.

`Math.random` becomes a parameter `random: nat -> real` with values in [0, 1). Call `t` of the shuffle reads `random(t)`.

The model shows several behaviours of the code as it stands:

- **`GenreMain`** is the record's ranked genre with the *largest* ranking index, which is its least popular genre. A record with no ranked genre gets the most popular genre overall.
- **The click handler** acts only on a node whose data already has an `isClicked` property. Nothing in the code creates that property, so on data without such a column every click is ignored (`ClickedEvent` returns `Ignored`). The handler also never clears another node's selection, so any number of games can be selected at once.
- **`ScatterFilter.applyFilters`** reads `this.filters.rating`, which stays undefined. The first record that has a rating makes the test throw. When no record has one, nothing passes. Either way no record survives.
- **A game with an empty genre list** lands in the force graph's *genre* list, next to the genre objects.

## Model

| member | source | states |
|---|---|---|
| JsValues.TrimUnique | js/main.js:17-19 | `trim` returns the middle of any split of the string into white space, a middle that has no white space at either end, and white space |
| JsValues.TrimIdempotent | js/main.js:17-19 | trimming an already trimmed genre changes nothing |
| JsValues.SplitCommas | js/main.js:19 | `split(",")` gives one piece more than there are commas, and no piece contains a comma |
| JsValues.JoinSplit | js/main.js:19 | joining the pieces with commas gives back the original string |
| JsValues.SplitJoin | js/main.js:19 | splitting a comma-join of comma-free pieces gives back the pieces |
| Normalizer.ParseGenres | js/main.js:16-22 | an array is trimmed element by element; a string gives (commas + 1) trimmed, comma-free pieces, piece k being the trim of the k-th comma-separated field of the text (fields that join back to the text); any other value gives [] |
| Normalizer.EmptyTextGivesOneBlank | js/main.js:19 | an empty genre string yields one blank genre, not an empty list |
| Normalizer.CollapseMiscSpec | js/main.js:25-43 | the list never grows; "Miscellaneous" is present afterwards iff it was before or some niche genre was; non-niche genres keep their order, with "Miscellaneous" appended only when it was missing; each niche genre loses exactly one occurrence; and the result is the list with the first occurrence of each niche genre dropped and every other entry kept in place, plus "Miscellaneous" at the end when it was missing and a niche genre was present |
| Normalizer.CollapseAllShape | js/main.js:34-43 | the same shape facts for any run of the collapse over genres other than "Miscellaneous" |
| Normalizer.CollapseAllCounts | js/main.js:34-43 | each distinct niche genre present loses exactly one occurrence; every other count except that of "Miscellaneous" is unchanged |
| Normalizer.CollapseAllDropsFirsts | js/main.js:34-43 | for any run over distinct genres other than "Miscellaneous", the collapse equals a left-to-right scan that drops the first occurrence of each of those genres, plus "Miscellaneous" appended when it was missing and one of them was present |
| Normalizer.CollapseOneCount | js/main.js:36-43 | one step of the collapse removes one occurrence of its niche genre when present and leaves the count of every other genre except "Miscellaneous" unchanged |
| Normalizer.TallyCounts | js/main.js:46-48 | the tally's keys are the genres in first-occurrence order, and each count is that genre's number of occurrences with repetition |
| Normalizer.KeysRemoveBlank | js/main.js:55 | deleting the "" key leaves the other keys in their order |
| Normalizer.PopularitySpec | js/main.js:46-55 | on the loaded data, popularity holds every non-blank genre once, in first-occurrence order, with its occurrence count across all records |
| Normalizer.SortByCount | js/main.js:116-118 | the sort is a permutation of the table and leaves counts non-increasing |
| Normalizer.SortStable | js/main.js:116-118 | within each count, entries keep their original relative order |
| Normalizer.RankingOrder | js/main.js:116-118 | the ranking lists each popularity key once; counts never increase; ties follow insertion order of the keys |
| Normalizer.RankingSpec | js/main.js:116-118 | on the loaded data, the ranking is exactly the non-blank genres, without repeats, most frequent first, with ties in order of first occurrence |
| Normalizer.RankingOfTally | js/main.js:116-118 | for any table that tallies the non-blank genres of a genre list, the ranking holds exactly those genres, once each, by non-increasing occurrence count, ties in order of first occurrence in the list |
| Normalizer.MainGenreIndex | js/main.js:121-127 | the chosen index is at least the ranking index of every ranked genre of the record and is one of them, or 0 when none is ranked |
| Normalizer.MainGenreLeast | js/main.js:121-128 | over a ranking of non-increasing counts, `GenreMain` lies in the ranking, ranked no higher than any of the record's ranked genres and of no greater count than any of them, the top genre when none is ranked, and undefined only for an empty ranking |
| Normalizer.GenreMainSpec | js/main.js:114-129 | for every loaded record, `GenreMain` is defined iff the ranking is non-empty, it lies in the ranking, it is ranked no higher than any of the record's ranked genres and is no more frequent than them, and it is the most popular genre when none of the record's genres is ranked |
| Normalizer.MainGenreInRecord | js/main.js:121-127 | the main genre is one of the list's own genres whenever any of them is ranked |
| Normalizer.GenreMainInRecord | js/main.js:114-129 | for every loaded record with a ranked genre, `GenreMain` is one of that record's own genres |
| Normalizer.UniqueGenresSpec | js/main.js:61-63 | the genre nodes have no repeats, include every genre of every record (the blank one too), contain nothing else, and follow first-occurrence order |
| Seqs.DedupIsFirstOccurrences | js/main.js:61 | the left-to-right `Set` scan equals the first-occurrence reference and has no repeats, loses no element and keeps first-occurrence order |
| Normalizer.LinksSpec | js/main.js:65-73 | one link per genre entry, in game-then-genre order: the sources are the flattened genre lists, the targets are the games owning those entries in the same order, the count is the sum of the list lengths, and each source is a genre of its target |
| PackLayout.GroupByGenreMainSpec | js/packLayout.js:181-190 | the group keys are the `GenreMain` values in first-occurrence order, and each group holds, in data order, the records with its key |
| PackLayout.GroupSizes | js/packLayout.js:185-188 | the groups hold as many records in total as the data |
| PackLayout.GroupPartition | js/packLayout.js:185-188 | group keys are distinct, every record's key is among them, and a group holds a record iff the record carries its key |
| PackLayout.MatchingGenresFilter | js/packLayout.js:202-206 | counting matches position by position equals the length of the filtered genre list |
| PackLayout.RelatedCountSpec | js/packLayout.js:198-215 | `relatedGames` is the number of other records in which more than 2 of the record's genre positions are found, and is at most n - 1 |
| PackLayout.GetWellLinked | js/packLayout.js:194-219 | records with more than 2 genres get `relatedGames`, and the others are unchanged; the list returned holds exactly the records with more than 2 genres and at least one strong link, once each, in data order |
| PackLayout.ScanLinks | js/packLayout.js:198-214 | the count is the number of other records sharing more than 2 genre positions with the record, and the record is appended to the list exactly once when that count is positive |
| PackLayout.CountMatching | js/packLayout.js:200-206 | the loop counts the positions of the record's genre list whose genre the other record includes, agreeing with the position-by-position count |
| PackLayout.NodeClass | js/packLayout.js:98-106 | the `hasOwnProperty` chain gives "node" exactly for games, "genreGroup" exactly for groups, and "outerGroup" exactly for the root |
| PackLayout.StrokeWidth | js/packLayout.js:126-140 | stroke width is 2 for Indie games, 0.5 for other games, 1 for genre groups and 0 for the root |
| PackLayout.LabelledSpec | js/packLayout.js:147 | exactly the games with peak concurrent players above 100000 get a label, in node order, each copy of a labelled node kept and no copy of another |
| PackLayout.RelatedSpec | js/packLayout.js:234-246 | the related set excludes the clicked node and holds exactly the games with more than 2 genres that the clicked game also has, without repeats |
| PackLayout.Draw | js/packLayout.js:251 | the random index of step i lies in [0, i] |
| PackLayout.ShufflePermutes | js/packLayout.js:250-253 | for any random values the shuffle is a permutation, so it keeps the set free of repeats |
| PackLayout.KeepFirst | js/packLayout.js:257 | `splice(5)` leaves the prefix of exactly min(5, n) elements |
| PackLayout.ClickedLines | js/packLayout.js:234-257 | a selection draws exactly min(5, number of related games) lines, to distinct related games, and to all of them when there are at most 5 |
| PackLayout.ClickedEvent | js/packLayout.js:221-283 | a click flips `isClicked` of a game that has the property, selecting it iff it was unselected; no other node changes; a node without the property is ignored |
| PackLayout.ClickTwice | js/packLayout.js:226-274 | clicking the same node twice restores every node |
| ForceGraph.InnerSize | js/forceGraph.js:22-30 | the inner chart is 745 wide and 555 high |
| ForceGraph.SplitSpec | js/forceGraph.js:59-65 | nodes without genres and nodes with genres partition the node list, with multiplicity, each part keeping node order |
| ForceGraph.InitialSplit | js/main.js:87 | on the loaded nodes, the genre list is every genre object followed by the records with no genre, and the game list is the records with genres |
| ForceGraph.InitVisSpec | js/forceGraph.js:59-84 | after construction the simulated genres are the genre objects and genre-less records with a non-empty id (so never the blank genre), and the simulated games are the records with genres and a non-empty id; each list keeps the order of its split list and every copy of a kept node |
| ForceGraph.UpdateVisSpec | js/forceGraph.js:76-84 | after `updateVis` every simulated node (genres, then games) has a non-empty id; each list on its own keeps a node iff it was in that list and has an id, in order and with every copy; a second `updateVis` changes nothing |
| ForceGraph.FilterByGenreSpec | js/forceGraph.js:152-156 | a genre click keeps exactly the records that list the genre and have an `app_id`, in order and with every copy kept; no genre node survives |
| ForceGraph.Clamp | js/forceGraph.js:139-143 | `max(0, min(w, x))` is at least 0, at most w when w is at least 0, equals x when x already lies in [0, w], is exactly 0 below the range and exactly w above it, and stays NaN for NaN |
| ForceGraph.ClampIdempotent | js/forceGraph.js:193-197 | clamping twice is clamping once |
| ForceGraph.DrawnPosition | js/forceGraph.js:138-143 | drawn game positions lie inside the 745 × 555 chart |
| FilterPanel.Initial | js/filterPanel.js:7-12 | the dates run from local midnight of 1 February 1970 to now; rating is null; price is [0, 999.99]; score is [0, 100] |
| FilterPanel.UpdateFilters | js/filterPanel.js:91-106 | afterwards rating is the selected rating, or "Overwhelmingly Positive" when none is selected, and so never null; the price bound is [input, 1000]; the score bound is [input, 100]; the dates are taken from the inputs |
| FilterPanel.ApplyFiltersSpec | js/filterPanel.js:130-162 | a record is kept iff its date, rating, price and score all pass, with inclusive bounds, an undefined or NaN value failing, and ratings compared ignoring case; the result is a subsequence of the data holding every copy of each kept record |
| FilterPanel.UpdatedRatingTest | js/filterPanel.js:97-98 | after any input a record passes the rating test iff its rating equals, ignoring case, the selection or "Overwhelmingly Positive" when none is selected |
| FilterPanel.ApplyFiltersIdempotent | js/filterPanel.js:130 | filtering the result again with the same filters returns it unchanged |
| FilterPanel.NullRatingMatchesAll | js/filterPanel.js:132-135 | while rating is null, the rating test passes every record |
| FilterPanel.WideningKeeps | js/filterPanel.js:137-146 | with wider ranges no kept record is dropped, and the narrower result is the narrower filter applied to the wider one |
| FilterPanel.OnInputForgetsHistory | js/filterPanel.js:110-130 | after an input change, the result depends only on the data and the latest inputs |
| ScatterFilter.Initial | js/scatterFilter.js:7-10 | date is null, rating is never assigned, and the score range is [0, 100] |
| ScatterFilter.UpdateFilters | js/scatterFilter.js:50-57 | date becomes the selection or the fallback; the score range becomes [input, 100]; rating is untouched |
| ScatterFilter.RatingStaysUndefined | js/scatterFilter.js:50-57 | no sequence of input changes ever assigns rating |
| ScatterFilter.Test | js/scatterFilter.js:77-86 | the test throws iff rating is undefined and the record has a rating; a pass implies the score is in range; while rating is undefined, a record without a rating fails |
| ScatterFilter.TryFilterSpec | js/scatterFilter.js:75-87 | the filter throws iff some record's test throws; otherwise it keeps only records that passed |
| ScatterFilter.NothingKept | js/scatterFilter.js:75-86 | while `rating` is undefined, a filter pass that does not throw keeps no record |
| ScatterFilter.ApplyFiltersOutcome | js/scatterFilter.js:72-87 | in every reachable state, the filter throws iff some record has a rating, and otherwise keeps nothing |

## Left out

- Loading and parsing are inputs, not modelled. This covers `d3.csv`, `decodeHTMLEntities` (which needs a DOM), `new Date(...)`, `parseFloat` and `parseInt`. Records arrive typed, with release dates as time values (`None` for an Invalid Date) and slider values already parsed.
- Numeric coercion of CSV text is not modelled. js/main.js:11-13 converts only `positive_ratio`, `user_reviews` and `Release date`. `price`, `metacritic_score` and `Peak_CCU` stay strings and are converted by ToNumber at each comparison (js/filterPanel.js:142, js/filterPanel.js:145-146, js/packLayout.js:147). The model's numeric fields hold that converted value: a blank cell arrives as `Some(0.0)` (so a blank score passes the default [0, 100] range) and unparsable text as `None`.
- Normalizer.Load: `genrePopularity` is an Array used as a map. The model keeps its keys in insertion order and does not model two behaviours:
  - `Object.keys` putting integer-like genre names first;
  - genre names that clash with Array properties such as `length`.
- JsValues.ToLower: only ASCII letters are lowered, which is narrower than `toLowerCase`. It is used by the rating comparisons of both filters.
- FilterPanel.Initial: the host time zone enters only as the offset `getTimezoneOffset` reports for 1 February 1970, and the current time is a parameter.
- Rendering is not modelled: SVG elements, colours, opacities, tooltips, slider and select widgets, and the `updateFilterValues` text (including `toFixed`).
- The layout engines `d3.hierarchy`, `d3.pack` and `d3.forceSimulation` are library numerics and are not modelled. `ClickedEvent` therefore takes the hierarchy's node list as given rather than computing `root.descendants()`, and simulated positions are inputs to `Clamp`.
- PackLayout.ClickedEvent: the lines it draws are returned as node positions. Their coordinates and the removal of `.line` elements are rendering.
- Propagation between views is not modelled:
  - `PackLayout.updateFilteredData` has an empty body, so the filter panel's result goes nowhere.
  - The scatter filter's call to `scatterMatrix.updateFilteredData` (js/scatterFilter.js:89) targets a method that js/scatterMatrix.js does not define. js/scatterMatrix.js is not part of this model, so only the filtering before that call is modelled.
- js/radarChart.js and js/scatterMatrix.js are not part of this model. They hold float scale, layout and trigonometry code.
- The pack layout's container and margin constants (js/packLayout.js:10-18) only size the drawing and are not modelled.
