# UCSD college preference ranking, modelled in Dafny

The page ranks the eight undergraduate colleges of UC San Diego by a
weighted sum. The user sets three sliders, each from 1 to 10: a weight for
flexible general-education (GE) requirements, one for modern housing and one
for central location. The user can also pick a theme. Every college carries
a 1..5 rating for GE rigor, housing modernity and centrality. The ranking
(`rankedColleges` in `App.jsx`) does three things:

1. It scores each college as
   `(6 - ge_rigor) * geWeight + housing_modernity * housingWeight + centrality * centralityWeight`.
   It then extends the college's record with `totalScore`, a `displayScore`
   object and `inverseGEScore`.
2. It keeps the colleges whose name the chosen theme lists. `"All"` keeps
   every college.
3. It sorts by descending score with `(a, b) => b.totalScore - a.totalScore`.
   The card at index `i` shows rank `i + 1`.

The project has five modules:

- `Colleges` (`colleges.dfy`) holds the dataset and its well-formedness.
- `Scoring` (`scoring.dfy`) holds the inverted rigor, the score, the record
  extension and the `.map`.
- `ThemeFilter` (`theme_filter.dfy`) holds the theme test, exactly as the
  page writes it. It is proved equal to a separate table from theme to names
  (`ThemeTable`).
- `ScoreSort` (`score_sort.dfy`) holds the comparator and a stable insertion
  sort. ECMAScript 2019 (section 22.1.3.27) requires `Array.prototype.sort`
  to be stable. With this comparator, a stable sort has exactly one possible
  result. `StableSortIsUnique` proves that the insertion sort returns that
  result.
- `Ranking` (`ranking.dfy`) holds the whole pipeline (`Rank` over any list
  of colleges, `RankedColleges` over the dataset) and its end-to-end
  properties.

These properties are proved:

- The eight records are well formed.
- Inversion is correct and every score lies in 3..150.
- The record extension copies every field unchanged.
- The filter selects exactly what the table says. `"All"` and unknown themes
  keep all eight colleges.
- The sort is a permutation, is sorted and is stable.
- Rank 1 holds the highest score.
- Ties keep the dataset order: of two colleges with equal scores, the one
  listed first in the table gets the better rank.
- Raising the housing weight never lets a college with older housing
  overtake one with newer housing.
- Two worked rankings hold: weights 10/1/1 and 1/10/1 under `"All"`.

The result depends only on the three weights and the theme.
`RankedColleges` is a Dafny function of exactly those four inputs, so
computing it twice with the same inputs gives the same list. This holds by
construction, so no lemma states it.

Three facts about the code shape the model:

- Any theme that the filter's chain of tests does not recognise keeps every
  college, because the chain ends in `return true` (App.jsx:225).
  `UnfilteredThemeKeepsAll` and `UnfilteredRanksAllEight` state this for
  every theme outside the table, `"All"` included.
- Themes select colleges by name. They never read a college's `theme`
  field.
- The effect of the housing weight on ranks is stated for pairs of colleges
  in `HousingWeightKeepsOrder`. A college with housing at least as new that
  led another, or tied with it while having strictly newer housing, is
  ranked ahead of it once the housing weight rises.

## Model

| member | source | states |
|---|---|---|
| Colleges.CollegeDataWellFormed | App.jsx:7-72 | The table has eight entries, every rated attribute is on the 1..5 scale, and no two colleges share a name (the name is the card's key at App.jsx:311) |
| Colleges.CollegeDataNames | App.jsx:7-72 | The names of the eight colleges, in dataset order |
| Scoring.InverseGE | App.jsx:193 | The inverted rigor adds up to 6 with the rigor, and is on the 1..5 scale exactly when the rigor is |
| Scoring.InverseGEInvolutiveAndAntitone | App.jsx:189-193 | Inverting twice restores the rigor, and a lower rigor gives a strictly higher inverted score and conversely |
| Scoring.ScoreBounds | App.jsx:196-200 | For slider weights (1..10, App.jsx:85-86) and 1..5 ratings, the score lies between the weight sum and five times it, hence in 3..150 |
| Scoring.ScoreWeightIncrement | App.jsx:196-200 | Raising one weight by d changes the score by exactly d times the attribute that weight multiplies |
| Scoring.HousingWeightWidensLead | App.jsx:197-200 | Raising the housing weight never shrinks the lead of a college with housing at least as new |
| Scoring.HousingWeightKeepsLead | App.jsx:197-200 | After the housing weight rises, a college with housing at least as new still scores strictly more than one it led, and breaks a tie in its favour if its housing is strictly newer |
| Scoring.DominanceImpliesScore | App.jsx:193-200 | A college no worse on all three attributes scores at least as much under any slider weights |
| Scoring.ScoreCollege | App.jsx:210-215 | The extended record keeps every original field, its totalScore is the weighted sum, displayScore carries the three weights and the same score, and inverseGEScore + ge_rigor == 6 |
| Scoring.ScoreAll | App.jsx:188-216 | The `.map` keeps the length, and entry i is the extension of college i |
| Scoring.ScoreAllNamesUnique | App.jsx:188-216 | Scoring a uniquely named list keeps the names distinct |
| Scoring.ScoreAllBounds | App.jsx:188-216 | Every scored entry of valid colleges under slider weights has a score in 3..150 |
| ThemeFilter.KeepForTheme | App.jsx:218-226 | The theme test keeps everything for "All", and keeps a college exactly when the theme is not in the table or the table lists the college's name under it |
| ThemeFilter.ThemesMatchTable | App.jsx:184 | The drop-down starts with "All" and otherwise offers exactly the table's themes |
| ThemeFilter.ThemeTableNamesExist | App.jsx:220-224 | Every name a theme lists is the name of a college in the dataset |
| ThemeFilter.FilterByTheme | App.jsx:217-226 | The `.filter` never grows the list |
| ThemeFilter.FilterByThemeMembers | App.jsx:217-226 | The `.filter` keeps exactly the entries the theme test accepts |
| ThemeFilter.FilterByThemeCounts | App.jsx:217-226 | The `.filter` keeps every copy of an accepted entry and no copy of a rejected one |
| ThemeFilter.FilterByThemeAppend | App.jsx:217-226 | Filtering a concatenation is the concatenation of the filtered parts, in order |
| ThemeFilter.FilterByThemeKeepsOrder | App.jsx:217-226 | Two accepted entries at input positions i < j appear at result positions a < b |
| ThemeFilter.KeptColleges | App.jsx:217-226 | The same filter on unscored colleges keeps exactly the accepted colleges |
| ThemeFilter.KeptCollegesCounts | App.jsx:217-226 | The filter on unscored colleges keeps every copy of an accepted college and no copy of a rejected one |
| ThemeFilter.FilterCommutesWithScoring | App.jsx:188-226 | Filtering the scored list equals scoring the filtered list, since the test reads only the copied name |
| ThemeFilter.KeptCollegesNamesUnique | App.jsx:217-226 | Filtering keeps names distinct |
| ThemeFilter.UnfilteredThemeKeepsAll | App.jsx:219-225 | A theme outside the table, "All" included, keeps every college in order |
| ThemeFilter.NamesCount | App.jsx:217-226 | A list with distinct names has as many names as entries |
| ThemeFilter.SelectsExactly | App.jsx:220-224 | In a uniquely named list holding all of a theme's names, the theme selects exactly those names, one entry each |
| ThemeFilter.NamedThemeSelectsExactly | App.jsx:220-224 | Each named theme selects from the dataset exactly the colleges the table lists, one entry per name |
| ScoreSort.Compare | App.jsx:228 | The comparator is negative exactly when the first entry scores more, and zero exactly on a tie |
| ScoreSort.InsertPermutes | App.jsx:228 | Insertion adds the entry once and keeps the rest (multiset, length, membership) |
| ScoreSort.InsertAt | App.jsx:228 | An entry is inserted right after the entries that score strictly more than it |
| ScoreSort.InsertSorted | App.jsx:228 | Inserting into a sorted list keeps it sorted |
| ScoreSort.SortByScorePermutes | App.jsx:228 | The sort returns a permutation of its input |
| ScoreSort.SortByScoreSorted | App.jsx:228 | The sort's result never increases in score |
| ScoreSort.SortedHigherFirst | App.jsx:228 | In a sorted list an entry with a strictly higher score comes first |
| ScoreSort.SortByScoreStep | App.jsx:228 | One insertion step of the sort, given the sorted tail |
| ScoreSort.InsertKeepsTies | App.jsx:228 | Insertion puts the entry at the head of its tie group and leaves every tie group intact |
| ScoreSort.SortByScoreStable | App.jsx:228 | The sort is stable: each tie group keeps its input order |
| ScoreSort.WithScoreDistinct | App.jsx:228 | A tie group of a list without repeated entries has none either |
| ScoreSort.WithScoreAppend | App.jsx:228 | The tie group of a concatenation is the groups of the parts, in order |
| ScoreSort.WithScoreKeepsOrder | App.jsx:228 | Two tied entries at positions i < j appear in that order in their tie group |
| ScoreSort.TiedEntriesKeepOrder | App.jsx:228 | A list with the tie groups of a list without repeats puts two tied entries in the same relative order |
| ScoreSort.SortByScoreKeepsTieOrder | App.jsx:228 | Stability by position: two tied entries at input positions i < j sit at sorted positions p < q |
| ScoreSort.SortedGroupsDetermine | App.jsx:228 | Two sorted lists with the same tie groups are equal |
| ScoreSort.StableSortIsUnique | App.jsx:228 | A list is the sort's result if and only if it is sorted and stable, so every stable sort with this comparator gives the same array |
| Ranking.RankIsSortedSelection | App.jsx:186-231 | The ranking is the sorted scoring of the colleges the theme keeps |
| Ranking.RankSortedPermutation | App.jsx:186-231 | The ranking is sorted, is a permutation of the filtered scored list, and has one entry per kept college |
| Ranking.ScoredOccurrences | App.jsx:188-216 | In a uniquely named list the scored copy of a college occurs once if the college is in the list, and never otherwise |
| Ranking.RankOnceEach | App.jsx:186-231 | In the ranking of a uniquely named list each college occurs once if its theme test keeps it, and never otherwise |
| Ranking.RankEntriesFromSelection | App.jsx:186-231 | Every ranked entry is the scored copy of a listed college that the theme keeps |
| Ranking.RankedOnceEach | App.jsx:186-231 | For the dataset, no college is lost or duplicated, and every ranked entry comes from a kept college |
| Ranking.UnfilteredRanksAllEight | App.jsx:219-228 | With "All", or any theme outside the table, all eight scored colleges are ranked, each once ("8 of 8 shown", App.jsx:306) |
| Ranking.ScoreAllNames | App.jsx:210-215 | The scored list carries exactly the names of its colleges |
| Ranking.RankNamesExactly | App.jsx:220-228 | For a uniquely named list, a named theme ranks exactly its listed names, one entry each |
| Ranking.NamedThemeRanksExactly | App.jsx:220-228 | For any weights, a named theme ranks exactly the colleges the table lists, one entry per name |
| Ranking.FlexibleThemeExample | App.jsx:222 | "Flexible/Less GE" ranks exactly John Muir and Earl Warren, for any weights |
| Ranking.TopRankHasMaxScore | App.jsx:228-319 | The ranking is empty (the "no colleges match" message) exactly when no college passes the theme; otherwise rank 1 scores at least as much as every kept college, and a better rank never has a lower score |
| Ranking.HigherScoreRanksFirst | App.jsx:228-313 | Of two ranked cards, the one with the strictly higher score has the smaller rank number |
| Ranking.HousingWeightKeepsOrder | App.jsx:197-313 | After the housing weight rises, a college with housing at least as new that led (or tied with strictly newer housing) another is ranked ahead of it |
| Ranking.TiesKeepDatasetOrder | App.jsx:228 | The colleges tied at any score appear in the ranking in their dataset order |
| Ranking.ScoreAllDistinct | App.jsx:188-216 | Scoring a uniquely named list gives pairwise different entries |
| Ranking.FilteredPositions | App.jsx:217-226 | Two kept colleges at list positions i < j keep that order after scoring and filtering |
| Ranking.FilteredDistinct | App.jsx:188-226 | The filtered scoring of a uniquely named list repeats no entry |
| Ranking.TiedRankKeepsOrder | App.jsx:186-313 | In the ranking of a uniquely named list, of two colleges with equal scores the earlier one in the list gets the smaller rank number |
| Ranking.TiedCollegesKeepDatasetOrder | App.jsx:186-313 | Of two colleges with equal scores, the one listed first in the table gets the smaller rank number |
| Ranking.RankedEntriesWellFormed | App.jsx:188-215 | Under slider weights every ranked entry has a score in 3..150, a display score equal to it, and an inverted rigor in 1..5 adding up to 6 with its rigor |
| Ranking.RankedNames | App.jsx:306-313 | The names shown from rank 1 down, one per ranked entry |
| Ranking.UnfilteredRank | App.jsx:219-228 | A theme outside the table leaves the whole scored list to the sort |
| Ranking.GEWeightScores | App.jsx:193-200 | The eight scores under weights 10, 1, 1, in dataset order |
| Ranking.GEWeightRanking | App.jsx:186-231 | The ranking under weights 10, 1, 1 with "All", by dataset position |
| Ranking.GEWeightExample | App.jsx:186-231 | Under weights 10, 1, 1 with "All" the order is Warren, Muir, Sixth, Seventh, Eighth, Marshall, Roosevelt, Revelle; Marshall and Roosevelt tie and keep their dataset order |
| Ranking.HousingWeightScores | App.jsx:193-200 | The eight scores under weights 1, 10, 1, in dataset order |
| Ranking.HousingWeightRanking | App.jsx:186-231 | The ranking under weights 1, 10, 1 with "All", by dataset position |
| Ranking.HousingWeightExample | App.jsx:186-231 | Under weights 1, 10, 1 with "All", Sixth, Seventh and Eighth take ranks 1 to 3, followed by Warren, Roosevelt, Marshall, Muir, Revelle |

## Left out

- The React components are not modelled: the page layout, the slider and drop-down widgets, the card markup and the icons. They have no algorithmic content.
- The colour banding of the cards and badges (`CollegeCard`, App.jsx:101-172) is presentational and not modelled.
- `useState` and `useMemo` are not modelled. The memo's dependency list is reflected in `RankedColleges` being a function of the weights and the theme alone.
- The `parseInt` of slider values (App.jsx:88) and the `Math.round` of the displayed score (App.jsx:123) are not modelled. The weights are taken as the integers the sliders produce.
- Scores are JavaScript numbers (doubles) in the source and unbounded integers here. Every score is an integer of at most 150, so the double arithmetic is exact and the two agree.
- The sort is modelled as one particular stable algorithm (insertion sort). `StableSortIsUnique` shows that any stable sort with this comparator returns the same list, so the choice does not matter.
