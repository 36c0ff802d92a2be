/**
 * The whole `rankedColleges` computation: score every college of the
 * dataset, keep those of the chosen theme, sort by descending score. The
 * rank a card shows is its 1-based position in the result. The result is a
 * function of the three weights and the theme alone, as the memo's
 * dependency list says.
 *
 * The properties are first proved for the pipeline over any list of
 * uniquely named colleges (`Rank`), then stated for the dataset itself.
 */
module Ranking {
  import opened Colleges
  import opened Scoring
  import opened ThemeFilter
  import opened ScoreSort

  /** Score, filter by theme, sort: the pipeline over a list of colleges. */
  function Rank(cs: seq<College>, w: Weights, theme: string): seq<ScoredCollege> {
    SortByScore(FilterByTheme(theme, ScoreAll(cs, w)))
  }

  /** The ranking the page shows for weights `w` and theme `theme`. */
  function RankedColleges(w: Weights, theme: string): seq<ScoredCollege> {
    Rank(CollegeData, w, theme)
  }

  /** The college a card with 1-based rank `rank` shows. */
  function AtRank(r: seq<ScoredCollege>, rank: nat): ScoredCollege
    requires 1 <= rank <= |r|
  {
    r[rank - 1]
  }

  // ---------------------------------------------------------------------
  // The pipeline over any list of colleges
  // ---------------------------------------------------------------------

  /** The ranking is the sorted scoring of the colleges the theme selects. */
  lemma RankIsSortedSelection(cs: seq<College>, w: Weights, theme: string)
    ensures Rank(cs, w, theme) == SortByScore(ScoreAll(KeptColleges(theme, cs), w))
  {
    FilterCommutesWithScoring(theme, cs, w);
  }

  /**
   * The ranking is a permutation of the theme's scored colleges in which
   * scores never increase.
   */
  lemma RankSortedPermutation(cs: seq<College>, w: Weights, theme: string)
    ensures SortedByScore(Rank(cs, w, theme))
    ensures multiset(Rank(cs, w, theme)) == multiset(FilterByTheme(theme, ScoreAll(cs, w)))
    ensures |Rank(cs, w, theme)| == |KeptColleges(theme, cs)|
  {
    var filtered := FilterByTheme(theme, ScoreAll(cs, w));
    SortByScoreSorted(filtered);
    SortByScorePermutes(filtered);
    FilterCommutesWithScoring(theme, cs, w);
  }

  /**
   * In a list of uniquely named colleges, the scored copy of `c` occurs once
   * if `c` is in the list and not at all otherwise.
   */
  lemma {:induction false} ScoredOccurrences(cs: seq<College>, w: Weights, c: College)
    requires NamesUnique(cs)
    ensures multiset(ScoreAll(cs, w))[ScoreCollege(c, w)] == if c in cs then 1 else 0
  {
    if cs != [] {
      ScoredOccurrences(cs[1..], w, c);
      assert ScoreAll(cs, w) == [ScoreCollege(cs[0], w)] + ScoreAll(cs[1..], w);
      assert ScoreCollege(cs[0], w) == ScoreCollege(c, w) <==> cs[0] == c;
      if cs[0] == c {
        assert c !in cs[1..] by {
          forall j | 0 <= j < |cs[1..]| ensures cs[1..][j] != c {
            assert cs[j + 1] == cs[1..][j];
          }
        }
      }
      assert cs == [cs[0]] + cs[1..];
    }
  }

  /**
   * No college is lost or duplicated: in the ranking of a uniquely named
   * list, each college occurs once if the theme keeps it and never
   * otherwise.
   */
  lemma RankOnceEach(cs: seq<College>, w: Weights, theme: string, c: College)
    requires NamesUnique(cs) && c in cs
    ensures multiset(Rank(cs, w, theme))[ScoreCollege(c, w)]
              == if KeepForTheme(theme, c.name) then 1 else 0
  {
    var kept := KeptColleges(theme, cs);
    RankIsSortedSelection(cs, w, theme);
    SortByScorePermutes(ScoreAll(kept, w));
    KeptCollegesNamesUnique(theme, cs);
    ScoredOccurrences(kept, w, c);
  }

  /** Every ranked entry is the scored copy of a college the theme keeps. */
  lemma RankEntriesFromSelection(cs: seq<College>, w: Weights, theme: string, x: ScoredCollege)
    requires x in Rank(cs, w, theme)
    ensures x.Base() in cs && KeepForTheme(theme, x.name) && x == ScoreCollege(x.Base(), w)
  {
    var kept := KeptColleges(theme, cs);
    assert x in ScoreAll(kept, w) by {
      RankIsSortedSelection(cs, w, theme);
      SortByScorePermutes(ScoreAll(kept, w));
      assert x in multiset(Rank(cs, w, theme));
    }
    var i :| 0 <= i < |kept| && ScoreAll(kept, w)[i] == x;
    assert kept[i] in kept;
  }

  // ---------------------------------------------------------------------
  // The ranking of the eight colleges
  // ---------------------------------------------------------------------

  /**
   * No college is lost or duplicated: each of the eight colleges occurs
   * exactly once in the ranking if its theme test keeps it, and never
   * otherwise; and every ranked entry is the scored copy of a college of
   * the dataset that the theme keeps.
   */
  lemma RankedOnceEach(w: Weights, theme: string)
    ensures forall c :: c in CollegeData ==>
              multiset(RankedColleges(w, theme))[ScoreCollege(c, w)]
                == if KeepForTheme(theme, c.name) then 1 else 0
    ensures forall x :: x in RankedColleges(w, theme) ==>
              x.Base() in CollegeData && KeepForTheme(theme, x.name) && x == ScoreCollege(x.Base(), w)
  {
    CollegeDataWellFormed();
    forall c | c in CollegeData
      ensures multiset(RankedColleges(w, theme))[ScoreCollege(c, w)]
                == if KeepForTheme(theme, c.name) then 1 else 0
    {
      RankOnceEach(CollegeData, w, theme, c);
    }
    forall x | x in RankedColleges(w, theme)
      ensures x.Base() in CollegeData && KeepForTheme(theme, x.name) && x == ScoreCollege(x.Base(), w)
    {
      RankEntriesFromSelection(CollegeData, w, theme, x);
    }
  }

  /**
   * With `"All"`, or any theme the filter does not recognise, all eight
   * colleges are ranked, each once.
   */
  lemma UnfilteredRanksAllEight(w: Weights, theme: string)
    requires theme == "All" || theme !in ThemeTable
    ensures |RankedColleges(w, theme)| == 8
    ensures multiset(RankedColleges(w, theme)) == multiset(ScoreAll(CollegeData, w))
  {
    assert "All" !in ThemeTable;
    RankSortedPermutation(CollegeData, w, theme);
    UnfilteredThemeKeepsAll(theme, CollegeData);
    FilterCommutesWithScoring(theme, CollegeData, w);
    CollegeDataWellFormed();
  }

  /** The names of a list of scored colleges. */
  function ScoredNames(xs: seq<ScoredCollege>): set<string> {
    set x | x in xs :: x.name
  }

  /** The scored entries carry the names of the colleges they were made from. */
  lemma ScoreAllNames(cs: seq<College>, w: Weights)
    ensures ScoredNames(ScoreAll(cs, w)) == Names(cs)
  {
    forall n | n in Names(cs) ensures n in ScoredNames(ScoreAll(cs, w)) {
      var i :| 0 <= i < |cs| && cs[i].name == n;
      assert ScoreAll(cs, w)[i] in ScoreAll(cs, w);
    }
  }

  /**
   * In a uniquely named list that holds every name a theme lists, the
   * ranking for that theme holds exactly those names, one entry each.
   */
  lemma RankNamesExactly(cs: seq<College>, w: Weights, theme: string)
    requires theme in ThemeTable && ThemeTable[theme] <= Names(cs) && NamesUnique(cs)
    ensures ScoredNames(Rank(cs, w, theme)) == ThemeTable[theme]
    ensures |Rank(cs, w, theme)| == |ThemeTable[theme]|
  {
    var kept := KeptColleges(theme, cs);
    RankIsSortedSelection(cs, w, theme);
    SortByScorePermutes(ScoreAll(kept, w));
    assert forall x :: x in Rank(cs, w, theme) <==> x in ScoreAll(kept, w) by {
      forall x ensures x in Rank(cs, w, theme) <==> x in ScoreAll(kept, w) {
        assert x in Rank(cs, w, theme) <==> x in multiset(Rank(cs, w, theme));
      }
    }
    ScoreAllNames(kept, w);
    SelectsExactly(theme, cs);
  }

  /**
   * A named theme ranks exactly the colleges the table lists for it, one
   * entry per listed name, whatever the weights.
   */
  lemma NamedThemeRanksExactly(w: Weights, theme: string)
    requires theme in ThemeTable
    ensures ScoredNames(RankedColleges(w, theme)) == ThemeTable[theme]
    ensures |RankedColleges(w, theme)| == |ThemeTable[theme]|
  {
    ThemeTableNamesExist();
    CollegeDataWellFormed();
    RankNamesExactly(CollegeData, w, theme);
  }

  /** `"Flexible/Less GE"` ranks John Muir and Earl Warren and nothing else. */
  lemma FlexibleThemeExample(w: Weights)
    ensures ScoredNames(RankedColleges(w, "Flexible/Less GE"))
              == {"John Muir College", "Earl Warren College"}
    ensures |RankedColleges(w, "Flexible/Less GE")| == 2
  {
    NamedThemeRanksExactly(w, "Flexible/Less GE");
  }

  /**
   * The ranking is empty (the page then shows its "no colleges match"
   * message) exactly when the theme keeps no college; otherwise the college
   * with rank 1 has the highest score among the kept colleges, and a better
   * rank never carries a lower score.
   */
  lemma TopRankHasMaxScore(w: Weights, theme: string)
    ensures RankedColleges(w, theme) == [] <==>
              forall c :: c in CollegeData ==> !KeepForTheme(theme, c.name)
    ensures RankedColleges(w, theme) != [] ==>
              forall c :: c in CollegeData && KeepForTheme(theme, c.name) ==>
                Score(c, w) <= AtRank(RankedColleges(w, theme), 1).totalScore
    ensures forall p, q :: 1 <= p < q <= |RankedColleges(w, theme)| ==>
              AtRank(RankedColleges(w, theme), p).totalScore
                >= AtRank(RankedColleges(w, theme), q).totalScore
  {
    var r := RankedColleges(w, theme);
    RankedOnceEach(w, theme);
    RankSortedPermutation(CollegeData, w, theme);
    forall c | c in CollegeData && KeepForTheme(theme, c.name)
      ensures ScoreCollege(c, w) in r
    {
      assert multiset(r)[ScoreCollege(c, w)] == 1;
    }
    if r != [] {
      forall c | c in CollegeData && KeepForTheme(theme, c.name)
        ensures Score(c, w) <= r[0].totalScore
      {
        HeadIsMax(r, ScoreCollege(c, w));
      }
      assert r[0] in r;
    }
  }

  /** Of two ranked entries, the one with the strictly higher score has the better rank. */
  lemma HigherScoreRanksFirst(w: Weights, theme: string, p: nat, q: nat)
    requires 1 <= p <= |RankedColleges(w, theme)| && 1 <= q <= |RankedColleges(w, theme)|
    requires AtRank(RankedColleges(w, theme), p).totalScore > AtRank(RankedColleges(w, theme), q).totalScore
    ensures p < q
  {
    SortByScoreSorted(FilterByTheme(theme, ScoreAll(CollegeData, w)));
    SortedHigherFirst(RankedColleges(w, theme), p - 1, q - 1);
  }

  /**
   * Raising the housing weight never lets a college overtake one with newer
   * housing that it scored below, and it breaks a tie in favour of the
   * college with strictly newer housing: after the rise, `a` is ranked
   * ahead of `b`.
   */
  lemma HousingWeightKeepsOrder(a: College, b: College, w: Weights, d: nat, theme: string, p: nat, q: nat)
    requires a.housingModernity >= b.housingModernity
    requires Score(a, w) > Score(b, w)
             || (Score(a, w) == Score(b, w) && a.housingModernity > b.housingModernity && d > 0)
    requires var r := RankedColleges(w.(housing := w.housing + d), theme);
             1 <= p <= |r| && 1 <= q <= |r|
             && AtRank(r, p) == ScoreCollege(a, w.(housing := w.housing + d))
             && AtRank(r, q) == ScoreCollege(b, w.(housing := w.housing + d))
    ensures p < q
  {
    var w' := w.(housing := w.housing + d);
    HousingWeightKeepsLead(a, b, w, d);
    HigherScoreRanksFirst(w', theme, p, q);
  }

  /**
   * Colleges with equal scores keep their dataset order: for every score,
   * the tied entries of the ranking are those of the scored selection, in
   * the same order.
   */
  lemma TiesKeepDatasetOrder(w: Weights, theme: string, k: int)
    ensures WithScore(RankedColleges(w, theme), k)
              == WithScore(ScoreAll(KeptColleges(theme, CollegeData), w), k)
  {
    RankIsSortedSelection(CollegeData, w, theme);
    SortByScoreStable(ScoreAll(KeptColleges(theme, CollegeData), w), k);
  }

  /** Scoring a uniquely named list gives entries that are pairwise different. */
  lemma ScoreAllDistinct(cs: seq<College>, w: Weights)
    requires NamesUnique(cs)
    ensures Distinct(ScoreAll(cs, w))
  {
    ScoreAllNamesUnique(cs, w);
  }

  /**
   * In the ranking of a uniquely named list, two colleges with equal scores
   * keep their order in the list: the earlier one gets the better rank.
   */
  lemma TiedRankKeepsOrder(cs: seq<College>, w: Weights, theme: string, i: nat, j: nat, p: nat, q: nat)
    requires NamesUnique(cs) && i < j < |cs| && Score(cs[i], w) == Score(cs[j], w)
    requires 1 <= p <= |Rank(cs, w, theme)| && 1 <= q <= |Rank(cs, w, theme)|
    requires AtRank(Rank(cs, w, theme), p) == ScoreCollege(cs[i], w)
    requires AtRank(Rank(cs, w, theme), q) == ScoreCollege(cs[j], w)
    ensures p < q
  {
    var r := Rank(cs, w, theme);
    var f := FilterByTheme(theme, ScoreAll(cs, w));
    assert KeepForTheme(theme, cs[i].name) && KeepForTheme(theme, cs[j].name) by {
      assert r[p - 1] in r && r[q - 1] in r;
      RankEntriesFromSelection(cs, w, theme, r[p - 1]);
      RankEntriesFromSelection(cs, w, theme, r[q - 1]);
    }
    var a, b := FilteredPositions(cs, w, theme, i, j);
    assert Distinct(f) by {
      FilteredDistinct(cs, w, theme);
    }
    SortByScoreKeepsTieOrder(f, a, b, p - 1, q - 1);
  }

  /** Two kept colleges at positions `i < j` keep that order after the filter. */
  lemma FilteredPositions(cs: seq<College>, w: Weights, theme: string, i: nat, j: nat)
      returns (a: nat, b: nat)
    requires i < j < |cs| && KeepForTheme(theme, cs[i].name) && KeepForTheme(theme, cs[j].name)
    ensures a < b < |FilterByTheme(theme, ScoreAll(cs, w))|
    ensures FilterByTheme(theme, ScoreAll(cs, w))[a] == ScoreCollege(cs[i], w)
    ensures FilterByTheme(theme, ScoreAll(cs, w))[b] == ScoreCollege(cs[j], w)
  {
    var xs := ScoreAll(cs, w);
    FilterByThemeKeepsOrder(theme, xs, i, j);
    a, b :| 0 <= a < b < |FilterByTheme(theme, xs)|
      && FilterByTheme(theme, xs)[a] == xs[i] && FilterByTheme(theme, xs)[b] == xs[j];
  }

  /** The filtered scoring of a uniquely named list repeats no entry. */
  lemma FilteredDistinct(cs: seq<College>, w: Weights, theme: string)
    requires NamesUnique(cs)
    ensures Distinct(FilterByTheme(theme, ScoreAll(cs, w)))
  {
    FilterCommutesWithScoring(theme, cs, w);
    KeptCollegesNamesUnique(theme, cs);
    ScoreAllDistinct(KeptColleges(theme, cs), w);
  }

  /**
   * Two colleges with equal scores are ranked in dataset order: the one
   * listed first in the table gets the better rank.
   */
  lemma TiedCollegesKeepDatasetOrder(w: Weights, theme: string, i: nat, j: nat, p: nat, q: nat)
    requires i < j < |CollegeData| && Score(CollegeData[i], w) == Score(CollegeData[j], w)
    requires 1 <= p <= |RankedColleges(w, theme)| && 1 <= q <= |RankedColleges(w, theme)|
    requires AtRank(RankedColleges(w, theme), p) == ScoreCollege(CollegeData[i], w)
    requires AtRank(RankedColleges(w, theme), q) == ScoreCollege(CollegeData[j], w)
    ensures p < q
  {
    CollegeDataWellFormed();
    TiedRankKeepsOrder(CollegeData, w, theme, i, j, p, q);
  }

  /**
   * Under slider weights every ranked entry has a score in 3..150, a
   * display score equal to it, and an inverted rigor on the 1..5 scale that
   * adds up to 6 with its rigor.
   */
  lemma RankedEntriesWellFormed(w: Weights, theme: string)
    requires ValidWeights(w)
    ensures forall x :: x in RankedColleges(w, theme) ==>
              && 3 <= x.totalScore <= 150
              && x.displayScore.score == x.totalScore
              && x.inverseGEScore + x.geRigor == 6
              && 1 <= x.inverseGEScore <= 5
  {
    CollegeDataWellFormed();
    forall x | x in RankedColleges(w, theme)
      ensures && 3 <= x.totalScore <= 150
              && x.displayScore.score == x.totalScore
              && x.inverseGEScore + x.geRigor == 6
              && 1 <= x.inverseGEScore <= 5
    {
      RankEntriesFromSelection(CollegeData, w, theme, x);
      ScoreBounds(x.Base(), w);
    }
  }

  // ---------------------------------------------------------------------
  // Two worked rankings
  // ---------------------------------------------------------------------

  /** The names of a ranking, from rank 1 down. */
  function RankedNames(r: seq<ScoredCollege>): (names: seq<string>)
    ensures |names| == |r|
    ensures forall i :: 0 <= i < |r| ==> names[i] == r[i].name
  {
    if r == [] then [] else [r[0].name] + RankedNames(r[1..])
  }

  /** A theme outside the table leaves the whole scored list to the sort. */
  lemma UnfilteredRank(cs: seq<College>, w: Weights, theme: string)
    requires theme !in ThemeTable
    ensures Rank(cs, w, theme) == SortByScore(ScoreAll(cs, w))
  {
    RankIsSortedSelection(cs, w, theme);
    UnfilteredThemeKeepsAll(theme, cs);
  }

  /** The scores under weights 10, 1, 1, in dataset order. */
  lemma GEWeightScores()
    ensures |ScoreAll(CollegeData, Weights(10, 1, 1))| == 8
    ensures ScoreAll(CollegeData, Weights(10, 1, 1))[0].totalScore == 14
    ensures ScoreAll(CollegeData, Weights(10, 1, 1))[1].totalScore == 45
    ensures ScoreAll(CollegeData, Weights(10, 1, 1))[2].totalScore == 24
    ensures ScoreAll(CollegeData, Weights(10, 1, 1))[3].totalScore == 46
    ensures ScoreAll(CollegeData, Weights(10, 1, 1))[4].totalScore == 24
    ensures ScoreAll(CollegeData, Weights(10, 1, 1))[5].totalScore == 40
    ensures ScoreAll(CollegeData, Weights(10, 1, 1))[6].totalScore == 39
    ensures ScoreAll(CollegeData, Weights(10, 1, 1))[7].totalScore == 37
  {
  }

  /** The last four steps of the sort under weights 10, 1, 1. */
  lemma GEWeightSortTail(s: seq<ScoredCollege>)
    requires |s| == 8
    requires s[4].totalScore == 24 && s[5].totalScore == 40
    requires s[6].totalScore == 39 && s[7].totalScore == 37
    ensures SortByScore(s[4..]) == [s[5], s[6], s[7], s[4]]
  {
    assert s[8..] == [];
    SortByScoreStep(s, 7, [], 0);
    SortByScoreStep(s, 6, [s[7]], 0);
    SortByScoreStep(s, 5, [s[6], s[7]], 0);
    SortByScoreStep(s, 4, [s[5], s[6], s[7]], 3);
  }

  /** The sort under weights 10, 1, 1 of the last six entries. */
  lemma GEWeightSortMiddle(s: seq<ScoredCollege>)
    requires |s| == 8
    requires s[2].totalScore == 24 && s[3].totalScore == 46
    requires s[4].totalScore == 24 && s[5].totalScore == 40
    requires s[6].totalScore == 39 && s[7].totalScore == 37
    ensures SortByScore(s[2..]) == [s[3], s[5], s[6], s[7], s[2], s[4]]
  {
    GEWeightSortTail(s);
    SortByScoreStep(s, 3, [s[5], s[6], s[7], s[4]], 0);
    SortByScoreStep(s, 2, [s[3], s[5], s[6], s[7], s[4]], 4);
  }

  /** The sort under weights 10, 1, 1, one insertion at a time. */
  lemma GEWeightSort(s: seq<ScoredCollege>)
    requires |s| == 8
    requires s[0].totalScore == 14 && s[1].totalScore == 45
    requires s[2].totalScore == 24 && s[3].totalScore == 46
    requires s[4].totalScore == 24 && s[5].totalScore == 40
    requires s[6].totalScore == 39 && s[7].totalScore == 37
    ensures SortByScore(s) == [s[3], s[1], s[5], s[6], s[7], s[2], s[4], s[0]]
  {
    GEWeightSortMiddle(s);
    SortByScoreStep(s, 1, [s[3], s[5], s[6], s[7], s[2], s[4]], 1);
    SortByScoreStep(s, 0, [s[3], s[1], s[5], s[6], s[7], s[2], s[4]], 7);
    assert s[0..] == s;
  }

  /** The ranking under weights 10, 1, 1 with `"All"`, by dataset position. */
  lemma GEWeightRanking()
    ensures var s := ScoreAll(CollegeData, Weights(10, 1, 1));
            RankedColleges(Weights(10, 1, 1), "All") == [s[3], s[1], s[5], s[6], s[7], s[2], s[4], s[0]]
  {
    assert "All" !in ThemeTable;
    UnfilteredRank(CollegeData, Weights(10, 1, 1), "All");
    GEWeightScores();
    GEWeightSort(ScoreAll(CollegeData, Weights(10, 1, 1)));
  }

  /** The names of an eight-entry ranking, entry by entry. */
  lemma RankedNamesOfEight(a: ScoredCollege, b: ScoredCollege, c: ScoredCollege, d: ScoredCollege,
                           e: ScoredCollege, f: ScoredCollege, g: ScoredCollege, h: ScoredCollege)
    ensures RankedNames([a, b, c, d, e, f, g, h])
              == [a.name, b.name, c.name, d.name, e.name, f.name, g.name, h.name]
  {
  }

  /** Scoring copies each college's name into its scored entry. */
  lemma ScoreAllKeepsNames(cs: seq<College>, w: Weights)
    ensures forall i :: 0 <= i < |cs| ==> ScoreAll(cs, w)[i].name == cs[i].name
  {
  }

  /**
   * When the GE weight dominates, the two colleges with the most flexible
   * GEs lead; Thurgood Marshall and Eleanor Roosevelt tie at 24 points and
   * keep their dataset order.
   */
  lemma GEWeightExample()
    ensures RankedNames(RankedColleges(Weights(10, 1, 1), "All")) == [
              "Earl Warren College", "John Muir College", "Sixth College",
              "Seventh College", "Eighth College", "Thurgood Marshall College",
              "Eleanor Roosevelt College", "Revelle College"]
  {
    var s := ScoreAll(CollegeData, Weights(10, 1, 1));
    GEWeightRanking();
    RankedNamesOfEight(s[3], s[1], s[5], s[6], s[7], s[2], s[4], s[0]);
    CollegeDataNames();
    ScoreAllKeepsNames(CollegeData, Weights(10, 1, 1));
  }

  /** The scores under weights 1, 10, 1, in dataset order. */
  lemma HousingWeightScores()
    ensures |ScoreAll(CollegeData, Weights(1, 10, 1))| == 8
    ensures ScoreAll(CollegeData, Weights(1, 10, 1))[0].totalScore == 14
    ensures ScoreAll(CollegeData, Weights(1, 10, 1))[1].totalScore == 18
    ensures ScoreAll(CollegeData, Weights(1, 10, 1))[2].totalScore == 24
    ensures ScoreAll(CollegeData, Weights(1, 10, 1))[3].totalScore == 37
    ensures ScoreAll(CollegeData, Weights(1, 10, 1))[4].totalScore == 33
    ensures ScoreAll(CollegeData, Weights(1, 10, 1))[5].totalScore == 58
    ensures ScoreAll(CollegeData, Weights(1, 10, 1))[6].totalScore == 57
    ensures ScoreAll(CollegeData, Weights(1, 10, 1))[7].totalScore == 55
  {
  }

  /** The last four steps of the sort under weights 1, 10, 1. */
  lemma HousingWeightSortTail(s: seq<ScoredCollege>)
    requires |s| == 8
    requires s[4].totalScore == 33 && s[5].totalScore == 58
    requires s[6].totalScore == 57 && s[7].totalScore == 55
    ensures SortByScore(s[4..]) == [s[5], s[6], s[7], s[4]]
  {
    assert s[8..] == [];
    SortByScoreStep(s, 7, [], 0);
    SortByScoreStep(s, 6, [s[7]], 0);
    SortByScoreStep(s, 5, [s[6], s[7]], 0);
    SortByScoreStep(s, 4, [s[5], s[6], s[7]], 3);
  }

  /** The sort under weights 1, 10, 1 of the last six entries. */
  lemma HousingWeightSortMiddle(s: seq<ScoredCollege>)
    requires |s| == 8
    requires s[2].totalScore == 24 && s[3].totalScore == 37
    requires s[4].totalScore == 33 && s[5].totalScore == 58
    requires s[6].totalScore == 57 && s[7].totalScore == 55
    ensures SortByScore(s[2..]) == [s[5], s[6], s[7], s[3], s[4], s[2]]
  {
    HousingWeightSortTail(s);
    SortByScoreStep(s, 3, [s[5], s[6], s[7], s[4]], 3);
    SortByScoreStep(s, 2, [s[5], s[6], s[7], s[3], s[4]], 5);
  }

  /** The sort under weights 1, 10, 1, one insertion at a time. */
  lemma HousingWeightSort(s: seq<ScoredCollege>)
    requires |s| == 8
    requires s[0].totalScore == 14 && s[1].totalScore == 18
    requires s[2].totalScore == 24 && s[3].totalScore == 37
    requires s[4].totalScore == 33 && s[5].totalScore == 58
    requires s[6].totalScore == 57 && s[7].totalScore == 55
    ensures SortByScore(s) == [s[5], s[6], s[7], s[3], s[4], s[2], s[1], s[0]]
  {
    HousingWeightSortMiddle(s);
    SortByScoreStep(s, 1, [s[5], s[6], s[7], s[3], s[4], s[2]], 6);
    SortByScoreStep(s, 0, [s[5], s[6], s[7], s[3], s[4], s[2], s[1]], 7);
    assert s[0..] == s;
  }

  /** The ranking under weights 1, 10, 1 with `"All"`, by dataset position. */
  lemma HousingWeightRanking()
    ensures var s := ScoreAll(CollegeData, Weights(1, 10, 1));
            RankedColleges(Weights(1, 10, 1), "All") == [s[5], s[6], s[7], s[3], s[4], s[2], s[1], s[0]]
  {
    assert "All" !in ThemeTable;
    UnfilteredRank(CollegeData, Weights(1, 10, 1), "All");
    HousingWeightScores();
    HousingWeightSort(ScoreAll(CollegeData, Weights(1, 10, 1)));
  }

  /**
   * When the housing weight dominates, the three colleges with the newest
   * housing take the first three ranks, ordered by their centrality.
   */
  lemma HousingWeightExample()
    ensures RankedNames(RankedColleges(Weights(1, 10, 1), "All")) == [
              "Sixth College", "Seventh College", "Eighth College",
              "Earl Warren College", "Eleanor Roosevelt College", "Thurgood Marshall College",
              "John Muir College", "Revelle College"]
  {
    var s := ScoreAll(CollegeData, Weights(1, 10, 1));
    HousingWeightRanking();
    RankedNamesOfEight(s[5], s[6], s[7], s[3], s[4], s[2], s[1], s[0]);
    CollegeDataNames();
    ScoreAllKeepsNames(CollegeData, Weights(1, 10, 1));
  }
}
