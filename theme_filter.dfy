/**
 * Step 2 of the ranking: the theme filter. A named theme keeps only the
 * colleges listed for it, by name; `"All"` and any theme the chain of tests
 * does not recognise keep every college.
 */
module ThemeFilter {
  import opened Colleges
  import opened Scoring

  /** The choices of the theme drop-down, `"All"` first. */
  const Themes: seq<string> := [
    "All", "Academically Focused", "Global/International", "Flexible/Less GE",
    "Modern/Innovative", "Social Justice/Community"
  ]

  /**
   * The membership table, theme name to the names it selects: an
   * independent statement of the filter, against which `KeepForTheme` is
   * proved.
   */
  const ThemeTable: map<string, set<string>> := map[
    "Academically Focused" := {"Revelle College"},
    "Global/International" := {"Eleanor Roosevelt College"},
    "Flexible/Less GE" := {"John Muir College", "Earl Warren College"},
    "Modern/Innovative" := {"Sixth College", "Seventh College"},
    "Social Justice/Community" := {"Thurgood Marshall College", "Eighth College"}
  ]

  /**
   * The filter's callback, test by test as the page writes it. A college is
   * kept exactly when the theme has no entry in the table (this covers
   * `"All"`) or the table lists the college's name under it.
   */
  function KeepForTheme(theme: string, name: string): (keep: bool)
    ensures theme == "All" ==> keep
    ensures keep <==> theme !in ThemeTable || name in ThemeTable[theme]
  {
    if theme == "All" then true
    else if theme == "Academically Focused" then name == "Revelle College"
    else if theme == "Global/International" then name == "Eleanor Roosevelt College"
    else if theme == "Flexible/Less GE" then
      name == "John Muir College" || name == "Earl Warren College"
    else if theme == "Modern/Innovative" then
      name == "Sixth College" || name == "Seventh College"
    else if theme == "Social Justice/Community" then
      name == "Thurgood Marshall College" || name == "Eighth College"
    else true
  }

  /** The drop-down offers `"All"` and exactly the themes of the table. */
  lemma ThemesMatchTable()
    ensures Themes[0] == "All" && "All" !in ThemeTable
    ensures forall t :: t in Themes && t != "All" <==> t in ThemeTable
  {
  }

  /** The `.filter` over scored colleges, keeping their order. */
  function FilterByTheme(theme: string, xs: seq<ScoredCollege>): (r: seq<ScoredCollege>)
    ensures |r| <= |xs|
  {
    if xs == [] then []
    else if KeepForTheme(theme, xs[0].name) then [xs[0]] + FilterByTheme(theme, xs[1..])
    else FilterByTheme(theme, xs[1..])
  }

  /** The same filter on unscored colleges: the colleges a theme selects. */
  function KeptColleges(theme: string, cs: seq<College>): (r: seq<College>)
    ensures |r| <= |cs|
    ensures forall c :: c in r <==> c in cs && KeepForTheme(theme, c.name)
  {
    if cs == [] then []
    else if KeepForTheme(theme, cs[0].name) then [cs[0]] + KeptColleges(theme, cs[1..])
    else KeptColleges(theme, cs[1..])
  }

  /** The filter keeps exactly the entries the theme test accepts. */
  lemma {:induction false} FilterByThemeMembers(theme: string, xs: seq<ScoredCollege>)
    ensures forall x :: x in FilterByTheme(theme, xs) <==> x in xs && KeepForTheme(theme, x.name)
  {
    if xs != [] {
      FilterByThemeMembers(theme, xs[1..]);
      assert xs == [xs[0]] + xs[1..];
    }
  }

  /**
   * The filter keeps every copy of an entry the theme test accepts and no
   * copy of one it rejects.
   */
  lemma {:induction false} FilterByThemeCounts(theme: string, xs: seq<ScoredCollege>)
    ensures forall x :: multiset(FilterByTheme(theme, xs))[x]
              == if KeepForTheme(theme, x.name) then multiset(xs)[x] else 0
  {
    if xs != [] {
      FilterByThemeCounts(theme, xs[1..]);
      assert xs == [xs[0]] + xs[1..];
    }
  }

  /** The same counts for the filter on unscored colleges. */
  lemma {:induction false} KeptCollegesCounts(theme: string, cs: seq<College>)
    ensures forall c :: multiset(KeptColleges(theme, cs))[c]
              == if KeepForTheme(theme, c.name) then multiset(cs)[c] else 0
  {
    if cs != [] {
      KeptCollegesCounts(theme, cs[1..]);
      assert cs == [cs[0]] + cs[1..];
    }
  }

  /** Filtering a concatenation filters each part and keeps them in order. */
  lemma {:induction false} FilterByThemeAppend(theme: string, xs: seq<ScoredCollege>, ys: seq<ScoredCollege>)
    ensures FilterByTheme(theme, xs + ys) == FilterByTheme(theme, xs) + FilterByTheme(theme, ys)
  {
    if xs == [] {
      assert xs + ys == ys;
    } else {
      var zs := xs + ys;
      assert zs[0] == xs[0] && zs[1..] == xs[1..] + ys;
      FilterByThemeAppend(theme, xs[1..], ys);
      if KeepForTheme(theme, xs[0].name) {
        assert FilterByTheme(theme, zs) == [xs[0]] + FilterByTheme(theme, xs[1..] + ys);
        assert FilterByTheme(theme, xs) == [xs[0]] + FilterByTheme(theme, xs[1..]);
        var a, b := FilterByTheme(theme, xs[1..]), FilterByTheme(theme, ys);
        assert [xs[0]] + (a + b) == ([xs[0]] + a) + b;
      } else {
        assert FilterByTheme(theme, zs) == FilterByTheme(theme, xs[1..] + ys);
        assert FilterByTheme(theme, xs) == FilterByTheme(theme, xs[1..]);
      }
    }
  }

  /**
   * The filter keeps the input order: two accepted entries at positions
   * `i < j` of the input appear at positions `a < b` of the result.
   */
  lemma FilterByThemeKeepsOrder(theme: string, xs: seq<ScoredCollege>, i: nat, j: nat)
    requires i < j < |xs|
    requires KeepForTheme(theme, xs[i].name) && KeepForTheme(theme, xs[j].name)
    ensures exists a, b :: 0 <= a < b < |FilterByTheme(theme, xs)|
              && FilterByTheme(theme, xs)[a] == xs[i] && FilterByTheme(theme, xs)[b] == xs[j]
  {
    var before, after := FilterByTheme(theme, xs[..j]), FilterByTheme(theme, xs[j..]);
    assert xs[..j] + xs[j..] == xs;
    FilterByThemeAppend(theme, xs[..j], xs[j..]);
    FilterByThemeMembers(theme, xs[..j]);
    assert xs[i] in xs[..j];
    var a :| 0 <= a < |before| && before[a] == xs[i];
    assert after[0] == xs[j] by {
      assert xs[j..][0] == xs[j];
    }
    assert (before + after)[a] == xs[i] && (before + after)[|before|] == xs[j];
  }

  /**
   * Filtering the scored list is scoring the filtered list: the filter
   * looks only at the name, which scoring copies unchanged.
   */
  lemma {:induction false} FilterCommutesWithScoring(theme: string, cs: seq<College>, w: Weights)
    ensures FilterByTheme(theme, ScoreAll(cs, w)) == ScoreAll(KeptColleges(theme, cs), w)
  {
    if cs != [] {
      FilterCommutesWithScoring(theme, cs[1..], w);
      assert ScoreAll(cs, w) == [ScoreCollege(cs[0], w)] + ScoreAll(cs[1..], w);
      assert ScoreAll(cs, w)[1..] == ScoreAll(cs[1..], w);
    }
  }

  /** Filtering keeps a list without duplicate names free of them. */
  lemma {:induction false} KeptCollegesNamesUnique(theme: string, cs: seq<College>)
    requires NamesUnique(cs)
    ensures NamesUnique(KeptColleges(theme, cs))
  {
    if cs != [] {
      KeptCollegesNamesUnique(theme, cs[1..]);
      var rest := KeptColleges(theme, cs[1..]);
      forall c | c in rest ensures c.name != cs[0].name {
        var j :| 0 <= j < |cs[1..]| && cs[1..][j] == c;
        assert cs[j + 1] == c;
      }
    }
  }

  /** `"All"`, and every theme outside the table, keeps every college in order. */
  lemma {:induction false} UnfilteredThemeKeepsAll(theme: string, cs: seq<College>)
    requires theme !in ThemeTable
    ensures KeptColleges(theme, cs) == cs
  {
    if cs != [] {
      UnfilteredThemeKeepsAll(theme, cs[1..]);
    }
  }

  /** The names of a list of colleges. */
  function Names(cs: seq<College>): set<string> {
    set c | c in cs :: c.name
  }

  /** The names of a non-empty list: the head's name and the tail's names. */
  lemma NamesCons(cs: seq<College>)
    requires cs != []
    ensures Names(cs) == {cs[0].name} + Names(cs[1..])
  {
    assert cs == [cs[0]] + cs[1..];
  }

  /** A name that occurs only at the head of a list is not a name of its tail. */
  lemma HeadNameNotInTail(cs: seq<College>)
    requires cs != [] && NamesUnique(cs)
    ensures cs[0].name !in Names(cs[1..])
  {
    forall c | c in cs[1..] ensures c.name != cs[0].name {
      var j :| 0 <= j < |cs[1..]| && cs[1..][j] == c;
      assert cs[j + 1] == c;
    }
  }

  /** A list without duplicate names has as many names as entries. */
  lemma {:induction false} NamesCount(cs: seq<College>)
    requires NamesUnique(cs)
    ensures |Names(cs)| == |cs|
  {
    if cs != [] {
      assert NamesUnique(cs[1..]);
      NamesCount(cs[1..]);
      NamesCons(cs);
      HeadNameNotInTail(cs);
    }
  }

  /** Every name the table lists is the name of a college in the dataset. */
  lemma ThemeTableNamesExist()
    ensures forall t :: t in ThemeTable ==> ThemeTable[t] <= Names(CollegeData)
  {
    forall t, n | t in ThemeTable && n in ThemeTable[t] ensures n in Names(CollegeData) {
      var i := if n == "Revelle College" then 0
        else if n == "John Muir College" then 1
        else if n == "Thurgood Marshall College" then 2
        else if n == "Earl Warren College" then 3
        else if n == "Eleanor Roosevelt College" then 4
        else if n == "Sixth College" then 5
        else if n == "Seventh College" then 6
        else 7;
      assert CollegeData[i].name == n;
      assert CollegeData[i] in CollegeData;
    }
  }

  /**
   * In a uniquely named list that holds every name a theme lists, the theme
   * selects exactly those names, one entry each.
   */
  lemma SelectsExactly(theme: string, cs: seq<College>)
    requires theme in ThemeTable && ThemeTable[theme] <= Names(cs) && NamesUnique(cs)
    ensures Names(KeptColleges(theme, cs)) == ThemeTable[theme]
    ensures |KeptColleges(theme, cs)| == |ThemeTable[theme]|
  {
    var kept := KeptColleges(theme, cs);
    forall n | n in ThemeTable[theme] ensures n in Names(kept) {
      var c :| c in cs && c.name == n;
      assert c in kept;
    }
    KeptCollegesNamesUnique(theme, cs);
    NamesCount(kept);
  }

  /**
   * Each named theme selects exactly the colleges the table lists for it,
   * one entry per listed name.
   */
  lemma NamedThemeSelectsExactly(theme: string)
    requires theme in ThemeTable
    ensures Names(KeptColleges(theme, CollegeData)) == ThemeTable[theme]
    ensures |KeptColleges(theme, CollegeData)| == |ThemeTable[theme]|
  {
    ThemeTableNamesExist();
    CollegeDataWellFormed();
    SelectsExactly(theme, CollegeData);
  }
}
