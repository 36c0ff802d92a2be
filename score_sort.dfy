/**
 * Step 3 of the ranking: `.sort((a, b) => b.totalScore - a.totalScore)`.
 * The language requires `Array.prototype.sort` to be stable (ECMAScript
 * 2019, section 22.1.3.27), so entries with equal scores keep the order they
 * had. The sort is modelled as a stable insertion sort, and it is proved to
 * be the only order that is both sorted under the comparator and stable.
 */
module ScoreSort {
  import opened Scoring

  /**
   * The comparator: negative when `a` must come first (higher score),
   * positive when `b` must, zero on a tie.
   */
  function Compare(a: ScoredCollege, b: ScoredCollege): (d: int)
    ensures d < 0 <==> a.totalScore > b.totalScore
    ensures d == 0 <==> a.totalScore == b.totalScore
  {
    b.totalScore - a.totalScore
  }

  /**
   * No pair is out of order under the comparator (`Compare(s[i], s[j]) <= 0`
   * for `i < j`): scores never increase along the list.
   */
  predicate SortedByScore(s: seq<ScoredCollege>) {
    forall i, j :: 0 <= i < j < |s| ==> s[i].totalScore >= s[j].totalScore
  }

  /** The entries of `s` whose score is `k`, in their order in `s`. */
  function WithScore(s: seq<ScoredCollege>, k: int): (r: seq<ScoredCollege>)
    ensures forall x :: x in r <==> x in s && x.totalScore == k
  {
    if s == [] then []
    else if s[0].totalScore == k then [s[0]] + WithScore(s[1..], k)
    else WithScore(s[1..], k)
  }

  /**
   * A sort that is stable: every group of tied entries appears in the same
   * relative order in `r` as in `s`.
   */
  ghost predicate StableFor(s: seq<ScoredCollege>, r: seq<ScoredCollege>) {
    forall k :: WithScore(r, k) == WithScore(s, k)
  }

  /**
   * Puts `x` in front of the first entry that does not score more than it,
   * so `x` lands before the entries it ties with.
   */
  function Insert(x: ScoredCollege, s: seq<ScoredCollege>): seq<ScoredCollege> {
    if s == [] then [x]
    else if Compare(x, s[0]) <= 0 then [x] + s
    else [s[0]] + Insert(x, s[1..])
  }

  /** Insertion sort: each entry is inserted into the sorted rest. */
  function SortByScore(s: seq<ScoredCollege>): seq<ScoredCollege> {
    if s == [] then [] else Insert(s[0], SortByScore(s[1..]))
  }

  /** Inserting adds `x` once and keeps every other entry. */
  lemma {:induction false} InsertPermutes(x: ScoredCollege, s: seq<ScoredCollege>)
    ensures multiset(Insert(x, s)) == multiset(s) + multiset{x}
    ensures |Insert(x, s)| == |s| + 1
    ensures forall y :: y in Insert(x, s) <==> y in s || y == x
  {
    if s != [] && Compare(x, s[0]) > 0 {
      InsertPermutes(x, s[1..]);
      assert s == [s[0]] + s[1..];
    }
  }

  /**
   * `x` lands right after the entries that score strictly more than it:
   * if those are exactly the first `i` entries, `x` is inserted at `i`.
   */
  lemma {:induction false} InsertAt(x: ScoredCollege, s: seq<ScoredCollege>, i: nat)
    requires i <= |s|
    requires forall j :: 0 <= j < i ==> Compare(x, s[j]) > 0
    requires i < |s| ==> Compare(x, s[i]) <= 0
    ensures Insert(x, s) == s[..i] + [x] + s[i..]
  {
    if i == 0 {
      assert s[..0] + [x] + s[0..] == [x] + s;
    } else {
      assert Insert(x, s) == [s[0]] + Insert(x, s[1..]);
      InsertAt(x, s[1..], i - 1);
      SplitAfterHead(s, x, i);
    }
  }

  /** Sequence bookkeeping for `InsertAt`. */
  lemma SplitAfterHead(s: seq<ScoredCollege>, x: ScoredCollege, i: nat)
    requires 0 < i <= |s|
    ensures [s[0]] + (s[1..][..i - 1] + [x] + s[1..][i - 1..]) == s[..i] + [x] + s[i..]
  {
    assert s[1..][..i - 1] == s[1..i];
    assert s[1..][i - 1..] == s[i..];
    assert s[..i] == [s[0]] + s[1..i];
  }

  /** A list stays sorted when an entry scoring at least as much as all of it goes in front. */
  lemma ConsSorted(h: ScoredCollege, t: seq<ScoredCollege>)
    requires SortedByScore(t)
    requires forall y :: y in t ==> h.totalScore >= y.totalScore
    ensures SortedByScore([h] + t)
  {
    forall i, j | 0 <= i < j < |[h] + t|
      ensures ([h] + t)[i].totalScore >= ([h] + t)[j].totalScore
    {
      assert ([h] + t)[j] == t[j - 1];
      if i > 0 {
        assert ([h] + t)[i] == t[i - 1];
      } else {
        assert t[j - 1] in t;
      }
    }
  }

  /** Inserting into a sorted list keeps it sorted. */
  lemma {:induction false} InsertSorted(x: ScoredCollege, s: seq<ScoredCollege>)
    requires SortedByScore(s)
    ensures SortedByScore(Insert(x, s))
  {
    if s == [] {
    } else if Compare(x, s[0]) <= 0 {
      forall y | y in s ensures x.totalScore >= y.totalScore {
        var i :| 0 <= i < |s| && s[i] == y;
      }
      ConsSorted(x, s);
    } else {
      var rest := Insert(x, s[1..]);
      InsertSorted(x, s[1..]);
      InsertPermutes(x, s[1..]);
      forall y | y in rest ensures s[0].totalScore >= y.totalScore {
        if y != x {
          var i :| 0 <= i < |s[1..]| && s[1..][i] == y;
          assert s[i + 1] == y;
        }
      }
      ConsSorted(s[0], rest);
    }
  }

  /** The sort returns a permutation of its input: nothing lost, nothing added. */
  lemma {:induction false} SortByScorePermutes(s: seq<ScoredCollege>)
    ensures multiset(SortByScore(s)) == multiset(s)
    ensures |SortByScore(s)| == |s|
  {
    if s != [] {
      SortByScorePermutes(s[1..]);
      InsertPermutes(s[0], SortByScore(s[1..]));
      assert multiset(s) == multiset(s[1..]) + multiset{s[0]} by {
        assert s == [s[0]] + s[1..];
      }
    }
  }

  /** The sort's result never increases in score. */
  lemma {:induction false} SortByScoreSorted(s: seq<ScoredCollege>)
    ensures SortedByScore(SortByScore(s))
  {
    if s != [] {
      SortByScoreSorted(s[1..]);
      InsertSorted(s[0], SortByScore(s[1..]));
    }
  }

  /** In a sorted list, an entry with a strictly higher score comes first. */
  lemma SortedHigherFirst(r: seq<ScoredCollege>, i: nat, j: nat)
    requires SortedByScore(r) && i < |r| && j < |r| && r[i].totalScore > r[j].totalScore
    ensures i < j
  {
  }

  /**
   * One step of the sort, for a list whose sorted tail is known: the head
   * is inserted after the `pos` entries that score more than it.
   */
  lemma SortByScoreStep(s: seq<ScoredCollege>, k: nat, t: seq<ScoredCollege>, pos: nat)
    requires k < |s| && SortByScore(s[k + 1..]) == t && pos <= |t|
    requires forall j :: 0 <= j < pos ==> Compare(s[k], t[j]) > 0
    requires pos < |t| ==> Compare(s[k], t[pos]) <= 0
    ensures SortByScore(s[k..]) == t[..pos] + [s[k]] + t[pos..]
  {
    assert s[k..][1..] == s[k + 1..];
    InsertAt(s[k], t, pos);
  }

  /**
   * Inserting `x` adds it at the head of its own tie group and leaves every
   * tie group intact: every entry it passes scores strictly more.
   */
  lemma {:induction false} InsertKeepsTies(x: ScoredCollege, s: seq<ScoredCollege>, k: int)
    ensures WithScore(Insert(x, s), k)
              == if x.totalScore == k then [x] + WithScore(s, k) else WithScore(s, k)
  {
    if s == [] {
    } else if Compare(x, s[0]) <= 0 {
      assert ([x] + s)[1..] == s;
    } else {
      InsertKeepsTies(x, s[1..], k);
      assert ([s[0]] + Insert(x, s[1..]))[1..] == Insert(x, s[1..]);
    }
  }

  /** The insertion sort is stable. */
  lemma {:induction false} SortByScoreStable(s: seq<ScoredCollege>, k: int)
    ensures WithScore(SortByScore(s), k) == WithScore(s, k)
  {
    if s != [] {
      SortByScoreStable(s[1..], k);
      InsertKeepsTies(s[0], SortByScore(s[1..]), k);
    }
  }

  /** No entry occurs twice. */
  predicate Distinct(s: seq<ScoredCollege>) {
    forall i, j :: 0 <= i < j < |s| ==> s[i] != s[j]
  }

  /** A tie group of a list without repeated entries has none either. */
  lemma {:induction false} WithScoreDistinct(s: seq<ScoredCollege>, k: int)
    requires Distinct(s)
    ensures Distinct(WithScore(s, k))
  {
    if s != [] {
      assert Distinct(s[1..]);
      WithScoreDistinct(s[1..], k);
      assert s[0] !in s[1..] by {
        forall j | 0 <= j < |s[1..]| ensures s[1..][j] != s[0] {
          assert s[1..][j] == s[j + 1];
        }
      }
    }
  }

  /** The tie group of a concatenation is the groups of the parts, in order. */
  lemma {:induction false} WithScoreAppend(xs: seq<ScoredCollege>, ys: seq<ScoredCollege>, k: int)
    ensures WithScore(xs + ys, k) == WithScore(xs, k) + WithScore(ys, k)
  {
    if xs == [] {
      assert xs + ys == ys;
    } else {
      var zs := xs + ys;
      assert zs[0] == xs[0] && zs[1..] == xs[1..] + ys;
      WithScoreAppend(xs[1..], ys, k);
      if xs[0].totalScore == k {
        var a, b := WithScore(xs[1..], k), WithScore(ys, k);
        assert [xs[0]] + (a + b) == ([xs[0]] + a) + b;
      }
    }
  }

  /**
   * A tie group keeps the order of the list: two entries scoring `k` at
   * positions `i < j` appear at positions `a < b` of the group.
   */
  lemma WithScoreKeepsOrder(s: seq<ScoredCollege>, k: int, i: nat, j: nat)
    requires i < j < |s| && s[i].totalScore == k && s[j].totalScore == k
    ensures exists a, b :: 0 <= a < b < |WithScore(s, k)|
              && WithScore(s, k)[a] == s[i] && WithScore(s, k)[b] == s[j]
  {
    var before, after := WithScore(s[..j], k), WithScore(s[j..], k);
    assert s[..j] + s[j..] == s;
    WithScoreAppend(s[..j], s[j..], k);
    assert s[i] in s[..j];
    var a :| 0 <= a < |before| && before[a] == s[i];
    assert after[0] == s[j] by {
      assert s[j..][0] == s[j];
    }
    assert (before + after)[a] == s[i] && (before + after)[|before|] == s[j];
  }

  /**
   * If `r` has the tie groups of a list `s` without repeated entries, two
   * tied entries of `s` at positions `i < j` sit at positions `p < q` of `r`.
   */
  lemma TiedEntriesKeepOrder(s: seq<ScoredCollege>, r: seq<ScoredCollege>, i: nat, j: nat, p: nat, q: nat)
    requires Distinct(s) && i < j < |s| && s[i].totalScore == s[j].totalScore
    requires WithScore(r, s[i].totalScore) == WithScore(s, s[i].totalScore)
    requires p < |r| && q < |r| && r[p] == s[i] && r[q] == s[j]
    ensures p < q
  {
    var k := s[i].totalScore;
    var g := WithScore(s, k);
    WithScoreDistinct(s, k);
    WithScoreKeepsOrder(s, k, i, j);
    var a, b :| 0 <= a < b < |g| && g[a] == s[i] && g[b] == s[j];
    if q < p {
      WithScoreKeepsOrder(r, k, q, p);
      assert false;
    }
  }

  /**
   * Stability by position: two tied entries of a list without repeated
   * entries keep their relative order in the sorted list.
   */
  lemma SortByScoreKeepsTieOrder(s: seq<ScoredCollege>, i: nat, j: nat, p: nat, q: nat)
    requires Distinct(s) && i < j < |s| && s[i].totalScore == s[j].totalScore
    requires p < |SortByScore(s)| && q < |SortByScore(s)|
    requires SortByScore(s)[p] == s[i] && SortByScore(s)[q] == s[j]
    ensures p < q
  {
    SortByScoreStable(s, s[i].totalScore);
    TiedEntriesKeepOrder(s, SortByScore(s), i, j, p, q);
  }

  /** The tie group of the first entry of a sorted list starts with that entry. */
  lemma HeadLeadsItsGroup(r: seq<ScoredCollege>)
    requires r != []
    ensures WithScore(r, r[0].totalScore) == [r[0]] + WithScore(r[1..], r[0].totalScore)
    ensures WithScore(r, r[0].totalScore) != []
  {
  }

  /** Removing the head of a list changes only the head's tie group. */
  lemma TailGroups(r: seq<ScoredCollege>, k: int)
    requires r != []
    ensures k != r[0].totalScore ==> WithScore(r[1..], k) == WithScore(r, k)
    ensures k == r[0].totalScore ==> WithScore(r[1..], k) == WithScore(r, k)[1..]
  {
  }

  /** The head of a sorted list scores at least as much as any entry. */
  lemma HeadIsMax(r: seq<ScoredCollege>, y: ScoredCollege)
    requires SortedByScore(r) && y in r
    ensures r[0].totalScore >= y.totalScore
  {
    var i :| 0 <= i < |r| && r[i] == y;
  }

  /**
   * Lists sorted by score that have the same tie groups start with the
   * same entry.
   */
  lemma SameGroupsSameHead(r1: seq<ScoredCollege>, r2: seq<ScoredCollege>)
    requires SortedByScore(r1) && SortedByScore(r2)
    requires r1 != [] && r2 != []
    requires WithScore(r1, r1[0].totalScore) == WithScore(r2, r1[0].totalScore)
    requires WithScore(r1, r2[0].totalScore) == WithScore(r2, r2[0].totalScore)
    ensures r1[0] == r2[0]
  {
    var m1, m2 := r1[0].totalScore, r2[0].totalScore;
    HeadLeadsItsGroup(r1);
    HeadLeadsItsGroup(r2);
    assert r2[0] in r1 by {
      assert r2[0] in WithScore(r1, m2);
    }
    HeadIsMax(r1, r2[0]);
    assert r1[0] in r2 by {
      assert r1[0] in WithScore(r2, m1);
    }
    HeadIsMax(r2, r1[0]);
    assert m1 == m2;
    assert WithScore(r1, m1)[0] == r1[0];
    assert WithScore(r2, m1)[0] == r2[0];
  }

  /** Lists with the same head and the same tie groups have tails with the same tie groups. */
  lemma SameTailGroups(r1: seq<ScoredCollege>, r2: seq<ScoredCollege>)
    requires r1 != [] && r2 != [] && r1[0] == r2[0]
    requires forall k :: WithScore(r1, k) == WithScore(r2, k)
    ensures forall k :: WithScore(r1[1..], k) == WithScore(r2[1..], k)
  {
    forall k ensures WithScore(r1[1..], k) == WithScore(r2[1..], k) {
      TailGroups(r1, k);
      TailGroups(r2, k);
    }
  }

  /**
   * Two lists sorted by score with the same tie groups are equal: the tie
   * groups of a sorted list determine it.
   */
  lemma {:induction false} SortedGroupsDetermine(r1: seq<ScoredCollege>, r2: seq<ScoredCollege>)
    requires SortedByScore(r1) && SortedByScore(r2)
    requires forall k :: WithScore(r1, k) == WithScore(r2, k)
    ensures r1 == r2
  {
    if r1 == [] && r2 != [] {
      HeadLeadsItsGroup(r2);
    } else if r1 != [] && r2 == [] {
      HeadLeadsItsGroup(r1);
    } else if r1 != [] && r2 != [] {
      SameGroupsSameHead(r1, r2);
      SameTailGroups(r1, r2);
      SortedGroupsDetermine(r1[1..], r2[1..]);
      assert r1 == [r1[0]] + r1[1..];
      assert r2 == [r2[0]] + r2[1..];
    }
  }

  /**
   * A list is what `SortByScore(s)` returns exactly when it is sorted
   * under the comparator and keeps every tie group of `s` in order: any
   * stable sort with this comparator gives the same array.
   */
  lemma StableSortIsUnique(s: seq<ScoredCollege>, r: seq<ScoredCollege>)
    ensures r == SortByScore(s) <==> SortedByScore(r) && StableFor(s, r)
  {
    forall k ensures WithScore(SortByScore(s), k) == WithScore(s, k) {
      SortByScoreStable(s, k);
    }
    SortByScoreSorted(s);
    if SortedByScore(r) && StableFor(s, r) {
      SortedGroupsDetermine(r, SortByScore(s));
    }
  }
}
