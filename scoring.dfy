/**
 * Step 1 of the ranking: every college gets a weighted-sum score from the
 * three slider weights, and is extended with `totalScore`, `displayScore`
 * and `inverseGEScore` while its own fields are copied over unchanged.
 */
module Scoring {
  import opened Colleges

  /** The three slider values: GE rigor, housing and centrality weights. */
  datatype Weights = Weights(geRigor: int, housing: int, centrality: int)

  /** The range the sliders allow (`min="1"`, `max="10"`). */
  predicate ValidWeights(w: Weights) {
    1 <= w.geRigor <= 10 && 1 <= w.housing <= 10 && 1 <= w.centrality <= 10
  }

  /** The `displayScore` object: the weights in force and the score. */
  datatype DisplayScore = DisplayScore(
    geRigorWeight: int,
    housingWeight: int,
    centralityWeight: int,
    score: int)

  /**
   * A college after `{ ...college, totalScore, displayScore, inverseGEScore }`:
   * every field of the original record followed by the three added ones.
   */
  datatype ScoredCollege = ScoredCollege(
    name: string,
    theme: string,
    geRigor: int,
    housingModernity: int,
    centrality: int,
    vibe: string,
    totalScore: int,
    displayScore: DisplayScore,
    inverseGEScore: int)
  {
    /** The original record's fields, with the added ones dropped. */
    function Base(): College {
      College(name, theme, geRigor, housingModernity, centrality, vibe)
    }
  }

  /**
   * The inverted GE rigor: the easiest GEs (1) give 5 and the hardest (5)
   * give 1, and the inversion keeps the value on the 1..5 scale.
   */
  function InverseGE(geRigor: int): (r: int)
    ensures r + geRigor == 6
    ensures OnScale(geRigor) <==> OnScale(r)
  {
    6 - geRigor
  }

  /** Inverting twice gives back the rigor, and inversion reverses order. */
  lemma InverseGEInvolutiveAndAntitone(a: int, b: int)
    ensures InverseGE(InverseGE(a)) == a
    ensures a < b <==> InverseGE(b) < InverseGE(a)
  {
  }

  /** `a * b` for a value on the 1..5 scale and a weight in 1..10. */
  lemma ProductBounds(a: int, b: int)
    requires OnScale(a) && 1 <= b <= 10
    ensures b <= a * b <= 5 * b
    ensures 1 <= a * b <= 50
  {
  }

  /** Multiplying by a non-negative factor keeps the order of two values. */
  lemma ScaleMonotone(x: int, y: int, k: int)
    requires x >= y && k >= 0
    ensures x * k >= y * k
  {
  }

  /** The weighted sum of the inverted rigor and the two direct attributes. */
  function Score(c: College, w: Weights): int {
    var weightedGE := InverseGE(c.geRigor) * w.geRigor;
    var weightedHousing := c.housingModernity * w.housing;
    var weightedCentrality := c.centrality * w.centrality;
    weightedGE + weightedHousing + weightedCentrality
  }

  /**
   * With weights in 1..10 and attributes in 1..5 every term lies between
   * its weight and five times its weight, so the score lies in 3..150.
   */
  lemma ScoreBounds(c: College, w: Weights)
    requires ValidCollege(c) && ValidWeights(w)
    ensures w.geRigor + w.housing + w.centrality <= Score(c, w)
    ensures Score(c, w) <= 5 * (w.geRigor + w.housing + w.centrality)
    ensures 3 <= Score(c, w) <= 150
  {
    ProductBounds(InverseGE(c.geRigor), w.geRigor);
    ProductBounds(c.housingModernity, w.housing);
    ProductBounds(c.centrality, w.centrality);
  }

  /**
   * Raising one weight by `d` raises the score by exactly `d` times the
   * attribute that weight multiplies.
   */
  lemma ScoreWeightIncrement(c: College, w: Weights, d: int)
    ensures Score(c, w.(geRigor := w.geRigor + d)) == Score(c, w) + d * InverseGE(c.geRigor)
    ensures Score(c, w.(housing := w.housing + d)) == Score(c, w) + d * c.housingModernity
    ensures Score(c, w.(centrality := w.centrality + d)) == Score(c, w) + d * c.centrality
  {
  }

  /**
   * Raising the housing weight never lets a college with older housing
   * gain on one with newer housing: the lead of `a` over `b` grows by
   * `d` times the housing difference.
   */
  lemma HousingWeightWidensLead(a: College, b: College, w: Weights, d: nat)
    requires a.housingModernity >= b.housingModernity
    ensures Score(a, w.(housing := w.housing + d)) - Score(b, w.(housing := w.housing + d))
              >= Score(a, w) - Score(b, w)
  {
    ScoreWeightIncrement(a, w, d);
    ScoreWeightIncrement(b, w, d);
    ScaleMonotone(a.housingModernity, b.housingModernity, d);
  }

  /**
   * After the housing weight rises by `d`, a college with housing at least
   * as new still scores strictly more than one it led, and strictly more
   * than one it tied with if its housing is strictly newer and `d > 0`.
   */
  lemma HousingWeightKeepsLead(a: College, b: College, w: Weights, d: nat)
    requires a.housingModernity >= b.housingModernity
    requires Score(a, w) > Score(b, w)
             || (Score(a, w) == Score(b, w) && a.housingModernity > b.housingModernity && d > 0)
    ensures Score(a, w.(housing := w.housing + d)) > Score(b, w.(housing := w.housing + d))
  {
    ScoreWeightIncrement(a, w, d);
    ScoreWeightIncrement(b, w, d);
    if Score(a, w) > Score(b, w) {
      ScaleMonotone(a.housingModernity, b.housingModernity, d);
    } else {
      ScaleMonotone(a.housingModernity - b.housingModernity - 1, 0, d);
    }
  }

  /**
   * A college at least as good on every attribute (no harder GEs, no older
   * housing, no less central) scores at least as high under any weights
   * the sliders allow.
   */
  lemma DominanceImpliesScore(a: College, b: College, w: Weights)
    requires ValidWeights(w)
    requires a.geRigor <= b.geRigor
    requires a.housingModernity >= b.housingModernity
    requires a.centrality >= b.centrality
    ensures Score(a, w) >= Score(b, w)
  {
    ScaleMonotone(InverseGE(a.geRigor), InverseGE(b.geRigor), w.geRigor);
    ScaleMonotone(a.housingModernity, b.housingModernity, w.housing);
    ScaleMonotone(a.centrality, b.centrality, w.centrality);
  }

  /**
   * One step of the `.map`: the copy of `c` extended with the score, the
   * display object and the inverted rigor.
   */
  function ScoreCollege(c: College, w: Weights): (s: ScoredCollege)
    ensures s.Base() == c
    ensures s.totalScore == Score(c, w) && s.displayScore.score == s.totalScore
    ensures s.displayScore.geRigorWeight == w.geRigor
    ensures s.displayScore.housingWeight == w.housing
    ensures s.displayScore.centralityWeight == w.centrality
    ensures s.inverseGEScore + c.geRigor == 6
  {
    var inverseGEScore := InverseGE(c.geRigor);
    var totalScore := Score(c, w);
    ScoredCollege(c.name, c.theme, c.geRigor, c.housingModernity, c.centrality, c.vibe,
                  totalScore,
                  DisplayScore(w.geRigor, w.housing, w.centrality, totalScore),
                  inverseGEScore)
  }

  /** The `.map` over a list of colleges: one scored entry per college, in order. */
  function ScoreAll(cs: seq<College>, w: Weights): (r: seq<ScoredCollege>)
    ensures |r| == |cs|
    ensures forall i :: 0 <= i < |r| ==> r[i] == ScoreCollege(cs[i], w)
  {
    if cs == [] then [] else [ScoreCollege(cs[0], w)] + ScoreAll(cs[1..], w)
  }

  /** Scoring keeps names, so entries of a uniquely named list stay distinct. */
  lemma ScoreAllNamesUnique(cs: seq<College>, w: Weights)
    requires NamesUnique(cs)
    ensures forall i, j :: 0 <= i < j < |cs| ==> ScoreAll(cs, w)[i].name != ScoreAll(cs, w)[j].name
  {
  }

  /** Every scored entry of a college from the dataset carries a score in 3..150. */
  lemma ScoreAllBounds(cs: seq<College>, w: Weights)
    requires ValidWeights(w)
    requires forall c :: c in cs ==> ValidCollege(c)
    ensures forall x :: x in ScoreAll(cs, w) ==> 3 <= x.totalScore <= 150
  {
    forall x | x in ScoreAll(cs, w)
      ensures 3 <= x.totalScore <= 150
    {
      var i :| 0 <= i < |cs| && ScoreAll(cs, w)[i] == x;
      ScoreBounds(cs[i], w);
    }
  }
}
