/**
 * The static table of the eight undergraduate colleges that the preference
 * builder ranks. Every attribute is on a 1 (low) to 5 (high) scale; for
 * `geRigor` a high value is the undesirable end (most required courses).
 */
module Colleges {

  /** One row of `collegeData`. */
  datatype College = College(
    name: string,
    theme: string,
    geRigor: int,
    housingModernity: int,
    centrality: int,
    vibe: string)

  /** An attribute value on the table's 1..5 scale. */
  predicate OnScale(v: int) {
    1 <= v <= 5
  }

  /** All three scored attributes of `c` lie on the 1..5 scale. */
  predicate ValidCollege(c: College) {
    OnScale(c.geRigor) && OnScale(c.housingModernity) && OnScale(c.centrality)
  }

  /** No two entries of `cs` share a name. */
  predicate NamesUnique(cs: seq<College>) {
    forall i, j :: 0 <= i < j < |cs| ==> cs[i].name != cs[j].name
  }

  /** The dataset, in the order in which the page lists it before sorting. */
  const CollegeData: seq<College> := [
    College("Revelle College", "The Liberal Arts and Sciences", 5, 1, 3,
            "Academically Focused, Traditional"),
    College("John Muir College", "Individual Responsibility and Development", 2, 1, 4,
            "Chill, Outdoorsy, Free-Spirited"),
    College("Thurgood Marshall College", "The Scholar and the Citizen", 4, 2, 2,
            "Social Justice, Community Engagement"),
    College("Earl Warren College", "Toward a Life in Balance", 2, 3, 3,
            "Ethical Inquiry, Well-Roundedness"),
    College("Eleanor Roosevelt College", "International/Global Context", 4, 3, 1,
            "Global Awareness, Diplomatic"),
    College("Sixth College", "Culture, Art, and Technology (CAT)", 3, 5, 5,
            "Innovative, Interconnected, Artistic"),
    College("Seventh College", "A Changing Planet", 3, 5, 4,
            "Interdisciplinary, Climate Focus, New"),
    College("Eighth College", "Engagement & Community", 3, 5, 2,
            "Social Justice, Anti-Racism, Wellness")
  ]

  /**
   * The table's own invariants: eight entries, every attribute on the 1..5
   * scale, and the name is a primary key.
   */
  lemma CollegeDataWellFormed()
    ensures |CollegeData| == 8
    ensures forall c :: c in CollegeData ==> ValidCollege(c)
    ensures NamesUnique(CollegeData)
  {
  }

  /** The names of the dataset, in order. */
  lemma CollegeDataNames()
    ensures |CollegeData| == 8
    ensures CollegeData[0].name == "Revelle College"
    ensures CollegeData[1].name == "John Muir College"
    ensures CollegeData[2].name == "Thurgood Marshall College"
    ensures CollegeData[3].name == "Earl Warren College"
    ensures CollegeData[4].name == "Eleanor Roosevelt College"
    ensures CollegeData[5].name == "Sixth College"
    ensures CollegeData[6].name == "Seventh College"
    ensures CollegeData[7].name == "Eighth College"
  {
  }
}
