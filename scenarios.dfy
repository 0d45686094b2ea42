/** Worked instances of the documented behaviour, proved on concrete inputs. */
module Scenarios {

  import opened Wrappers
  import opened Text
  import opened Extract
  import opened Overlap

  /** A full ISO date gives its year; a date element without `when` gives "N/A". */
  lemma YearScenarios()
    ensures Year(Some(Some("2019-11-02"))) == "2019"
    ensures Year(Some(None)) == NoYear
    ensures Year(Some(Some(""))) == NoYear
    ensures Year(Some(Some("19"))) == "19"
  {
    assert Take("2019-11-02", 4) == "2019";
  }

  lemma LowerPaperA()
    ensures Lower("Paper A") == "paper a"
  {
    var r := Lower("Paper A");
    assert r[0] == 'p' && r[1] == 'a' && r[2] == 'p' && r[3] == 'e' && r[4] == 'r' && r[5] == ' ' && r[6] == 'a';
  }

  lemma LowerPaperASpace()
    ensures Lower("paper a ") == "paper a "
  {
    var r := Lower("paper a ");
    assert r[0] == 'p' && r[1] == 'a' && r[2] == 'p' && r[3] == 'e' && r[4] == 'r' && r[5] == ' ' && r[6] == 'a';
    assert r[7] == ' ';
  }

  /** Case is normalised away. */
  lemma NormalizeTitleCase()
    ensures Normalize("Paper A") == "paper a"
  {
    LowerPaperA();
    StripStripped("paper a");
  }

  /** A trailing blank is normalised away. */
  lemma NormalizeTrailingBlank()
    ensures Normalize("paper a ") == "paper a"
  {
    LowerPaperASpace();
    assert "paper a "[..7] == "paper a";
    StripStripped("paper a");
  }

  /** Two papers sharing exactly one reference get exactly one edge, of weight 1. */
  lemma OneSharedReferenceOneEdge()
    ensures OverlapEdges([{"paper a", "paper b"}, {"paper a"}]) == map[(0, 1) := 1]
  {
    var refs := [{"paper a", "paper b"}, {"paper a"}];
    assert refs[0] * refs[1] == {"paper a"};
    var g := OverlapEdges(refs);
    assert (0, 1) in g;
    assert g.Keys == {(0, 1)};
  }
}
