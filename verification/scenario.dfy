/**
 * The end-to-end case of the scraper's row fold: a detail page with one
 * table holding a "Rent" header and one data row.
 */
module Scenario {
  import opened Wrappers
  import opened Text
  import opened Extractor

  /** The data row after the header carries its title; the value and range
      reach the record unchanged. */
  lemma OneTable()
    ensures ParseCountryPage("France", Some([[Header(Some("Rent"), []), Data(["Apartment", "1 000 \U{20AC}", "800 \U{20AC} - 1 300 \U{20AC}"])]]))
         == [Record("France", Some("Rent"), "Apartment", "1 000 \U{20AC}", "800 \U{20AC} - 1 300 \U{20AC}")]
  {
    var v := "1 000 \U{20AC}";
    var g := "800 \U{20AC} - 1 300 \U{20AC}";
    NoNbsp();
    ReplaceCharAbsent(v, Nbsp, ' ');
    ReplaceCharAbsent(g, Nbsp, ' ');
    var table := [Header(Some("Rent"), []), Data(["Apartment", v, g])];
    OneTableRows(v, g);
    assert ScanTables("France", [table]) == ScanTable("France", table) + ScanTables("France", []);
  }

  lemma NoNbsp()
    ensures Nbsp !in "1 000 \U{20AC}" && Nbsp !in "800 \U{20AC} - 1 300 \U{20AC}"
  {
  }

  lemma OneTableRows(v: string, g: string)
    requires SpaceNbsp(v) == v && SpaceNbsp(g) == g
    ensures ScanTable("France", [Header(Some("Rent"), []), Data(["Apartment", v, g])])
         == [Record("France", Some("Rent"), "Apartment", v, g)]
  {
    var table := [Header(Some("Rent"), []), Data(["Apartment", v, g])];
    var row := Data(["Apartment", v, g]);
    assert table[1..] == [row];
    assert [row][1..] == [];
    assert RowRecords("France", None, table[0]) == [];
    assert NextCategory(None, table[0]) == Some("Rent");
    assert RowRecords("France", Some("Rent"), row) == [Record("France", Some("Rent"), "Apartment", v, g)];
    assert ScanRows("France", Some("Rent"), [row]) == [Record("France", Some("Rent"), "Apartment", v, g)];
  }
}
