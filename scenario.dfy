/** A worked input: two lineage headers, each followed by one data line,
    filtered for the genus `Rhizobium`. */
module Scenario {
  import opened Text
  import opened Fasta
  import opened Extract

  /** A string with no whitespace at either end is its own `strip()`. */
  lemma StripTight(s: string)
    requires s != [] && !IsSpace(s[0]) && !IsSpace(s[|s| - 1])
    ensures Strip(s) == s
  {
    assert [] + s + [] == s;
    StripUnique([], s, []);
  }

  lemma FirstHeaderLine()
    ensures Classify(">lineageA;B;Rhizobium") == Header("Rhizobium")
  {
    StripTight(">lineageA;B;Rhizobium");
    StripTight("Rhizobium");
    assert ">lineageA;B;Rhizobium" == ">lineageA;B" + ";" + "Rhizobium";
    LabelOfLineage(">lineageA;B", "Rhizobium");
  }

  lemma SecondHeaderLine()
    ensures Classify(">lineageC;D;Other") == Header("Other")
  {
    StripTight(">lineageC;D;Other");
    StripTight("Other");
    assert ">lineageC;D;Other" == ">lineageC;D" + ";" + "Other";
    LabelOfLineage(">lineageC;D", "Other");
  }

  lemma DataLines()
    ensures Classify("ACGT") == Data("ACGT")
    ensures Classify("TTTT") == Data("TTTT")
  {
    StripTight("ACGT");
    StripTight("TTTT");
  }

  /** How the scan reads the four lines. */
  lemma ScenarioLines()
    ensures Classified([">lineageA;B;Rhizobium", "ACGT", ">lineageC;D;Other", "TTTT"])
            == [Header("Rhizobium"), Data("ACGT"), Header("Other"), Data("TTTT")]
  {
    FirstHeaderLine();
    SecondHeaderLine();
    DataLines();
    MapSnocFour(Classify, ">lineageA;B;Rhizobium", "ACGT", ">lineageC;D;Other", "TTTT");
  }

  /** Two headers, each followed by one data line, give the empty preamble
      and then one record per header holding its data line. */
  lemma TwoRecords(t1: string, s1: string, t2: string, s2: string)
    ensures Blocks([Header(t1), Data(s1), Header(t2), Data(s2)])
            == [Record("", ""), Record(t1, s1), Record(t2, s2)]
  {
    var h1, d1, h2, d2 := Header(t1), Data(s1), Header(t2), Data(s2);
    assert Blocks([]) == [Record("", "")];
    BlocksSnocHeader([], h1);
    assert [] + [h1] == [h1];
    var b1 := [Record("", ""), Record(t1, "")];
    assert Blocks([h1]) == b1;
    BlocksSnocData([h1], d1);
    assert [h1] + [d1] == [h1, d1];
    assert b1[..1] == [Record("", "")] && "" + s1 == s1;
    assert Blocks([h1, d1]) == [Record("", ""), Record(t1, s1)];
    BlocksSnocHeader([h1, d1], h2);
    assert [h1, d1] + [h2] == [h1, d1, h2];
    var b3 := [Record("", ""), Record(t1, s1), Record(t2, "")];
    assert Blocks([h1, d1, h2]) == b3;
    BlocksSnocData([h1, d1, h2], d2);
    assert [h1, d1, h2] + [d2] == [h1, d1, h2, d2];
    assert b3[..2] == [Record("", ""), Record(t1, s1)] && "" + s2 == s2;
  }

  /** `Rhizobium` occurs in its own label and not in `Other`. */
  lemma ScenarioMatches()
    ensures Contains("Rhizobium", "Rhizobium")
    ensures !Contains("Other", "Rhizobium")
  {
    assert OccursAt("Rhizobium", "Rhizobium", 0);
  }

  lemma ScenarioFilter()
    ensures Filter([Record("", ""), Record("Rhizobium", "ACGT"), Record("Other", "TTTT")], "Rhizobium")
            == [Record("Rhizobium", "ACGT")]
  {
    var bs := [Record("", ""), Record("Rhizobium", "ACGT"), Record("Other", "TTTT")];
    ScenarioMatches();
    assert bs[..2] == [Record("", ""), Record("Rhizobium", "ACGT")];
    assert bs[..2][..1] == [Record("", "")];
    assert [Record("", "")][..0] == [];
  }

  lemma ScenarioRender()
    ensures Render([Record("Rhizobium", "ACGT")]) == ">Rhizobium\nACGT\n"
  {
    var r := Record("Rhizobium", "ACGT");
    assert [r][..0] == [];
    assert Render([r]) == Format(r);
    assert Format(r) == ">" + "Rhizobium" + "\n" + "ACGT" + "\n";
  }

  /** On the classified lines, only the `Rhizobium` record is written,
      under its genus label. */
  lemma ScenarioWritten()
    ensures Written([Header("Rhizobium"), Data("ACGT"), Header("Other"), Data("TTTT")], "Rhizobium")
            == ">Rhizobium\nACGT\n"
  {
    TwoRecords("Rhizobium", "ACGT", "Other", "TTTT");
    ScenarioFilter();
    ScenarioRender();
  }

  /** Filtering the four raw lines for `Rhizobium` writes exactly the
      `Rhizobium` record. */
  lemma ScenarioOutput()
    ensures Output([">lineageA;B;Rhizobium", "ACGT", ">lineageC;D;Other", "TTTT"], "Rhizobium")
            == ">Rhizobium\nACGT\n"
  {
    ScenarioLines();
    ScenarioWritten();
  }
}
