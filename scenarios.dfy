/** Concrete runs of the model on small registries. */
module Scenarios {
  import opened Wrappers
  import opened Strings
  import opened Registry
  import opened Resolver
  import opened Dispatcher
  import opened Download

  const PoeUrl := "http://example.org/poe.zip"

  function PoeRegistry(): seq<CorpusRecord>
  {
    [CorpusRecord("gutenberg-poe", Some("Poe"), Some("19th"), Some("literature"),
                  Single(Variant("TEI", "zip", PoeUrl)))]
  }

  const PoeJob := Job(PoeUrl, "zip", "/tmp/x")
  const PoeSteps := [ChangeDir("/tmp/x"), Fetch(PoeUrl), Unzip("poe.zip"), Remove("poe.zip")]

  /** The registry entry resolves to one zip download into the given directory. */
  lemma PoeResolves()
    ensures Resolve(PoeRegistry(), "gutenberg-poe", Some("/tmp/x"), None, "/data") == Success([PoeJob])
  {
    assert Lookup(PoeRegistry(), "gutenberg-poe") == Some(PoeRegistry()[0]);
  }

  lemma PoeFilename()
    ensures LastSegment(PoeUrl) == "poe.zip"
  {
    assert PoeUrl == "http://example.org" + "/" + "poe.zip";
    LastSegmentAfterSlash("http://example.org", "poe.zip");
  }

  /** A lone zip download changes into its directory, fetches, unzips and removes the archive. */
  lemma ZipJobSteps(job: Job)
    requires job.format == ZipFormat
    ensures Dispatched([job]) ==
      [ChangeDir(job.destination), Fetch(job.url), Unzip(LastSegment(job.url)), Remove(LastSegment(job.url))]
  {
    DispatchedSnoc([], job);
    assert [] + [job] == [job];
  }

  /** That download changes into the directory, fetches, unzips and removes `poe.zip`. */
  lemma PoeDispatches()
    ensures Dispatched([PoeJob]) == PoeSteps
  {
    ZipJobSteps(PoeJob);
    PoeFilename();
  }

  /** A zip corpus downloads into the given directory: fetch, unzip and remove `poe.zip`. */
  lemma ScenarioSingleZip()
    ensures Plan(PoeRegistry(), "gutenberg-poe", Some("/tmp/x"), None, Config("corpus-list.yaml", "/data")) ==
      Success(PoeSteps)
  {
    PoeResolves();
    PoeDispatches();
  }

  function TwoMarkups(): seq<CorpusRecord>
  {
    [CorpusRecord("shakespeare", Some("Plays"), Some("16th,17th"), Some("drama"),
                  Alternatives([Variant("TEI", "zip", "http://example.org/tei.zip"),
                                Variant("HTML", "git", "http://example.org/html.git")]))]
  }

  lemma ShakespeareFound()
    ensures Lookup(TwoMarkups(), "shakespeare") == Some(TwoMarkups()[0])
  {
  }

  lemma TwoMarkupsTags()
    ensures Join(Markups(TwoMarkups()[0].text.variants), ", ") == "TEI, HTML"
  {
    assert Markups(TwoMarkups()[0].text.variants) == ["TEI", "HTML"];
    assert Join(["TEI", "HTML"], ", ") == "TEI" + ", " + "HTML";
  }

  lemma HtmlSelected()
    ensures Selected(TwoMarkups()[0].text.variants, Split("HTML", ','), "/tmp/y") ==
      [Job("http://example.org/html.git", "git", "/tmp/y")]
  {
    var variants := TwoMarkups()[0].text.variants;
    assert Split("HTML", ',') == ["HTML"] by {
      SplitJoin(["HTML"], ',');
    }
    assert "TEI" !in ["HTML"];
    assert variants[1..][1..] == [];
  }

  /** Without `--markup` the two-variant corpus is refused with both tags; with `--markup=HTML` only the HTML variant is downloaded. */
  lemma ScenarioTwoMarkups()
    ensures Resolve(TwoMarkups(), "shakespeare", Some("/tmp/y"), None, "/data") ==
      Failure(AmbiguousMarkup(2, "TEI, HTML"))
    ensures Resolve(TwoMarkups(), "shakespeare", Some("/tmp/y"), Some("HTML"), "/data") ==
      Success([Job("http://example.org/html.git", "git", "/tmp/y")])
  {
    ShakespeareFound();
    TwoMarkupsTags();
    HtmlSelected();
  }

  function ThreeCenturies(): seq<CorpusRecord>
  {
    [CorpusRecord("a", Some("A"), Some("15th"), Some("x"), Single(Variant("TEI", "zip", "u/a.zip"))),
     CorpusRecord("b", Some("B"), Some("16th"), Some("x"), Single(Variant("TEI", "zip", "u/b.zip"))),
     CorpusRecord("c", Some("C"), Some("18th"), Some("x"), Single(Variant("TEI", "zip", "u/c.zip")))]
  }

  const RowA := Listing("a", Some("A"), Some("15th"), Some("x"))
  const RowB := Listing("b", Some("B"), Some("16th"), Some("x"))
  const RowC := Listing("c", Some("C"), Some("18th"), Some("x"))

  lemma CenturyValues()
    ensures Split("16th,17th", ',') == ["16th", "17th"]
  {
    SplitJoin(["16th", "17th"], ',');
  }

  lemma CenturyMatches()
    ensures !Matches(RowA, Centuries, ["16th", "17th"])
    ensures Matches(RowB, Centuries, ["16th", "17th"])
    ensures !Matches(RowC, Centuries, ["16th", "17th"])
  {
    ContainsSameLength("15th", "16th");
    ContainsSameLength("15th", "17th");
    ContainsSameLength("16th", "16th");
    ContainsSameLength("18th", "16th");
    ContainsSameLength("18th", "17th");
    assert ["16th", "17th"][0] == "16th";
  }

  lemma CenturyWhere()
    ensures Where([RowA, RowB, RowC], Centuries, ["16th", "17th"]) == [RowB]
  {
    var values := ["16th", "17th"];
    CenturyMatches();
    assert [RowC][1..] == [];
    assert Where([RowC], Centuries, values) == [];
    assert [RowB, RowC][1..] == [RowC];
    assert Where([RowB, RowC], Centuries, values) == [RowB] + Where([RowC], Centuries, values);
    assert [RowA, RowB, RowC][1..] == [RowB, RowC];
    assert Where([RowA, RowB, RowC], Centuries, values) == Where([RowB, RowC], Centuries, values);
  }

  lemma ThreeProjected()
    ensures Project(ThreeCenturies()) == [RowA, RowB, RowC]
  {
  }

  lemma CenturyFilter()
    ensures FilterCorpusList([RowA, RowB, RowC], Centuries, "16th,17th") == [RowB]
  {
    CenturyValues();
    CenturyWhere();
  }

  /** `list --centuries=16th,17th` over records of the 15th, 16th and 18th centuries shows only the 16th. */
  lemma ScenarioCenturyFilter()
    ensures ShowCorpusList(ThreeCenturies(), Some("16th,17th"), None) == [RowB]
  {
    ThreeProjected();
    CenturyFilter();
  }
}
