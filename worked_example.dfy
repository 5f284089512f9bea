/**
  The worked example of the course planner: a two-line course file with
  lower-case numbers and padded fields, loaded into a new tree, listed in
  order and queried. Each concrete computation on literals is a lemma of
  its own, so that every obligation stays small.
 */
module WorkedExample {
  import opened Wrappers
  import opened LexOrder
  import opened Text
  import opened CourseTree
  import opened CourseCatalog
  import opened Loader
  import opened Detail

  // The course file, and what each of its lines parses to.

  const ExampleLines: seq<string> := ["csci200, Data Structures, csci101", "CSCI101,Intro to Programming"]
  const DataStructures := Course("CSCI200", "Data Structures", ["CSCI101"])
  const IntroProgramming := Course("CSCI101", "Intro to Programming", [])

  const DataStructuresFields: seq<string> := ["csci200", " Data Structures", " csci101"]
  const IntroProgrammingFields: seq<string> := ["CSCI101", "Intro to Programming"]

  /** What `ParseLine` needs to know to turn `line` into the record `c`. */
  predicate SplitsInto(line: string, fields: seq<string>, c: Course) {
    && line != [] && Trim(line) == line && Split(line) == fields && |fields| >= 2
    && Normalize(fields[0]) == c.number && Trim(fields[1]) == c.title
    && Prerequisites(fields[2..]) == c.prerequisites
  }

  /** A line parses to the record its fields give. */
  lemma ParseFields(line: string, fields: seq<string>, c: Course)
    requires SplitsInto(line, fields, c)
    ensures ParseLine(line) == Record(c)
  {
  }

  /** A line that is its fields joined by `','` splits back into them. */
  lemma SplitsBack(line: string, fields: seq<string>)
    requires line == Join(fields) && fields != [] && fields[|fields| - 1] != []
    requires forall i :: 0 <= i < |fields| ==> NoComma(fields[i])
    ensures Split(line) == fields
  {
    SplitJoin(fields);
  }

  lemma JoinDataStructures()
    ensures Join(DataStructuresFields) == ExampleLines[0]
  {
  }

  lemma DataStructuresFieldsNoComma()
    ensures forall i :: 0 <= i < |DataStructuresFields| ==> NoComma(DataStructuresFields[i])
  {
  }

  lemma SplitDataStructures()
    ensures Split(ExampleLines[0]) == DataStructuresFields
  {
    JoinDataStructures();
    DataStructuresFieldsNoComma();
    SplitsBack(ExampleLines[0], DataStructuresFields);
  }

  lemma TrimDataStructuresLine()
    ensures Trim(ExampleLines[0]) == ExampleLines[0]
  {
    TrimOfTrimmed(ExampleLines[0]);
  }

  lemma TrimDataStructures()
    ensures Trim(" Data Structures") == "Data Structures"
  {
    var m := "Data Structures";
    assert Trimmed(m) && AllSpace(" ");
    assert " " + m + "" == " Data Structures";
    TrimOfPadded(" ", m, "");
  }

  lemma TrimPrerequisite()
    ensures Trim(" csci101") == "csci101"
  {
    var m := "csci101";
    assert Trimmed(m) && AllSpace(" ");
    assert " " + m + "" == " csci101";
    TrimOfPadded(" ", m, "");
  }

  /** Upper-casing a concrete word, character by character. */
  lemma UpperWord(s: string, u: string)
    requires |s| == |u| && forall i :: 0 <= i < |s| ==> UpperChar(s[i]) == u[i]
    ensures ToUpper(s) == u
  {
    ToUpperAt(s);
  }

  lemma UpperPrerequisite()
    ensures ToUpper("csci101") == "CSCI101"
  {
    UpperWord("csci101", "CSCI101");
  }

  lemma NormalizePrerequisite()
    ensures Normalize(" csci101") == "CSCI101"
  {
    TrimPrerequisite();
    UpperPrerequisite();
  }

  lemma TrimNumber()
    ensures Trim("csci200") == "csci200"
  {
    TrimOfTrimmed("csci200");
  }

  lemma UpperNumber()
    ensures ToUpper("csci200") == "CSCI200"
  {
    UpperWord("csci200", "CSCI200");
  }

  lemma NormalizeNumber()
    ensures Normalize("csci200") == "CSCI200"
  {
    TrimNumber();
    UpperNumber();
  }

  lemma PrerequisitesOfDataStructures()
    ensures Prerequisites(DataStructuresFields[2..]) == ["CSCI101"]
  {
    assert DataStructuresFields[2..] == [" csci101"];
    NormalizePrerequisite();
    assert NormalizeAll([" csci101"]) == ["CSCI101"];
  }

  lemma DataStructuresSplits()
    ensures SplitsInto(ExampleLines[0], DataStructuresFields, DataStructures)
  {
    TrimDataStructuresLine();
    SplitDataStructures();
    NormalizeNumber();
    TrimDataStructures();
    PrerequisitesOfDataStructures();
  }

  lemma ParseDataStructures()
    ensures ParseLine(ExampleLines[0]) == Record(DataStructures)
  {
    DataStructuresSplits();
    ParseFields(ExampleLines[0], DataStructuresFields, DataStructures);
  }

  lemma JoinIntroProgramming()
    ensures Join(IntroProgrammingFields) == ExampleLines[1]
  {
  }

  lemma IntroProgrammingFieldsNoComma()
    ensures forall i :: 0 <= i < |IntroProgrammingFields| ==> NoComma(IntroProgrammingFields[i])
  {
  }

  lemma SplitIntroProgramming()
    ensures Split(ExampleLines[1]) == IntroProgrammingFields
  {
    JoinIntroProgramming();
    IntroProgrammingFieldsNoComma();
    SplitsBack(ExampleLines[1], IntroProgrammingFields);
  }

  lemma TrimIntroLine()
    ensures Trim(ExampleLines[1]) == ExampleLines[1]
  {
    TrimOfTrimmed(ExampleLines[1]);
  }

  lemma TrimKnownCode()
    ensures Trim("CSCI101") == "CSCI101"
  {
    TrimOfTrimmed("CSCI101");
  }

  lemma UpperKnownCode()
    ensures ToUpper("CSCI101") == "CSCI101"
  {
    UpperWord("CSCI101", "CSCI101");
  }

  lemma NormalizeKnownCode()
    ensures Normalize("CSCI101") == "CSCI101"
  {
    TrimKnownCode();
    UpperKnownCode();
  }

  lemma TrimIntroProgramming()
    ensures Trim("Intro to Programming") == "Intro to Programming"
  {
    TrimOfTrimmed("Intro to Programming");
  }

  lemma PrerequisitesOfIntroProgramming()
    ensures Prerequisites(IntroProgrammingFields[2..]) == []
  {
    assert IntroProgrammingFields[2..] == [];
  }

  lemma IntroProgrammingSplits()
    ensures SplitsInto(ExampleLines[1], IntroProgrammingFields, IntroProgramming)
  {
    TrimIntroLine();
    SplitIntroProgramming();
    NormalizeKnownCode();
    TrimIntroProgramming();
    PrerequisitesOfIntroProgramming();
  }

  lemma ParseIntroProgramming()
    ensures ParseLine(ExampleLines[1]) == Record(IntroProgramming)
  {
    IntroProgrammingSplits();
    ParseFields(ExampleLines[1], IntroProgrammingFields, IntroProgramming);
  }

  lemma CatalogOfTwo(a: Course, b: Course)
    requires a.number != b.number
    ensures CatalogOf([Record(a), Record(b)]) == map[a.number := a, b.number := b]
  {
    var rs := [Record(a), Record(b)];
    assert rs[..1] == [Record(a)];
    assert rs[..1][..0] == [];
    assert CatalogOf(rs[..1]) == map[a.number := a];
  }

  /** Two lines that parse to records with different numbers load as a two-entry catalog. */
  lemma LoadTwoRecords(lines: seq<string>, a: Course, b: Course)
    requires |lines| == 2 && ParseLine(lines[0]) == Record(a) && ParseLine(lines[1]) == Record(b)
    requires a.number != b.number
    ensures LoadedCatalog(lines) == map[a.number := a, b.number := b]
  {
    assert ParseAll(lines) == [Record(a), Record(b)];
    CatalogOfTwo(a, b);
  }

  const ExampleCatalog := map["CSCI200" := DataStructures, "CSCI101" := IntroProgramming]

  /** Loading the example file stores both courses, each under its normalised number. */
  lemma LoadExample()
    ensures LoadedCatalog(ExampleLines) == ExampleCatalog
  {
    ParseDataStructures();
    ParseIntroProgramming();
    LoadTwoRecords(ExampleLines, DataStructures, IntroProgramming);
  }

  /** An upper-case number without whitespace is its own lookup key. */
  lemma NormalizeCSCI200()
    ensures Normalize("CSCI200") == "CSCI200"
  {
    TrimOfTrimmed("CSCI200");
    UpperWord("CSCI200", "CSCI200");
  }

  lemma NormalizeCSCI300()
    ensures Normalize("CSCI300") == "CSCI300"
  {
    TrimOfTrimmed("CSCI300");
    UpperWord("CSCI300", "CSCI300");
  }

  /** The detail query for `CSCI200` resolves its one prerequisite to the stored title. */
  lemma QueryExample()
    ensures Information(ExampleCatalog, "CSCI200") ==
              Found(DataStructures, [Resolved("CSCI101", "Intro to Programming")])
  {
    NormalizeCSCI200();
  }

  /** A prerequisite missing from the catalog is reported by its bare code, in its place in the list. */
  lemma UnresolvedExample()
    ensures Information(map["CSCI300" := Course("CSCI300", "Algorithms", ["CSCI101", "MATH201"]), "CSCI101" := IntroProgramming], "CSCI300") ==
              Found(Course("CSCI300", "Algorithms", ["CSCI101", "MATH201"]),
                    [Resolved("CSCI101", "Intro to Programming"), Unresolved("MATH201")])
  {
    NormalizeCSCI300();
  }

  lemma TrimPaddedQuery()
    ensures Trim("  CsCi200  ") == "CsCi200"
  {
    var m := "CsCi200";
    assert Trimmed(m) && AllSpace("  ");
    assert "  " + m + "  " == "  CsCi200  ";
    TrimOfPadded("  ", m, "  ");
  }

  lemma UpperPaddedQuery()
    ensures ToUpper("CsCi200") == "CSCI200"
  {
    UpperWord("CsCi200", "CSCI200");
  }

  /** Upper-case, lower-case and padded spellings of a number find the same course. */
  lemma CaseInsensitiveExample()
    ensures Information(ExampleCatalog, "  CsCi200  ") == Information(ExampleCatalog, "CSCI200")
    ensures Information(ExampleCatalog, "csci200") == Information(ExampleCatalog, "CSCI200")
    ensures Information(ExampleCatalog, "CSCI200").Found?
  {
    TrimPaddedQuery();
    UpperPaddedQuery();
    NormalizeNumber();
    QueryExample();
  }

  /** Neither example line is malformed, so the load reports no warnings. */
  lemma WarningsExample()
    ensures Warnings(ExampleLines) == []
  {
    ParseDataStructures();
    ParseIntroProgramming();
    var init := ExampleLines[..1];
    assert init[..0] == [];
    assert Warnings(init) == [];
  }

  lemma ExampleOrder()
    ensures Less("CSCI101", "CSCI200")
  {
    assert Less("101", "200");
    LessCons('I', "101", "200");
    LessCons('C', "I101", "I200");
    LessCons('S', "CI101", "CI200");
    LessCons('C', "SCI101", "SCI200");
  }

  lemma ExampleCatalogSize()
    ensures |ExampleCatalog| == 2
  {
    assert ExampleCatalog.Keys == {"CSCI200", "CSCI101"};
  }

  /** Two distinct keys listed in ascending order come out as `CSCI101`, then `CSCI200`. */
  lemma ListingKeys(es: seq<(string, string)>)
    requires |es| == 2 && Less(es[0].0, es[1].0)
    requires exists i :: 0 <= i < |es| && es[i].0 == "CSCI101"
    requires exists i :: 0 <= i < |es| && es[i].0 == "CSCI200"
    ensures es[0].0 == "CSCI101" && es[1].0 == "CSCI200"
  {
    ExampleOrder();
    LessAsymmetric("CSCI101", "CSCI200");
    LessIrreflexive("CSCI101");
    LessIrreflexive("CSCI200");
  }

  /**
    What `PrintInOrder` promises about the example catalog leaves one
    possible listing: these two lines, in this order.
   */
  lemma ListingExample(r: Listing)
    requires r.NoCoursesLoaded? <==> ExampleCatalog == map[]
    requires r.Lines? ==> |r.entries| == |ExampleCatalog|
    requires r.Lines? ==> forall i, j :: 0 <= i < j < |r.entries| ==> Less(r.entries[i].0, r.entries[j].0)
    requires r.Lines? ==> forall i :: 0 <= i < |r.entries| ==>
               r.entries[i].0 in ExampleCatalog && r.entries[i].1 == ExampleCatalog[r.entries[i].0].title
    requires r.Lines? ==> forall k :: k in ExampleCatalog ==> exists i :: 0 <= i < |r.entries| && r.entries[i].0 == k
    ensures r == Lines([("CSCI101", "Intro to Programming"), ("CSCI200", "Data Structures")])
  {
    assert "CSCI101" in ExampleCatalog && "CSCI200" in ExampleCatalog;
    assert r.Lines?;
    ExampleCatalogSize();
    ListingKeys(r.entries);
  }

  /**
    The worked example end to end: load the two-line file into a new tree,
    list the catalog, and query `CSCI200`.
   */
  method ExampleSession() returns (ok: bool, warnings: seq<string>, listing: Listing, detail: Detail)
    ensures ok && warnings == []
    ensures listing == Lines([("CSCI101", "Intro to Programming"), ("CSCI200", "Data Structures")])
    ensures detail == Found(DataStructures, [Resolved("CSCI101", "Intro to Programming")])
  {
    var bst := new CourseBST();
    ok, warnings := LoadCourses(bst, Some(ExampleLines));
    LoadExample();
    WarningsExample();
    assert bst.Catalog == ExampleCatalog;
    listing := bst.PrintInOrder();
    ListingExample(listing);
    detail := PrintCourseInformation(bst, "CSCI200");
    QueryExample();
  }
}
