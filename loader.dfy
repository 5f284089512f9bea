/**
  The body of `loadCoursesFromFile` (ProjectTwo.cpp): one line of the
  course file becomes a skipped line, a malformed-line warning or a course
  record, and the records are inserted into a freshly cleared tree.
  Opening and reading the file is replaced by an optional sequence of lines.
 */
module Loader {
  import opened Wrappers
  import opened Text
  import opened CourseTree
  import opened CourseCatalog

  /** What one line of the file contributes. */
  datatype ParseResult = Skip | Malformed | Record(course: Course)

  /** `toUpperCopy(trim(s))`: how course numbers and prerequisite codes are normalised. */
  function Normalize(s: string): (r: string)
  {
    ToUpper(Trim(s))
  }

  /** `Normalize` produces a normalised code; it is empty only for blank input. */
  lemma NormalizeShape(s: string)
    ensures Normalized(Normalize(s))
    ensures Normalize(s) == [] <==> AllSpace(s)
  {
    ToUpperKeepsSpace(Trim(s));
    ToUpperHasNoLower(Trim(s));
  }

  /** The normalised codes are exactly the strings `Normalize` leaves unchanged. */
  lemma NormalizedIsFixpoint(s: string)
    ensures Normalized(s) <==> Normalize(s) == s
  {
    if Normalized(s) {
      TrimOfTrimmed(s);
      ToUpperAt(s);
      assert forall i :: 0 <= i < |s| ==> UpperChar(s[i]) == s[i];
    }
    NormalizeShape(s);
  }

  lemma NormalizeIdempotent(s: string)
    ensures Normalize(Normalize(s)) == Normalize(s)
  {
    NormalizeShape(s);
    NormalizedIsFixpoint(Normalize(s));
  }

  /** A normalised code: no surrounding whitespace and no ASCII lower-case letter. */
  predicate Normalized(s: string) {
    Trimmed(s) && forall i :: 0 <= i < |s| ==> !IsLowerAscii(s[i])
  }

  /** Two inputs that differ only in surrounding whitespace and ASCII case normalise alike. */
  lemma NormalizeCaseInsensitive(a: string, b: string)
    ensures Normalize(a) == Normalize(b) <==> EqualIgnoringCase(Trim(a), Trim(b))
  {
    ToUpperCaseInsensitive(Trim(a), Trim(b));
  }

  /** Each field normalised, position by position. */
  function NormalizeAll(fields: seq<string>): (codes: seq<string>)
    ensures |codes| == |fields|
  {
    seq(|fields|, i requires 0 <= i < |fields| => Normalize(fields[i]))
  }

  /** The first `n` items with the empty ones dropped, in their order. */
  function NonEmptyUpTo<T>(xs: seq<seq<T>>, n: nat): (ys: seq<seq<T>>)
    requires n <= |xs|
    decreases n
  {
    if n == 0 then []
    else NonEmptyUpTo(xs, n - 1) + (if xs[n - 1] == [] then [] else [xs[n - 1]])
  }

  function NonEmpty<T>(xs: seq<seq<T>>): (ys: seq<seq<T>>)
  {
    NonEmptyUpTo(xs, |xs|)
  }

  /**
    The prerequisite loop: every field from the third on, normalised, with
    the empty ones dropped, in their original order.
   */
  function Prerequisites(fields: seq<string>): (ps: seq<string>)
  {
    NonEmpty(NormalizeAll(fields))
  }

  lemma {:induction false} NonEmptyUpToMembers<T>(xs: seq<seq<T>>, n: nat)
    requires n <= |xs|
    ensures |NonEmptyUpTo(xs, n)| <= n
    ensures forall y :: y in NonEmptyUpTo(xs, n) <==> y != [] && exists i :: 0 <= i < n && xs[i] == y
    decreases n
  {
    if n > 0 {
      NonEmptyUpToMembers(xs, n - 1);
      var ys := NonEmptyUpTo(xs, n - 1);
      assert NonEmptyUpTo(xs, n) == ys + (if xs[n - 1] == [] then [] else [xs[n - 1]]);
      forall y | y != [] && exists i :: 0 <= i < n && xs[i] == y
        ensures y in NonEmptyUpTo(xs, n)
      {
        var i :| 0 <= i < n && xs[i] == y;
        if i < n - 1 { assert y in ys; }
      }
    }
  }

  /** Dropping the empty items keeps exactly the non-empty ones. */
  lemma NonEmptyMembers<T>(xs: seq<seq<T>>)
    ensures |NonEmpty(xs)| <= |xs|
    ensures forall y :: y in NonEmpty(xs) <==> y != [] && y in xs
  {
    NonEmptyUpToMembers(xs, |xs|);
    forall y | y in xs ensures exists i :: 0 <= i < |xs| && xs[i] == y {
      var i :| 0 <= i < |xs| && xs[i] == y;
    }
  }

  lemma {:induction false} NonEmptyUpToAgree<T>(xs: seq<seq<T>>, ys: seq<seq<T>>, n: nat)
    requires n <= |xs| && n <= |ys|
    requires forall j :: 0 <= j < n ==> xs[j] == ys[j]
    ensures NonEmptyUpTo(xs, n) == NonEmptyUpTo(ys, n)
    decreases n
  {
    if n > 0 {
      NonEmptyUpToAgree(xs, ys, n - 1);
    }
  }

  lemma AppendAssoc<T>(a: seq<T>, b: seq<T>, c: seq<T>)
    ensures a + (b + c) == (a + b) + c
  {
  }

  lemma {:induction false} NonEmptyUpToConcat<T>(xs: seq<seq<T>>, ys: seq<seq<T>>, m: nat)
    requires m <= |ys|
    ensures NonEmptyUpTo(xs + ys, |xs| + m) == NonEmpty(xs) + NonEmptyUpTo(ys, m)
    decreases m
  {
    if m == 0 {
      NonEmptyUpToAgree(xs + ys, xs, |xs|);
    } else {
      NonEmptyUpToConcat(xs, ys, m - 1);
      var y := ys[m - 1];
      assert (xs + ys)[|xs| + m - 1] == y;
      AppendAssoc(NonEmpty(xs), NonEmptyUpTo(ys, m - 1), if y == [] then [] else [y]);
    }
  }

  /** Filtering distributes over concatenation. */
  lemma NonEmptyConcat<T>(xs: seq<seq<T>>, ys: seq<seq<T>>)
    ensures NonEmpty(xs + ys) == NonEmpty(xs) + NonEmpty(ys)
  {
    NonEmptyUpToConcat(xs, ys, |ys|);
  }

  lemma {:induction false} NonEmptyUpToIdentity<T>(xs: seq<seq<T>>, n: nat)
    requires n <= |xs|
    requires forall i :: 0 <= i < |xs| ==> xs[i] != []
    ensures NonEmptyUpTo(xs, n) == xs[..n]
    decreases n
  {
    if n > 0 {
      NonEmptyUpToIdentity(xs, n - 1);
      assert xs[..n] == xs[..n - 1] + [xs[n - 1]];
    }
  }

  /** Every stored prerequisite code is non-empty and already normalised; there are no more codes than fields. */
  lemma PrerequisitesNormalized(fields: seq<string>)
    ensures |Prerequisites(fields)| <= |fields|
    ensures forall i :: 0 <= i < |Prerequisites(fields)| ==>
              Prerequisites(fields)[i] != [] && Normalized(Prerequisites(fields)[i])
  {
    var codes, ps := NormalizeAll(fields), Prerequisites(fields);
    NonEmptyMembers(codes);
    forall i | 0 <= i < |ps| ensures ps[i] != [] && Normalized(ps[i]) {
      assert ps[i] in ps;
      var j :| 0 <= j < |codes| && codes[j] == ps[i];
      NormalizeShape(fields[j]);
    }
  }

  /** The prerequisites are exactly the non-empty normalised fields. */
  lemma PrerequisitesMembers(fields: seq<string>, p: string)
    ensures p in Prerequisites(fields) <==> p != [] && exists i :: 0 <= i < |fields| && Normalize(fields[i]) == p
  {
    var codes := NormalizeAll(fields);
    NonEmptyMembers(codes);
    if p in codes {
      var i :| 0 <= i < |codes| && codes[i] == p;
    }
    if exists i :: 0 <= i < |fields| && Normalize(fields[i]) == p {
      var i :| 0 <= i < |fields| && Normalize(fields[i]) == p;
      assert codes[i] == p;
    }
  }

  lemma NormalizeAllConcat(a: seq<string>, b: seq<string>)
    ensures NormalizeAll(a + b) == NormalizeAll(a) + NormalizeAll(b)
  {
    var l, r := NormalizeAll(a + b), NormalizeAll(a) + NormalizeAll(b);
    forall i | 0 <= i < |l| ensures l[i] == r[i] {
      if i < |a| {
        assert (a + b)[i] == a[i];
      } else {
        assert (a + b)[i] == b[i - |a|];
      }
    }
  }

  /** Filtering keeps the original order: it distributes over concatenation. */
  lemma PrerequisitesConcat(a: seq<string>, b: seq<string>)
    ensures Prerequisites(a + b) == Prerequisites(a) + Prerequisites(b)
  {
    NormalizeAllConcat(a, b);
    NonEmptyConcat(NormalizeAll(a), NormalizeAll(b));
  }

  /** The filter applied to all of the normalised fields. */
  lemma PrerequisitesAsCodes(fields: seq<string>)
    ensures Prerequisites(fields) == NonEmptyUpTo(NormalizeAll(fields), |fields|)
  {
  }

  /** One turn of the prerequisite loop: the code of `tokens[i]` is appended unless it is empty. */
  lemma CollectStep(tokens: seq<string>, i: nat)
    requires 2 <= i < |tokens|
    ensures NonEmptyUpTo(NormalizeAll(tokens[2..]), i - 1) ==
              NonEmptyUpTo(NormalizeAll(tokens[2..]), i - 2) +
              (if Normalize(tokens[i]) == [] then [] else [Normalize(tokens[i])])
  {
    var fields := tokens[2..];
    var xs := NormalizeAll(fields);
    assert fields[i - 2] == tokens[i];
    assert xs[i - 2] == Normalize(tokens[i]);
    assert NonEmptyUpTo(xs, i - 1) == NonEmptyUpTo(xs, i - 2) + (if xs[i - 2] == [] then [] else [xs[i - 2]]);
  }

  /** The `for (size_t i = 2; i < tokens.size(); ++i)` loop that builds `course.prerequisites`. */
  method CollectPrerequisites(tokens: seq<string>) returns (prereqs: seq<string>)
    requires |tokens| >= 2
    ensures prereqs == Prerequisites(tokens[2..])
  {
    prereqs := [];
    var i := 2;
    while i < |tokens|
      invariant 2 <= i <= |tokens|
      invariant prereqs == NonEmptyUpTo(NormalizeAll(tokens[2..]), i - 2)
    {
      var prereqCode := Normalize(tokens[i]);
      CollectStep(tokens, i);
      if prereqCode != [] {
        prereqs := prereqs + [prereqCode];
      }
      i := i + 1;
    }
    PrerequisitesAsCodes(tokens[2..]);
  }

  /** The per-line step of the loader. */
  function ParseLine(line: string): (r: ParseResult)
  {
    var t := Trim(line);
    if t == [] then Skip
    else
      var tokens := Split(t);
      if |tokens| < 2 then Malformed
      else Record(Course(Normalize(tokens[0]), Trim(tokens[1]), Prerequisites(tokens[2..])))
  }

  /** A line is skipped exactly when it is all whitespace. */
  lemma ParseLineSkip(line: string)
    ensures ParseLine(line).Skip? <==> AllSpace(line)
  {
  }

  /** A trimmed line that is one field: no comma, or a single comma at its very end. */
  predicate OneField(t: string) {
    NoComma(t) || (t != [] && t[|t| - 1] == ',' && NoComma(t[..|t| - 1]))
  }

  lemma SplitOneField(t: string)
    requires t != []
    ensures |Split(t)| < 2 <==> OneField(t)
  {
    var k := CommaFrom(t, 0);
    if k == |t| {
      assert NoComma(t);
      SplitNoComma(t);
    } else {
      var f, rest := t[..k], t[k + 1..];
      assert t == f + [','] + rest;
      assert NoComma(f) by {
        forall j | 0 <= j < |f| ensures f[j] != ',' {
          assert f[j] == t[j];
        }
      }
      SplitCons(f, rest);
      SplitFields(rest);
      if rest == [] {
        assert t[..|t| - 1] == f;
      } else {
        assert t[..|t| - 1][k] == ',';
      }
    }
  }

  /** A line is malformed exactly when, after trimming, it is a single field. */
  lemma ParseLineMalformed(line: string)
    ensures ParseLine(line).Malformed? <==> Trim(line) != [] && OneField(Trim(line))
  {
    if Trim(line) != [] {
      SplitOneField(Trim(line));
    }
  }

  /** What a parsed record looks like: a normalised number, a trimmed title, normalised codes, no commas. */
  predicate WellFormed(c: Course) {
    && Normalized(c.number) && NoComma(c.number)
    && Trimmed(c.title) && NoComma(c.title)
    && forall i :: 0 <= i < |c.prerequisites| ==>
         c.prerequisites[i] != [] && Normalized(c.prerequisites[i]) && NoComma(c.prerequisites[i])
  }

  /** Every record the parser produces is well formed. */
  lemma ParseLineRecord(line: string)
    requires ParseLine(line).Record?
    ensures WellFormed(ParseLine(line).course)
  {
    var t := Trim(line);
    var tokens := Split(t);
    SplitFields(t);
    assert NoComma(tokens[0]) && NoComma(tokens[1]);
    NormalizeShape(tokens[0]);
    NoCommaNormalize(tokens[0]);
    NoCommaTrim(tokens[1]);
    PrerequisitesNormalized(tokens[2..]);
    var ps := Prerequisites(tokens[2..]);
    forall i | 0 <= i < |ps| ensures NoComma(ps[i]) {
      PrerequisitesMembers(tokens[2..], ps[i]);
      var j :| 0 <= j < |tokens[2..]| && Normalize(tokens[2..][j]) == ps[i];
      assert tokens[2..][j] == tokens[j + 2];
      NoCommaNormalize(tokens[j + 2]);
    }
  }

  lemma NoCommaTrim(s: string)
    requires NoComma(s)
    ensures NoComma(Trim(s))
  {
    var i := TrimIsSlice(s);
    var t := Trim(s);
    forall j | 0 <= j < |t| ensures t[j] != ',' {
      assert t[j] == s[i + j];
    }
  }

  lemma NoCommaNormalize(s: string)
    requires NoComma(s)
    ensures NoComma(Normalize(s))
  {
    NoCommaTrim(s);
    ToUpperAt(Trim(s));
  }

  /** A record written back as a line of the course file: its fields joined by `','`. */
  function FormatLine(c: Course): (line: string)
  {
    Join([c.number, c.title] + c.prerequisites)
  }

  lemma {:induction false} JoinEnds(fields: seq<string>)
    requires |fields| >= 2
    ensures |Join(fields)| > 0
    ensures Join(fields)[0] == if fields[0] == [] then ',' else fields[0][0]
    ensures fields[|fields| - 1] != [] ==> Join(fields)[|Join(fields)| - 1] == fields[|fields| - 1][|fields[|fields| - 1]| - 1]
    decreases |fields|
  {
    var rest := fields[1..];
    assert Join(fields) == fields[0] + [','] + Join(rest);
    if |rest| == 1 {
      assert Join(rest) == rest[0];
    } else {
      JoinEnds(rest);
    }
  }

  /**
    Parsing a formatted well-formed record gives the record back, provided
    the line does not end in an empty field (which `getline` would drop).
   */
  lemma ParseFormat(c: Course)
    requires WellFormed(c)
    requires c.title != [] || c.prerequisites != []
    ensures ParseLine(FormatLine(c)) == Record(c)
  {
    var fields := [c.number, c.title] + c.prerequisites;
    var line := FormatLine(c);
    var last := fields[|fields| - 1];
    assert last != [];
    JoinEnds(fields);
    NormalizedIsFixpoint(c.number);
    assert Trimmed(line);
    TrimOfTrimmed(line);
    assert forall i :: 0 <= i < |fields| ==> NoComma(fields[i]);
    SplitJoin(fields);
    assert Split(Trim(line)) == fields;
    assert fields[2..] == c.prerequisites;
    PrerequisitesIdentity(c.prerequisites);
    TrimOfTrimmed(c.title);
  }

  /** Already normalised, non-empty codes pass the prerequisite filter unchanged. */
  lemma PrerequisitesIdentity(codes: seq<string>)
    requires forall i :: 0 <= i < |codes| ==> codes[i] != [] && Normalized(codes[i])
    ensures Prerequisites(codes) == codes
  {
    var normalized := NormalizeAll(codes);
    forall i | 0 <= i < |codes| ensures normalized[i] == codes[i] {
      NormalizedIsFixpoint(codes[i]);
    }
    assert normalized == codes;
    NonEmptyUpToIdentity(codes, |codes|);
    assert codes[..|codes|] == codes;
  }

  /** How the catalog absorbs one parse result: a new number is added, anything else is ignored. */
  function Store(m: map<string, Course>, r: ParseResult): (m': map<string, Course>)
  {
    if r.Record? && r.course.number !in m then m[r.course.number := r.course] else m
  }

  /** The parse result of every line, in file order. */
  function ParseAll(lines: seq<string>): (rs: seq<ParseResult>)
    ensures |rs| == |lines|
  {
    seq(|lines|, i requires 0 <= i < |lines| => ParseLine(lines[i]))
  }

  /** The catalog after storing the parse results in order, starting from an empty tree. */
  ghost function CatalogOf(rs: seq<ParseResult>): (m: map<string, Course>)
    decreases |rs|
  {
    if rs == [] then map[]
    else Store(CatalogOf(rs[..|rs| - 1]), rs[|rs| - 1])
  }

  /** The catalog after loading `lines` into an empty tree. */
  ghost function LoadedCatalog(lines: seq<string>): (m: map<string, Course>)
  {
    CatalogOf(ParseAll(lines))
  }

  /** The warnings of a load: the trimmed text of each malformed line, in file order. */
  function Warnings(lines: seq<string>): (w: seq<string>)
    decreases |lines|
  {
    if lines == [] then []
    else
      var line := lines[|lines| - 1];
      Warnings(lines[..|lines| - 1]) + (if ParseLine(line).Malformed? then [Trim(line)] else [])
  }

  predicate RecordFor(r: ParseResult, k: string) {
    r.Record? && r.course.number == k
  }

  lemma {:induction false} CatalogOfKeys(rs: seq<ParseResult>, k: string)
    ensures k in CatalogOf(rs) <==> exists i :: 0 <= i < |rs| && RecordFor(rs[i], k)
    decreases |rs|
  {
    if rs != [] {
      var init := rs[..|rs| - 1];
      CatalogOfKeys(init, k);
      if exists i :: 0 <= i < |rs| && RecordFor(rs[i], k) {
        var i :| 0 <= i < |rs| && RecordFor(rs[i], k);
        if i < |init| {
          assert init[i] == rs[i];
        }
      }
      if exists i :: 0 <= i < |init| && RecordFor(init[i], k) {
        var i :| 0 <= i < |init| && RecordFor(init[i], k);
        assert rs[i] == init[i];
      }
    }
  }

  lemma {:induction false} CatalogOfFirst(rs: seq<ParseResult>, i: nat)
    requires i < |rs| && rs[i].Record?
    requires forall j :: 0 <= j < i ==> !RecordFor(rs[j], rs[i].course.number)
    ensures rs[i].course.number in CatalogOf(rs)
    ensures CatalogOf(rs)[rs[i].course.number] == rs[i].course
    decreases |rs|
  {
    var c := rs[i].course;
    var init := rs[..|rs| - 1];
    if i < |init| {
      assert init[i] == rs[i];
      forall j | 0 <= j < i ensures !RecordFor(init[j], c.number) {
        assert init[j] == rs[j];
      }
      CatalogOfFirst(init, i);
    } else {
      CatalogOfKeys(init, c.number);
      forall j | 0 <= j < |init| ensures !RecordFor(init[j], c.number) {
        assert init[j] == rs[j];
      }
    }
  }

  lemma {:induction false} CatalogOfEntries(rs: seq<ParseResult>)
    requires forall i :: 0 <= i < |rs| && rs[i].Record? ==> WellFormed(rs[i].course)
    ensures forall k :: k in CatalogOf(rs) ==> CatalogOf(rs)[k].number == k && WellFormed(CatalogOf(rs)[k])
    decreases |rs|
  {
    if rs != [] {
      var init := rs[..|rs| - 1];
      assert forall i :: 0 <= i < |init| ==> init[i] == rs[i];
      CatalogOfEntries(init);
    }
  }

  /** A number is loaded exactly when some line parses to a record with that number. */
  lemma LoadedKeys(lines: seq<string>, k: string)
    ensures k in LoadedCatalog(lines) <==>
      exists i :: 0 <= i < |lines| && ParseLine(lines[i]).Record? && ParseLine(lines[i]).course.number == k
  {
    var rs := ParseAll(lines);
    CatalogOfKeys(rs, k);
    if k in LoadedCatalog(lines) {
      var i :| 0 <= i < |rs| && RecordFor(rs[i], k);
      assert rs[i] == ParseLine(lines[i]);
    }
    if exists i :: 0 <= i < |lines| && ParseLine(lines[i]).Record? && ParseLine(lines[i]).course.number == k {
      var i :| 0 <= i < |lines| && ParseLine(lines[i]).Record? && ParseLine(lines[i]).course.number == k;
      assert rs[i] == ParseLine(lines[i]);
      assert RecordFor(rs[i], k);
    }
  }

  /** First write wins: the loaded course for a number is the record of the first line with it. */
  lemma LoadedFirstWins(lines: seq<string>, i: nat)
    requires i < |lines| && ParseLine(lines[i]).Record?
    requires forall j :: 0 <= j < i ==>
      !(ParseLine(lines[j]).Record? && ParseLine(lines[j]).course.number == ParseLine(lines[i]).course.number)
    ensures ParseLine(lines[i]).course.number in LoadedCatalog(lines)
    ensures LoadedCatalog(lines)[ParseLine(lines[i]).course.number] == ParseLine(lines[i]).course
  {
    var rs := ParseAll(lines);
    forall j | 0 <= j < i ensures !RecordFor(rs[j], rs[i].course.number) {
      assert rs[j] == ParseLine(lines[j]);
    }
    CatalogOfFirst(rs, i);
  }

  /** Every loaded entry is stored under its own number and is a well-formed record. */
  lemma LoadedWellFormed(lines: seq<string>)
    ensures forall k :: k in LoadedCatalog(lines) ==> LoadedCatalog(lines)[k].number == k && WellFormed(LoadedCatalog(lines)[k])
  {
    var rs := ParseAll(lines);
    forall i | 0 <= i < |rs| && rs[i].Record? ensures WellFormed(rs[i].course) {
      ParseLineRecord(lines[i]);
    }
    CatalogOfEntries(rs);
  }

  /** Loading one more line: its parse result is stored and its warning, if any, appended. */
  lemma LoadStep(lines: seq<string>, n: nat)
    requires n < |lines|
    ensures CatalogOf(ParseAll(lines)[..n + 1]) == Store(CatalogOf(ParseAll(lines)[..n]), ParseLine(lines[n]))
    ensures Warnings(lines[..n + 1]) ==
              Warnings(lines[..n]) + (if ParseLine(lines[n]).Malformed? then [Trim(lines[n])] else [])
  {
    var rs := ParseAll(lines);
    assert lines[..n + 1][..n] == lines[..n];
    assert rs[..n + 1][..n] == rs[..n];
    assert rs[..n + 1][n] == ParseLine(lines[n]);
  }

  /**
    `loadCoursesFromFile`. `source` is `None` when the file cannot be opened:
    the function then fails before `clear` and the tree is left as it was.
    Otherwise the tree is cleared and every line is parsed in turn; records
    are inserted and each malformed line yields one warning.
   */
  method LoadCourses(bst: CourseBST, source: Option<seq<string>>) returns (ok: bool, warnings: seq<string>)
    requires bst.Valid()
    modifies bst
    ensures bst.Valid()
    ensures ok <==> source.Some?
    ensures !ok ==> bst.root == old(bst.root) && bst.Catalog == old(bst.Catalog) && warnings == []
    ensures ok ==> bst.Catalog == LoadedCatalog(source.value) && warnings == Warnings(source.value)
  {
    if source.None? {
      return false, [];
    }
    var lines := source.value;
    ghost var rs := ParseAll(lines);
    bst.Clear();
    warnings := [];
    for n := 0 to |lines|
      invariant bst.Valid()
      invariant bst.Catalog == CatalogOf(rs[..n])
      invariant warnings == Warnings(lines[..n])
    {
      LoadStep(lines, n);
      var line := Trim(lines[n]);
      if line == [] {
        continue; // skip empty lines
      }
      var tokens := SplitCSV(line);
      if |tokens| < 2 {
        warnings := warnings + [line];
        continue;
      }
      var prereqs := CollectPrerequisites(tokens);
      var course := Course(Normalize(tokens[0]), Trim(tokens[1]), prereqs);
      assert ParseLine(lines[n]) == Record(course);
      bst.Insert(course);
    }
    assert lines[..|lines|] == lines;
    assert rs[..|rs|] == rs;
    ok := true;
  }
}
