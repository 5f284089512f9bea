/**
  `printCourseInformation` (ProjectTwo.cpp): the course looked up under the
  normalised input, and each of its prerequisites resolved against the
  catalog at query time. What the function prints is returned as a value.
 */
module Detail {
  import opened Text
  import opened CourseTree
  import opened CourseCatalog
  import opened Loader

  /** One prerequisite as printed: `number, title` when the catalog has it, the bare code otherwise. */
  datatype PrereqInfo = Resolved(code: string, title: string) | Unresolved(code: string)

  /** The outcome of a detail query: "Course <key> not found.", or the course and its prerequisites. */
  datatype Detail = NotFound(key: string) | Found(course: Course, prereqs: seq<PrereqInfo>)

  /** How one prerequisite code is shown, given the catalog. */
  function Resolve(catalog: map<string, Course>, code: string): (p: PrereqInfo)
    ensures p.code == code
    ensures p.Resolved? <==> code in catalog
    ensures p.Resolved? ==> p.title == catalog[code].title
  {
    if code in catalog then Resolved(code, catalog[code].title) else Unresolved(code)
  }

  /**
    The answer the query gives for `input` against `catalog`: not found
    under the normalised key, or the stored course with every prerequisite
    resolved, in the course's own order.
   */
  function Information(catalog: map<string, Course>, input: string): (d: Detail)
  {
    var key := Normalize(input);
    if key !in catalog then NotFound(key)
    else
      var course := catalog[key];
      var ps := course.prerequisites;
      Found(course, seq(|ps|, i requires 0 <= i < |ps| => Resolve(catalog, ps[i])))
  }

  /**
    `printCourseInformation`: find the course, then walk its prerequisites
    in order, looking each one up in the tree.
   */
  method PrintCourseInformation(bst: CourseBST, courseNumber: string) returns (d: Detail)
    requires bst.Valid()
    ensures d == Information(bst.Catalog, courseNumber)
    ensures d.NotFound? <==> Normalize(courseNumber) !in bst.Catalog
    ensures d.NotFound? ==> d.key == Normalize(courseNumber)
    ensures d.Found? ==> d.course == bst.Catalog[Normalize(courseNumber)]
    ensures d.Found? ==> |d.prereqs| == |d.course.prerequisites|
    ensures d.Found? ==> forall i :: 0 <= i < |d.prereqs| ==>
              && d.prereqs[i].code == d.course.prerequisites[i]
              && (d.prereqs[i].Resolved? <==> d.course.prerequisites[i] in bst.Catalog)
              && (d.prereqs[i].Resolved? ==> d.prereqs[i].title == bst.Catalog[d.course.prerequisites[i]].title)
  {
    var key := Normalize(courseNumber);
    var node := bst.Find(key);
    if node.None? {
      return NotFound(key);
    }
    var mainCourse := node.value;
    var ps := mainCourse.prerequisites;
    var shown: seq<PrereqInfo> := [];
    for i := 0 to |ps|
      invariant |shown| == i
      invariant forall j :: 0 <= j < i ==> shown[j] == Resolve(bst.Catalog, ps[j])
    {
      var prereqNode := bst.Find(ps[i]);
      if prereqNode.Some? {
        shown := shown + [Resolved(prereqNode.value.number, prereqNode.value.title)];
      } else {
        shown := shown + [Unresolved(ps[i])];
      }
    }
    d := Found(mainCourse, shown);
  }

  /** The query ignores surrounding whitespace and ASCII case in its input. */
  lemma InformationIgnoresCase(catalog: map<string, Course>, a: string, b: string)
    requires EqualIgnoringCase(Trim(a), Trim(b))
    ensures Information(catalog, a) == Information(catalog, b)
  {
    NormalizeCaseInsensitive(a, b);
  }

  /**
    After a load, a query finds a course exactly when some line of the file
    parsed to a record with the normalised key; the course found carries
    that key as its number and is a well-formed record (so each of its
    prerequisites is a non-empty normalised code).
   */
  lemma InformationAfterLoad(lines: seq<string>, input: string)
    ensures Information(LoadedCatalog(lines), input).Found? <==>
              exists i :: 0 <= i < |lines| && ParseLine(lines[i]).Record? &&
                          ParseLine(lines[i]).course.number == Normalize(input)
    ensures Information(LoadedCatalog(lines), input).Found? ==>
              && Information(LoadedCatalog(lines), input).course.number == Normalize(input)
              && WellFormed(Information(LoadedCatalog(lines), input).course)
  {
    LoadedKeys(lines, Normalize(input));
    LoadedWellFormed(lines);
  }
}
