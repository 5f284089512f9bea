/**
  `class CourseBST` (ProjectTwo.cpp): the catalog object the loader fills
  and the queries read. Its one mutable field is `root`; the ghost field
  `Catalog` is the key-to-course map the tree stands for.
 */
module CourseCatalog {
  import opened Wrappers
  import opened LexOrder
  import opened CourseTree

  /** What `printInOrder` reports: the empty-catalog message, or the lines it prints. */
  datatype Listing = NoCoursesLoaded | Lines(entries: seq<(string, string)>)

  /** The `(number, title)` pairs of a sequence of courses. */
  function Entries(cs: seq<Course>): (es: seq<(string, string)>)
    ensures |es| == |cs|
    ensures forall i :: 0 <= i < |cs| ==> es[i] == (cs[i].number, cs[i].title)
  {
    seq(|cs|, i requires 0 <= i < |cs| => (cs[i].number, cs[i].title))
  }

  /**
    The entries of a sorted, complete listing of `catalog` are themselves
    sorted by number, carry each stored title, and cover every key.
   */
  lemma EntriesOfListing(cs: seq<Course>, catalog: map<string, Course>)
    requires SortedByNumber(cs)
    requires forall i :: 0 <= i < |cs| ==> cs[i].number in catalog && catalog[cs[i].number] == cs[i]
    requires forall k :: k in catalog ==> exists i :: 0 <= i < |cs| && cs[i].number == k
    ensures forall i, j :: 0 <= i < j < |Entries(cs)| ==> Less(Entries(cs)[i].0, Entries(cs)[j].0)
    ensures forall i :: 0 <= i < |Entries(cs)| ==>
              Entries(cs)[i].0 in catalog && Entries(cs)[i].1 == catalog[Entries(cs)[i].0].title
    ensures forall k :: k in catalog ==> exists i :: 0 <= i < |Entries(cs)| && Entries(cs)[i].0 == k
  {
    var es := Entries(cs);
    forall k | k in catalog ensures exists i :: 0 <= i < |es| && es[i].0 == k {
      var i :| 0 <= i < |cs| && cs[i].number == k;
      assert es[i].0 == k;
    }
  }

  class CourseBST {
    var root: Tree
    ghost var Catalog: map<string, Course>

    /** The BST ordering holds and `Catalog` is what the tree stores. */
    ghost predicate Valid()
      reads this
    {
      IsBST(root) && Catalog == AsMap(root)
    }

    /** `CourseBST() : root(nullptr)`. */
    constructor ()
      ensures Valid() && root == Leaf && Catalog == map[]
    {
      root := Leaf;
      Catalog := map[];
    }

    /** `clear`: the nodes are dropped and `root` is null again. */
    method Clear()
      modifies this
      ensures Valid() && root == Leaf && Catalog == map[]
    {
      root := Leaf;
      Catalog := map[];
    }

    /** Public `insert`: `root = insert(root, course)`; a known number is ignored. */
    method Insert(course: Course)
      requires Valid()
      modifies this
      ensures Valid()
      ensures Catalog == if course.number in old(Catalog) then old(Catalog)
                         else old(Catalog)[course.number := course]
      ensures course.number in old(Catalog) ==> root == old(root)
    {
      InsertCatalog(root, course);
      root := CourseTree.Insert(root, course);
      Catalog := if course.number in Catalog then Catalog else Catalog[course.number := course];
    }

    /** `find`: the course stored under exactly `courseNumber`, or `None` (a null pointer). */
    function Find(courseNumber: string): (r: Option<Course>)
      reads this
      requires Valid()
      ensures r.Some? <==> courseNumber in Catalog
      ensures r.Some? ==> r.value == Catalog[courseNumber] && r.value.number == courseNumber
    {
      Search(root, courseNumber)
    }

    /** `isEmpty`: the root is null exactly when nothing is stored. */
    predicate IsEmpty()
      reads this
      requires Valid()
      ensures IsEmpty() <==> Catalog == map[]
    {
      assert root.Node? ==> root.course.number in Catalog;
      root == Leaf
    }

    /** The courses in the order the `inorder` helper visits them. */
    function InOrder(): (cs: seq<Course>)
      reads this
      requires Valid()
      ensures |cs| == |Catalog|
      ensures SortedByNumber(cs)
      ensures forall i :: 0 <= i < |cs| ==> cs[i].number in Catalog && Catalog[cs[i].number] == cs[i]
      ensures forall k :: k in Catalog ==> exists i :: 0 <= i < |cs| && cs[i].number == k
    {
      var cs := CourseTree.InOrder(root);
      InOrderLength(root);
      InOrderSorted(root);
      InOrderStored(root);
      forall k | k in Catalog ensures exists i :: 0 <= i < |cs| && cs[i].number == k {
        InOrderComplete(root, k);
      }
      assert Catalog.Keys == Keys(root);
      cs
    }

    /**
      `printInOrder`: "No courses loaded." on an empty tree, otherwise one
      `number, title` line per course in ascending number order.
     */
    method PrintInOrder() returns (r: Listing)
      requires Valid()
      ensures r.NoCoursesLoaded? <==> Catalog == map[]
      ensures r.Lines? ==> |r.entries| == |Catalog|
      ensures r.Lines? ==> forall i, j :: 0 <= i < j < |r.entries| ==> Less(r.entries[i].0, r.entries[j].0)
      ensures r.Lines? ==> forall i :: 0 <= i < |r.entries| ==>
                r.entries[i].0 in Catalog && r.entries[i].1 == Catalog[r.entries[i].0].title
      ensures r.Lines? ==> forall k :: k in Catalog ==> exists i :: 0 <= i < |r.entries| && r.entries[i].0 == k
    {
      if IsEmpty() {
        return NoCoursesLoaded;
      }
      var cs := InOrder();
      var es := Entries(cs);
      EntriesOfListing(cs, Catalog);
      r := Lines(es);
    }
  }
}
