/**
  The course record and the unbalanced binary search tree of `CourseBST`
  (ProjectTwo.cpp), as values: `Leaf` plays the null pointer and each
  `Node` owns its two children.
 */
module CourseTree {
  import opened Wrappers
  import opened LexOrder

  /** `struct Course`: number (the key), title, prerequisite numbers. */
  datatype Course = Course(number: string, title: string, prerequisites: seq<string>)

  datatype Tree = Leaf | Node(left: Tree, course: Course, right: Tree)

  /** The course numbers stored in a tree. */
  function Keys(t: Tree): set<string>
  {
    match t
    case Leaf => {}
    case Node(l, c, r) => Keys(l) + {c.number} + Keys(r)
  }

  /** The BST ordering: left keys are `Less` than the node's, right keys greater. */
  predicate IsBST(t: Tree)
  {
    match t
    case Leaf => true
    case Node(l, c, r) =>
      && IsBST(l) && IsBST(r)
      && (forall k :: k in Keys(l) ==> Less(k, c.number))
      && (forall k :: k in Keys(r) ==> Less(c.number, k))
  }

  /**
    The course stored under key `k`, found by structure rather than by
    ordering. The source computes nothing like it: it is the abstraction
    behind `AsMap` that the `search` helper is proved against.
   */
  function Get(t: Tree, k: string): (c: Course)
    requires k in Keys(t)
    ensures c.number == k
  {
    match t
    case Node(l, x, r) =>
      if k in Keys(l) then Get(l, k)
      else if k == x.number then x
      else Get(r, k)
  }

  /** The catalog a tree stands for: each stored number mapped to its course. */
  ghost function AsMap(t: Tree): (m: map<string, Course>)
  {
    map k | k in Keys(t) :: Get(t, k)
  }

  /** In a BST, the three parts of a node have disjoint keys. */
  lemma NodeKeysDisjoint(t: Tree, k: string)
    requires IsBST(t) && t.Node?
    ensures k in Keys(t.left) ==> k != t.course.number && k !in Keys(t.right)
    ensures k in Keys(t.right) ==> k != t.course.number && k !in Keys(t.left)
  {
    var n := t.course.number;
    LessIrreflexive(n);
    LessAsymmetric(k, n);
  }

  /**
    The recursive `insert` helper. A new key is placed at a leaf where the
    ordering puts it; a key already present leaves the tree as it was, so
    the first record stored under a number wins.
   */
  function Insert(t: Tree, c: Course): (r: Tree)
    requires IsBST(t)
    ensures IsBST(r)
    ensures Keys(r) == Keys(t) + {c.number}
    ensures c.number in Keys(t) ==> r == t
  {
    match t
    case Leaf => Node(Leaf, c, Leaf)
    case Node(l, x, rt) =>
      NodeKeysDisjoint(t, c.number);
      LessIrreflexive(x.number);
      LessAsymmetric(c.number, x.number);
      if Less(c.number, x.number) then
        Node(Insert(l, c), x, rt)
      else if Less(x.number, c.number) then
        Node(l, x, Insert(rt, c))
      else
        LessTotal(c.number, x.number);
        t
  }

  /** Insertion keeps every course already stored under its number. */
  lemma {:induction false} InsertKeeps(t: Tree, c: Course, k: string)
    requires IsBST(t) && k in Keys(t)
    ensures Get(Insert(t, c), k) == Get(t, k)
  {
    var Node(l, x, rt) := t;
    NodeKeysDisjoint(t, k);
    NodeKeysDisjoint(t, c.number);
    LessIrreflexive(x.number);
    LessAsymmetric(c.number, x.number);
    if Less(c.number, x.number) {
      if k in Keys(l) {
        InsertKeeps(l, c, k);
      }
    } else if Less(x.number, c.number) {
      if k in Keys(rt) {
        InsertKeeps(rt, c, k);
      }
    }
  }

  /** A new number is stored with the inserted course. */
  lemma {:induction false} InsertStores(t: Tree, c: Course)
    requires IsBST(t) && c.number !in Keys(t)
    ensures Get(Insert(t, c), c.number) == c
  {
    if t.Node? {
      var Node(l, x, rt) := t;
      LessAsymmetric(c.number, x.number);
      if Less(c.number, x.number) {
        InsertStores(l, c);
      } else {
        LessTotal(c.number, x.number);
        InsertStores(rt, c);
      }
    }
  }

  /** After inserting a new number, each key maps to the new course or to what it mapped to before. */
  lemma InsertGet(t: Tree, c: Course, k: string)
    requires IsBST(t) && c.number !in Keys(t) && k in Keys(t) + {c.number}
    ensures Get(Insert(t, c), k) == if k == c.number then c else Get(t, k)
  {
    if k == c.number {
      InsertStores(t, c);
    } else {
      InsertKeeps(t, c, k);
    }
  }

  /** Inserting adds a new course to the catalog and leaves an existing entry as it was. */
  lemma InsertCatalog(t: Tree, c: Course)
    requires IsBST(t)
    ensures AsMap(Insert(t, c)) == if c.number in AsMap(t) then AsMap(t) else AsMap(t)[c.number := c]
  {
    var m := AsMap(t);
    assert m.Keys == Keys(t);
    if c.number !in Keys(t) {
      var m' := AsMap(Insert(t, c));
      forall k | k in Keys(t) + {c.number} ensures m'[k] == m[c.number := c][k] {
        InsertGet(t, c, k);
      }
      assert m' == m[c.number := c];
    }
  }

  /** The recursive `search` helper; `None` plays the null pointer. */
  function Search(t: Tree, k: string): (r: Option<Course>)
    requires IsBST(t)
    ensures r.Some? <==> k in Keys(t)
    ensures r.Some? ==> r.value == Get(t, k)
  {
    match t
    case Leaf => None
    case Node(l, x, rt) =>
      NodeKeysDisjoint(t, k);
      if k == x.number then Some(x)
      else if Less(k, x.number) then
        LessAsymmetric(k, x.number);
        Search(l, k)
      else
        LessTotal(k, x.number);
        Search(rt, k)
  }

  /** The sequence of courses the `inorder` helper visits. */
  function InOrder(t: Tree): (cs: seq<Course>)
  {
    match t
    case Leaf => []
    case Node(l, c, r) => InOrder(l) + [c] + InOrder(r)
  }

  /** Course numbers strictly ascending in the `Less` order. */
  predicate SortedByNumber(cs: seq<Course>)
  {
    forall i, j :: 0 <= i < j < |cs| ==> Less(cs[i].number, cs[j].number)
  }

  lemma SortedConcat(a: seq<Course>, x: Course, b: seq<Course>)
    requires SortedByNumber(a) && SortedByNumber(b)
    requires forall i :: 0 <= i < |a| ==> Less(a[i].number, x.number)
    requires forall i :: 0 <= i < |b| ==> Less(x.number, b[i].number)
    ensures SortedByNumber(a + [x] + b)
  {
    var s := a + [x] + b;
    forall i, j | 0 <= i < j < |s| ensures Less(s[i].number, s[j].number) {
      if i < |a| && j > |a| {
        LessTransitive(s[i].number, x.number, s[j].number);
      }
    }
  }

  /** Every visited course is the one the catalog stores under its number. */
  lemma {:induction false} InOrderStored(t: Tree)
    requires IsBST(t)
    ensures forall i :: 0 <= i < |InOrder(t)| ==> InOrder(t)[i].number in Keys(t)
    ensures forall i :: 0 <= i < |InOrder(t)| ==> Get(t, InOrder(t)[i].number) == InOrder(t)[i]
  {
    if t.Node? {
      InOrderStored(t.left);
      InOrderStored(t.right);
      var cs := InOrder(t);
      var nl := |InOrder(t.left)|;
      forall i | 0 <= i < |cs|
        ensures cs[i].number in Keys(t) && Get(t, cs[i].number) == cs[i]
      {
        NodeKeysDisjoint(t, cs[i].number);
        if i < nl {
          assert cs[i] == InOrder(t.left)[i];
        } else if i > nl {
          assert cs[i] == InOrder(t.right)[i - nl - 1];
        }
      }
    }
  }

  /** Every stored number is visited. */
  lemma {:induction false} InOrderComplete(t: Tree, k: string)
    requires k in Keys(t)
    ensures exists i :: 0 <= i < |InOrder(t)| && InOrder(t)[i].number == k
  {
    var Node(l, c, r) := t;
    var nl := |InOrder(l)|;
    if k in Keys(l) {
      InOrderComplete(l, k);
      var i :| 0 <= i < |InOrder(l)| && InOrder(l)[i].number == k;
      assert InOrder(t)[i] == InOrder(l)[i];
    } else if k == c.number {
      assert InOrder(t)[nl] == c;
    } else {
      InOrderComplete(r, k);
      var i :| 0 <= i < |InOrder(r)| && InOrder(r)[i].number == k;
      assert InOrder(t)[nl + 1 + i] == InOrder(r)[i];
    }
  }

  /** In-order traversal of a BST lists the numbers strictly ascending. */
  lemma {:induction false} InOrderSorted(t: Tree)
    requires IsBST(t)
    ensures SortedByNumber(InOrder(t))
  {
    if t.Node? {
      InOrderSorted(t.left);
      InOrderSorted(t.right);
      InOrderStored(t.left);
      InOrderStored(t.right);
      SortedConcat(InOrder(t.left), t.course, InOrder(t.right));
    }
  }

  lemma DisjointUnion<T>(a: set<T>, b: set<T>)
    requires forall x :: x in a ==> x !in b
    ensures |a + b| == |a| + |b|
  {
    assert a * b == {};
  }

  /** One visited course per stored key. */
  lemma {:induction false} InOrderLength(t: Tree)
    requires IsBST(t)
    ensures |InOrder(t)| == |Keys(t)|
  {
    if t.Node? {
      InOrderLength(t.left);
      InOrderLength(t.right);
      var kl, kr, n := Keys(t.left), Keys(t.right), t.course.number;
      forall k | k in kl ensures k != n {
        NodeKeysDisjoint(t, k);
      }
      forall k | k in kl + {n} ensures k !in kr {
        NodeKeysDisjoint(t, k);
      }
      DisjointUnion(kl, {n});
      DisjointUnion(kl + {n}, kr);
    }
  }
}
