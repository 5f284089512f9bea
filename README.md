# Course planner catalog (ProjectTwo.cpp) in Dafny

A model of the course planner in `ProjectTwo.cpp`. The planner:

- reads a comma-separated course file;
- keeps the courses in a binary search tree keyed by course number (`CourseBST`);
- lists them in ascending number order;
- answers detail queries that resolve each prerequisite against the catalog.

The model follows the program's own structure:

| module | file | models |
|---|---|---|
| `LexOrder` | `lex_order.dfy` | `std::string::operator<`, the tree's key order, proved a strict total order |
| `Text` | `text.dfy` | `trim` (only `' '`, `'\t'`, `'\r'`, `'\n'`), `toUpperCopy` (ASCII only), and `splitCSV` with the semantics of `std::getline(ss, token, ',')` |
| `CourseTree` | `course_tree.dfy` | `struct Course` and the recursive `insert`, `search` and `inorder` helpers, on a tree value |
| `CourseCatalog` | `course_bst.dfy` | `class CourseBST`: a class whose one mutable field `root` holds the tree, plus a ghost `Catalog` map that the tree stands for |
| `Loader` | `loader.dfy` | the body of `loadCoursesFromFile`: one line becomes `Skip`, `Malformed` or `Record`; the loader clears the tree and folds the lines into it |
| `Detail` | `detail.dfy` | `printCourseInformation`, returning `NotFound` or `Found` with each prerequisite `Resolved` or `Unresolved` |
| `WorkedExample` | `worked_example.dfy` | a two-line course file built around the record in the source's comment (ProjectTwo.cpp:20-25), loaded, listed and queried |

Printing becomes returned values:

- `PrintInOrder` returns `NoCoursesLoaded` or the `(number, title)` lines.
- `PrintCourseInformation` returns a `Detail`.
- `LoadCourses` returns its success flag and the text of each malformed line it would warn about.

The file is an `Option<seq<string>>`: `None` means the file could not be opened; otherwise it holds the lines `getline` would read.

`loadCoursesFromFile` returns `false` before it calls `clear()` (ProjectTwo.cpp:165-172), so the old tree is kept. `Loader.LoadCourses` states exactly that: on `None` it returns `false`, `root` and `Catalog` are unchanged and there are no warnings.

Other behaviour the contracts pin down:

- Duplicate numbers are ignored, so the first record wins (`CourseTree.InsertCatalog`, `Loader.LoadedFirstWins`).
- `splitCSV` yields no field for an empty line and drops a trailing empty field (`Text.JoinSplit`, `Text.SplitJoin`).
- Prerequisite codes are normalised and empty ones dropped, in order (`Loader.CollectPrerequisites`, `Loader.PrerequisitesMembers`).
- Queries ignore surrounding whitespace and ASCII case (`Detail.InformationIgnoresCase`).

## Model

| member | source | states |
|---|---|---|
| LexOrder.LessIrreflexive | ProjectTwo.cpp:62-66 | no course number is `<` itself, so an equal key falls through to the duplicate branch |
| LexOrder.LessAsymmetric | ProjectTwo.cpp:62-66 | `a < b` rules out `b < a`, so at most one of the two insert branches applies |
| LexOrder.LessTransitive | ProjectTwo.cpp:62-66 | the string order is transitive |
| LexOrder.LessTotal | ProjectTwo.cpp:62-68 | two numbers are equal, or one is `<` the other, so the three insert branches are exhaustive |
| LexOrder.LessIsStrictTotalOrder | ProjectTwo.cpp:62-66 | `operator<` on strings is a strict total order: irreflexive, transitive and total on distinct strings |
| LexOrder.LessCons | ProjectTwo.cpp:62 | a common first character does not change the order of two strings |
| Text.FindFirstNotOfSpec | ProjectTwo.cpp:136-137 | `find_first_not_of(" \t\r\n")` returns the first non-whitespace index at or after the start, and `npos` exactly when there is none |
| Text.FindLastNotOfSpec | ProjectTwo.cpp:140 | `find_last_not_of(" \t\r\n")` returns the last non-whitespace index, and `npos` exactly when there is none |
| Text.Trim | ProjectTwo.cpp:135-142 | the result is empty exactly when the input is all whitespace, and it never begins or ends with whitespace |
| Text.TrimIsSlice | ProjectTwo.cpp:141 | the trimmed string is a contiguous substring of the input with only whitespace cut away on both sides |
| Text.TrimOfPadded | ProjectTwo.cpp:135-142 | whitespace padding around a trimmed core is removed, and the core is kept exactly |
| Text.TrimIdempotent | ProjectTwo.cpp:135-142 | trimming twice is trimming once |
| Text.TrimOfTrimmed | ProjectTwo.cpp:135-142 | a string with no whitespace at its ends is returned unchanged |
| Text.ToUpper | ProjectTwo.cpp:145-149 | the copy has the input's length |
| Text.ToUpperAt | ProjectTwo.cpp:146-147 | each character of the copy is the ASCII upper-case image of the one at the same position |
| Text.ToUpperHasNoLower | ProjectTwo.cpp:144-149 | the copy holds no ASCII lower-case letter |
| Text.ToUpperIdempotent | ProjectTwo.cpp:145-149 | upper-casing an upper-cased copy changes nothing |
| Text.ToUpperCaseInsensitive | ProjectTwo.cpp:144-149 | two strings have the same upper-case copy exactly when they are equal ignoring ASCII case |
| Text.ToUpperKeepsSpace | ProjectTwo.cpp:145-149 | upper-casing neither creates nor removes whitespace, so a trimmed string stays trimmed |
| Text.CommaFrom | ProjectTwo.cpp:157 | the end of the field `getline` reads from a position: the first comma there or after, or the end of the line |
| Text.CommaFromUnique | ProjectTwo.cpp:157 | any index with no comma before it and a comma or the line end at it is that field end |
| Text.NextField | ProjectTwo.cpp:157 | `getline` resumes after the delimiter it consumed and always makes progress on a non-empty remainder |
| Text.FieldNoComma | ProjectTwo.cpp:157-158 | a token `getline` reads contains no comma |
| Text.SplitFromFields | ProjectTwo.cpp:157-159 | every token from a position on is comma-free, and there are none exactly when the position is the end of the line |
| Text.SplitFields | ProjectTwo.cpp:152-161 | every token of `splitCSV` is comma-free, and there are no tokens exactly for the empty line |
| Text.SplitNoComma | ProjectTwo.cpp:152-161 | a comma-free non-empty line is one token, and the empty line gives none |
| Text.SplitFromShift | ProjectTwo.cpp:157-159 | the tokens read from a suffix of a line are the tokens of that suffix on its own |
| Text.SplitCons | ProjectTwo.cpp:157-159 | a comma-free field followed by a comma and the rest splits into that field followed by the tokens of the rest |
| Text.JoinSplit | ProjectTwo.cpp:152-161 | joining the tokens with `','` rebuilds the line, except for a final comma, which `getline` drops along with the empty field after it |
| Text.SplitJoin | ProjectTwo.cpp:152-161 | comma-free fields whose last one is non-empty, joined by `','`, split back into exactly those fields |
| Text.GetLine | ProjectTwo.cpp:157 | one `getline(ss, token, ',')` call: the token is the text up to the next comma or the end, and the stream resumes after the delimiter |
| Text.SplitCSV | ProjectTwo.cpp:152-161 | the `while (getline(...)) push_back` loop returns exactly the tokens of `Split`, in order |
| CourseTree.Get | ProjectTwo.cpp:83-95 | the lookup by structure that `search` is proved against (it computes nothing of the source itself): the course found under a stored key carries that key as its number |
| CourseTree.NodeKeysDisjoint | ProjectTwo.cpp:62-65 | in a search tree, a key in one subtree is neither the node's key nor in the other subtree |
| CourseTree.Insert | ProjectTwo.cpp:57-70 | insertion keeps the search-tree order and adds the new number to the keys; a number already present leaves the tree as it was |
| CourseTree.InsertKeeps | ProjectTwo.cpp:57-70 | every course already stored keeps its record after an insert |
| CourseTree.InsertStores | ProjectTwo.cpp:58-65 | a new number is stored with the inserted course |
| CourseTree.InsertGet | ProjectTwo.cpp:57-70 | after inserting a new number, each key maps to the inserted course or to what it mapped to before |
| CourseTree.InsertCatalog | ProjectTwo.cpp:57-70 | as a map, insert adds a new number and ignores a duplicate: the first record stored under a number wins |
| CourseTree.Search | ProjectTwo.cpp:83-95 | `search` finds a node exactly when the number is stored, and the course it finds is the stored one |
| CourseTree.SortedConcat | ProjectTwo.cpp:77-79 | left subtree, node, right subtree, each in order and separated by the node key, are in order together |
| CourseTree.InOrderStored | ProjectTwo.cpp:73-80 | every course `inorder` visits is the record stored under its number |
| CourseTree.InOrderComplete | ProjectTwo.cpp:73-80 | every stored number is visited |
| CourseTree.InOrderSorted | ProjectTwo.cpp:72-80 | `inorder` visits the numbers in strictly ascending order |
| CourseTree.InOrderLength | ProjectTwo.cpp:73-80 | `inorder` visits exactly one course per stored number |
| CourseCatalog.EntriesOfListing | ProjectTwo.cpp:116-122 | the lines of a sorted, complete traversal are sorted by number, carry each stored title and cover every stored number |
| CourseCatalog.CourseBST.constructor | ProjectTwo.cpp:98 | a new tree has a null root and an empty catalog |
| CourseCatalog.CourseBST.Clear | ProjectTwo.cpp:105-108 | after `clear` the root is null and the catalog is empty |
| CourseCatalog.CourseBST.Insert | ProjectTwo.cpp:111-113 | the public insert keeps the tree valid, adds a new number with its course, and leaves a duplicate's tree and catalog unchanged |
| CourseCatalog.CourseBST.Find | ProjectTwo.cpp:125-127 | `find` returns a course exactly when its argument is a stored number, and then the course stored under it |
| CourseCatalog.CourseBST.IsEmpty | ProjectTwo.cpp:129-131 | the root is null exactly when the catalog is empty |
| CourseCatalog.CourseBST.InOrder | ProjectTwo.cpp:73-80 | the traversal has one course per stored number, strictly sorted by number, each the stored record, and covers every number |
| CourseCatalog.CourseBST.PrintInOrder | ProjectTwo.cpp:116-122 | "No courses loaded." exactly when the catalog is empty; otherwise one `number, title` line per stored course, strictly ascending, covering every number |
| Loader.NormalizeShape | ProjectTwo.cpp:189 | `toUpperCopy(trim(s))` is trimmed with no ASCII lower-case letter, and empty exactly when `s` is all whitespace |
| Loader.NormalizedIsFixpoint | ProjectTwo.cpp:189 | the normalised strings are exactly those that normalisation leaves unchanged |
| Loader.NormalizeIdempotent | ProjectTwo.cpp:210 | normalising an already normalised key does nothing, so query keys and stored numbers meet |
| Loader.NormalizeCaseInsensitive | ProjectTwo.cpp:144 | two inputs normalise alike exactly when their trimmed forms are equal ignoring ASCII case |
| Loader.NormalizeAll | ProjectTwo.cpp:193-194 | one code per field |
| Loader.NonEmptyMembers | ProjectTwo.cpp:195-196 | dropping empty codes keeps exactly the non-empty ones, and there are no more than before |
| Loader.NonEmptyConcat | ProjectTwo.cpp:193-198 | dropping empty codes distributes over concatenation |
| Loader.PrerequisitesNormalized | ProjectTwo.cpp:193-198 | every stored prerequisite is non-empty and normalised, and there are no more of them than fields |
| Loader.PrerequisitesMembers | ProjectTwo.cpp:193-198 | a code is a stored prerequisite exactly when it is non-empty and is the normalised form of some field from the third on |
| Loader.PrerequisitesConcat | ProjectTwo.cpp:193-198 | the prerequisite filter works field by field and keeps the file's order |
| Loader.PrerequisitesIdentity | ProjectTwo.cpp:193-198 | fields that are already non-empty normalised codes pass through unchanged |
| Loader.CollectStep | ProjectTwo.cpp:194-197 | one loop turn appends the field's code unless it normalises to empty |
| Loader.CollectPrerequisites | ProjectTwo.cpp:193-198 | the prerequisite loop returns exactly the non-empty normalised fields from the third on, in order |
| Loader.ParseLineSkip | ProjectTwo.cpp:176-179 | a line is skipped exactly when it is all whitespace |
| Loader.SplitOneField | ProjectTwo.cpp:181-182 | a non-empty trimmed line has fewer than two tokens exactly when it has no comma, or its only comma is the last character |
| Loader.ParseLineMalformed | ProjectTwo.cpp:181-186 | a line draws the "Invalid line" warning exactly when, after trimming, it is non-empty and one field |
| Loader.ParseLineRecord | ProjectTwo.cpp:188-198 | every record has a normalised comma-free number, a trimmed comma-free title and non-empty normalised comma-free prerequisites |
| Loader.NoCommaTrim | ProjectTwo.cpp:190 | trimming a comma-free token keeps it comma-free |
| Loader.NoCommaNormalize | ProjectTwo.cpp:189 | normalising a comma-free token keeps it comma-free |
| Loader.JoinEnds | ProjectTwo.cpp:152-161 | a joined line of two or more fields begins with the first field's first character (or a comma) and ends with the last field's last character |
| Loader.ParseFormat | ProjectTwo.cpp:176-198 | writing a well-formed record as a line and parsing it gives the record back, if the line does not end in an empty field |
| Loader.ParseAll | ProjectTwo.cpp:175 | one parse result per line |
| Loader.CatalogOfKeys | ProjectTwo.cpp:175-201 | after storing parse results in order, a number is present exactly when some result is a record with that number |
| Loader.CatalogOfFirst | ProjectTwo.cpp:200 | the stored course for a number is the first record with it |
| Loader.CatalogOfEntries | ProjectTwo.cpp:188-200 | if every record is well formed, every stored entry is well formed and stored under its own number |
| Loader.LoadedKeys | ProjectTwo.cpp:172-201 | after a load, a number is in the catalog exactly when some line of the file parses to a record with that number |
| Loader.LoadedFirstWins | ProjectTwo.cpp:200 | the loaded course under a number is the record of the first line with that number; later duplicates are ignored |
| Loader.LoadedWellFormed | ProjectTwo.cpp:188-200 | every loaded course is stored under its own number and is a well-formed record |
| Loader.LoadStep | ProjectTwo.cpp:175-201 | loading one more line stores its parse result and appends its warning, if any |
| Loader.LoadCourses | ProjectTwo.cpp:164-206 | succeeds exactly when the file opens; on failure returns false before `clear`, leaving tree and catalog unchanged; on success the catalog is the fold of the parsed lines over an empty tree, and the warnings are the malformed lines, in order |
| Detail.PrintCourseInformation | ProjectTwo.cpp:209-248 | through `find` on the tree: "not found" with the normalised key exactly when that key is not stored; otherwise the stored course and, for each of its prerequisites in order, its code, resolved with the stored title exactly when the code is stored, which is the answer `Information` specifies for the catalog |
| Detail.InformationIgnoresCase | ProjectTwo.cpp:210 | inputs equal after trimming and ignoring ASCII case get the same answer |
| Detail.InformationAfterLoad | ProjectTwo.cpp:164-248 | after a load, a query finds a course exactly when some line parsed to a record with the normalised key, and the course found is well formed under that key |
| WorkedExample.ParseDataStructures | ProjectTwo.cpp:20-25 | `csci200, Data Structures, csci101` parses to `CSCI200`, `Data Structures`, `[CSCI101]` |
| WorkedExample.ParseIntroProgramming | ProjectTwo.cpp:176-198 | `CSCI101,Intro to Programming` parses to a record with no prerequisites |
| WorkedExample.LoadExample | ProjectTwo.cpp:164-206 | loading the two-line file stores both courses under their normalised numbers |
| WorkedExample.WarningsExample | ProjectTwo.cpp:181-186 | the example file draws no warning |
| WorkedExample.QueryExample | ProjectTwo.cpp:209-248 | querying `CSCI200` resolves its prerequisite to `Intro to Programming` |
| WorkedExample.UnresolvedExample | ProjectTwo.cpp:238-241 | a prerequisite missing from the catalog is reported by its bare code, in its place |
| WorkedExample.CaseInsensitiveExample | ProjectTwo.cpp:210 | `  CsCi200  ` and `csci200` get the same answer as `CSCI200` |
| WorkedExample.ListingExample | ProjectTwo.cpp:116-122 | the only sorted, complete listing of the example catalog is `CSCI101` and then `CSCI200` |
| WorkedExample.ExampleSession | ProjectTwo.cpp:164-248 | load, list and query on a new tree give success with no warnings, the two lines in order, and the resolved detail for `CSCI200` |

## Left out

- `main` and `readMenuChoice` (ProjectTwo.cpp:251 onward) are left out. They are the interactive menu: console input, menu dispatch and integer parsing around the core.
- File I/O is left out. Opening, reading and closing the file become the `Option<seq<string>>` parameter of `Loader.LoadCourses`, whose lines are what `getline` would return.
- Console output is left out. Every `cout` line becomes a returned value: the `Listing`, the `Detail` or the warnings. Message wording and separators such as `" | "` and `"Prerequisites: None"` are not modelled.
- `destroyTree` and the destructor are left out. Memory management has no counterpart here; `CourseBST.Clear` just drops the tree.
- The heap `Node` pointers are left out. The tree is a datatype held in the class's `root` field, so in-place relinking of child pointers and pointer aliasing are not modelled. `CourseBST.Find` returns the stored `Course` rather than a pointer to its node.
- Text.UpperChar: `std::toupper` is modelled for ASCII letters only. Its locale-dependent behaviour on other characters of the current C locale is not modelled.
- Characters are Dafny `char`s: `Less` compares them by code point. The file's bytes, the signedness of `char` and any encoding are not modelled.
- Integer widths are not modelled. `size_t` indices and the `npos` sentinel are unbounded naturals and `Option`, which is exact for strings that fit in memory.
