/**
  The text helpers of the loader: whitespace trimming, ASCII upper-casing
  and comma splitting with the semantics of `std::getline(ss, token, ',')`.
 */
module Text {
  import opened Wrappers

  /** The characters `trim` removes: `" \t\r\n"`. */
  predicate IsSpace(c: char) {
    c == ' ' || c == '\t' || c == '\r' || c == '\n'
  }

  predicate AllSpace(s: string) {
    forall i :: 0 <= i < |s| ==> IsSpace(s[i])
  }

  /** A string with no removable whitespace at either end. */
  predicate Trimmed(s: string) {
    s == [] || (!IsSpace(s[0]) && !IsSpace(s[|s| - 1]))
  }

  /** `s.find_first_not_of(" \t\r\n", pos)`; `None` plays `npos`. */
  function FindFirstNotOf(s: string, pos: nat): (r: Option<nat>)
    requires pos <= |s|
    decreases |s| - pos
  {
    if pos == |s| then None
    else if !IsSpace(s[pos]) then Some(pos)
    else FindFirstNotOf(s, pos + 1)
  }

  /** The search finds the first non-space at or after `pos`, or reports that there is none. */
  lemma {:induction false} FindFirstNotOfSpec(s: string, pos: nat)
    requires pos <= |s|
    ensures FindFirstNotOf(s, pos).None? <==> forall j :: pos <= j < |s| ==> IsSpace(s[j])
    ensures FindFirstNotOf(s, pos).Some? ==>
              var k := FindFirstNotOf(s, pos).value;
              pos <= k < |s| && !IsSpace(s[k]) && forall j :: pos <= j < k ==> IsSpace(s[j])
    decreases |s| - pos
  {
    if pos < |s| && IsSpace(s[pos]) {
      FindFirstNotOfSpec(s, pos + 1);
    }
  }

  /** `s.find_last_not_of(" \t\r\n")` restricted to the indices below `n`. */
  function FindLastNotOf(s: string, n: nat): (r: Option<nat>)
    requires n <= |s|
    decreases n
  {
    if n == 0 then None
    else if !IsSpace(s[n - 1]) then Some(n - 1)
    else FindLastNotOf(s, n - 1)
  }

  /** The search finds the last non-space below `n`, or reports that there is none. */
  lemma {:induction false} FindLastNotOfSpec(s: string, n: nat)
    requires n <= |s|
    ensures FindLastNotOf(s, n).None? <==> forall j :: 0 <= j < n ==> IsSpace(s[j])
    ensures FindLastNotOf(s, n).Some? ==>
              var k := FindLastNotOf(s, n).value;
              k < n && !IsSpace(s[k]) && forall j :: k < j < n ==> IsSpace(s[j])
    decreases n
  {
    if n > 0 && IsSpace(s[n - 1]) {
      FindLastNotOfSpec(s, n - 1);
    }
  }

  /** `trim` (ProjectTwo.cpp): the substring between the first and the last non-space. */
  function Trim(s: string): (r: string)
    ensures r == [] <==> AllSpace(s)
    ensures Trimmed(r)
  {
    FindFirstNotOfSpec(s, 0);
    FindLastNotOfSpec(s, |s|);
    match FindFirstNotOf(s, 0)
    case None => []
    case Some(start) =>
      var end := FindLastNotOf(s, |s|).value;
      s[start..end + 1]
  }

  /** `trim` returns a contiguous piece of its input, cut where whitespace ends; `i` is where it starts. */
  lemma TrimIsSlice(s: string) returns (i: nat)
    ensures i + |Trim(s)| <= |s| && Trim(s) == s[i..i + |Trim(s)|]
    ensures AllSpace(s[..i]) && AllSpace(s[i + |Trim(s)|..])
  {
    var r := Trim(s);
    FindFirstNotOfSpec(s, 0);
    FindLastNotOfSpec(s, |s|);
    match FindFirstNotOf(s, 0)
    case None =>
      i := 0;
      assert r == [];
      assert s[..0] == [] && s[0..] == s;
    case Some(start) =>
      i := start;
      var end := FindLastNotOf(s, |s|).value;
      assert r == s[start..end + 1];
      assert end + 1 == start + |r|;
      var before, after := s[..start], s[end + 1..];
      forall j | 0 <= j < |before| ensures IsSpace(before[j]) { assert before[j] == s[j]; }
      forall j | 0 <= j < |after| ensures IsSpace(after[j]) { assert after[j] == s[end + 1 + j]; }
  }

  /** Trimming is determined by the decomposition whitespace + core + whitespace. */
  lemma TrimOfPadded(a: string, m: string, b: string)
    requires AllSpace(a) && AllSpace(b) && Trimmed(m)
    ensures Trim(a + m + b) == m
  {
    var s := a + m + b;
    if m == [] {
      assert AllSpace(s) by {
        forall j | 0 <= j < |s| ensures IsSpace(s[j]) {
          if j < |a| { assert s[j] == a[j]; } else { assert s[j] == b[j - |a|]; }
        }
      }
    } else {
      assert s[|a|] == m[0];
      assert s[|a| + |m| - 1] == m[|m| - 1];
      assert forall j :: 0 <= j < |a| ==> IsSpace(s[j]) by {
        forall j | 0 <= j < |a| ensures IsSpace(s[j]) { assert s[j] == a[j]; }
      }
      assert forall j :: |a| + |m| <= j < |s| ==> IsSpace(s[j]) by {
        forall j | |a| + |m| <= j < |s| ensures IsSpace(s[j]) { assert s[j] == b[j - |a| - |m|]; }
      }
      FindFirstNotOfSpec(s, 0);
      FindLastNotOfSpec(s, |s|);
      assert FindFirstNotOf(s, 0) == Some(|a|);
      assert FindLastNotOf(s, |s|) == Some(|a| + |m| - 1);
      assert s[|a|..|a| + |m|] == m;
    }
  }

  /** `trim` is idempotent. */
  lemma TrimIdempotent(s: string)
    ensures Trim(Trim(s)) == Trim(s)
  {
    TrimOfPadded([], Trim(s), []);
    assert [] + Trim(s) + [] == Trim(s);
  }

  /** A trimmed string is its own trim. */
  lemma TrimOfTrimmed(s: string)
    requires Trimmed(s)
    ensures Trim(s) == s
  {
    TrimOfPadded([], s, []);
    assert [] + s + [] == s;
  }

  /** `toupper` restricted to ASCII: `a`-`z` become `A`-`Z`, every other character is kept. */
  function UpperChar(c: char): (u: char)
  {
    if 'a' <= c <= 'z' then (c as int - 32) as char else c
  }

  predicate IsLowerAscii(c: char) {
    'a' <= c <= 'z'
  }

  /** `toUpperCopy` (ProjectTwo.cpp): `UpperChar` applied to each character in turn. */
  function ToUpper(s: string): (r: string)
    ensures |r| == |s|
  {
    if s == [] then [] else [UpperChar(s[0])] + ToUpper(s[1..])
  }

  /** `toUpperCopy` maps each character on its own: the copy is the character-wise image under `UpperChar`. */
  lemma {:induction false} ToUpperAt(s: string)
    ensures forall i :: 0 <= i < |s| ==> ToUpper(s)[i] == UpperChar(s[i])
  {
    if s != [] {
      ToUpperAt(s[1..]);
      forall i | 1 <= i < |s| ensures ToUpper(s)[i] == UpperChar(s[i]) {
        assert ToUpper(s)[i] == ToUpper(s[1..])[i - 1];
        assert s[1..][i - 1] == s[i];
      }
    }
  }

  /** Two characters that differ at most in ASCII letter case. */
  predicate SameLetterIgnoringCase(c: char, d: char) {
    c == d
    || (IsLowerAscii(c) && d as int == c as int - 32)
    || (IsLowerAscii(d) && c as int == d as int - 32)
  }

  /** ASCII case-insensitive equality, stated without `ToUpper`. */
  predicate EqualIgnoringCase(a: string, b: string) {
    |a| == |b| && forall i :: 0 <= i < |a| ==> SameLetterIgnoringCase(a[i], b[i])
  }

  /** After upper-casing, no ASCII lower-case letter remains. */
  lemma ToUpperHasNoLower(s: string)
    ensures forall i :: 0 <= i < |ToUpper(s)| ==> !IsLowerAscii(ToUpper(s)[i])
  {
    ToUpperAt(s);
  }

  lemma ToUpperIdempotent(s: string)
    ensures ToUpper(ToUpper(s)) == ToUpper(s)
  {
    ToUpperAt(s);
    ToUpperAt(ToUpper(s));
  }

  /** Upper-casing identifies exactly the strings that are equal up to ASCII case. */
  lemma ToUpperCaseInsensitive(a: string, b: string)
    ensures ToUpper(a) == ToUpper(b) <==> EqualIgnoringCase(a, b)
  {
    ToUpperAt(a);
    ToUpperAt(b);
    if ToUpper(a) == ToUpper(b) {
      forall i | 0 <= i < |a| ensures SameLetterIgnoringCase(a[i], b[i]) {
        assert UpperChar(a[i]) == UpperChar(b[i]);
      }
    }
    if EqualIgnoringCase(a, b) {
      assert forall i :: 0 <= i < |a| ==> ToUpper(a)[i] == ToUpper(b)[i];
    }
  }

  /** Upper-casing and `trim` commute: no whitespace character is a letter. */
  lemma ToUpperKeepsSpace(s: string)
    ensures AllSpace(ToUpper(s)) <==> AllSpace(s)
    ensures Trimmed(s) ==> Trimmed(ToUpper(s))
  {
    ToUpperAt(s);
    assert forall i :: 0 <= i < |s| ==> (IsSpace(ToUpper(s)[i]) <==> IsSpace(s[i]));
  }

  predicate NoComma(s: string) {
    forall i :: 0 <= i < |s| ==> s[i] != ','
  }

  /** Index of the first `','` at or after `pos`, or `|s|` when there is none. */
  function CommaFrom(s: string, pos: nat): (k: nat)
    requires pos <= |s|
    ensures pos <= k <= |s|
    ensures forall j :: pos <= j < k ==> s[j] != ','
    ensures k < |s| ==> s[k] == ','
    decreases |s| - pos
  {
    if pos == |s| then |s|
    else if s[pos] == ',' then pos
    else CommaFrom(s, pos + 1)
  }

  /** The first `','` is the one index with no `','` before it and a `','` (or the end) at it. */
  lemma CommaFromUnique(s: string, pos: nat, k: nat)
    requires pos <= k <= |s|
    requires forall j :: pos <= j < k ==> s[j] != ','
    requires k < |s| ==> s[k] == ','
    ensures CommaFrom(s, pos) == k
  {
    var m := CommaFrom(s, pos);
    assert m >= k;
    assert m <= k;
  }

  /** Where `getline` resumes after the field that starts at `pos`: just past its `','`. */
  function NextField(s: string, pos: nat): (next: nat)
    requires pos <= |s|
    ensures pos <= next <= |s|
    ensures pos < |s| ==> pos < next
  {
    var k := CommaFrom(s, pos);
    if k < |s| then k + 1 else k
  }

  /** The fields that repeated `getline` calls extract from position `pos` on. */
  function SplitFrom(s: string, pos: nat): (fields: seq<string>)
    requires pos <= |s|
    decreases |s| - pos
  {
    if pos == |s| then []
    else [s[pos..CommaFrom(s, pos)]] + SplitFrom(s, NextField(s, pos))
  }

  /**
    `splitCSV` (ProjectTwo.cpp) as a function. Each `getline` call consumes
    characters up to and including the next `','`; it fails only when no
    character is left, so `""` gives no field and a trailing `','` does not
    give a trailing empty field.
   */
  function Split(s: string): (fields: seq<string>)
  {
    SplitFrom(s, 0)
  }

  /** The inverse of `Split`: the fields separated by `','`. */
  function Join(fields: seq<string>): (s: string)
  {
    if |fields| == 0 then []
    else if |fields| == 1 then fields[0]
    else fields[0] + [','] + Join(fields[1..])
  }

  /** The field that starts at `pos` holds no `','`. */
  lemma FieldNoComma(s: string, pos: nat)
    requires pos <= |s|
    ensures NoComma(s[pos..CommaFrom(s, pos)])
  {
    var field := s[pos..CommaFrom(s, pos)];
    forall j | 0 <= j < |field| ensures field[j] != ',' {
      assert field[j] == s[pos + j];
    }
  }

  lemma {:induction false} SplitFromFields(s: string, pos: nat)
    requires pos <= |s|
    ensures forall i :: 0 <= i < |SplitFrom(s, pos)| ==> NoComma(SplitFrom(s, pos)[i])
    ensures |SplitFrom(s, pos)| == 0 <==> pos == |s|
    decreases |s| - pos
  {
    if pos < |s| {
      var next := NextField(s, pos);
      FieldNoComma(s, pos);
      SplitFromFields(s, next);
      var fields, tail := SplitFrom(s, pos), SplitFrom(s, next);
      assert fields == [s[pos..CommaFrom(s, pos)]] + tail;
      forall i | 0 < i < |fields| ensures NoComma(fields[i]) {
        assert fields[i] == tail[i - 1];
      }
    }
  }

  /** No field contains the delimiter, and a non-empty line gives at least one field. */
  lemma SplitFields(s: string)
    ensures forall i :: 0 <= i < |Split(s)| ==> NoComma(Split(s)[i])
    ensures |Split(s)| == 0 <==> s == []
  {
    SplitFromFields(s, 0);
  }

  /** A line without `','` is a single field (or none, when it is empty). */
  lemma SplitNoComma(s: string)
    requires NoComma(s)
    ensures Split(s) == if s == [] then [] else [s]
  {
    if s != [] {
      CommaFromUnique(s, 0, |s|);
      assert NextField(s, 0) == |s|;
      assert SplitFrom(s, |s|) == [];
      assert s[0..|s|] == s;
    }
  }

  /** `b` is the part of `s` from index `n` on. */
  ghost predicate SuffixAt(s: string, n: nat, b: string)
  {
    n + |b| == |s| && forall j :: 0 <= j < |b| ==> s[n + j] == b[j]
  }

  lemma CommaFromShift(s: string, n: nat, b: string, i: nat)
    requires SuffixAt(s, n, b) && i <= |b|
    ensures CommaFrom(s, n + i) == n + CommaFrom(b, i)
  {
    var k := CommaFrom(b, i);
    forall j | n + i <= j < n + k ensures s[j] != ',' {
      assert s[j] == b[j - n];
    }
    assert k < |b| ==> s[n + k] == b[k];
    CommaFromUnique(s, n + i, n + k);
  }

  lemma SliceShift(s: string, n: nat, b: string, i: nat, k: nat)
    requires SuffixAt(s, n, b) && i <= k <= |b|
    ensures s[n + i..n + k] == b[i..k]
  {
    var l, r := s[n + i..n + k], b[i..k];
    forall j | 0 <= j < |l| ensures l[j] == r[j] {
      assert l[j] == s[n + (i + j)];
    }
  }

  /** The first step of `SplitFrom` inside a suffix: one field and the position after it, both shifted. */
  lemma FieldShift(s: string, n: nat, b: string, i: nat)
    requires SuffixAt(s, n, b) && i < |b|
    ensures s[n + i..CommaFrom(s, n + i)] == b[i..CommaFrom(b, i)]
    ensures NextField(s, n + i) == n + NextField(b, i)
  {
    CommaFromShift(s, n, b, i);
    SliceShift(s, n, b, i, CommaFrom(b, i));
  }

  /** What follows a prefix splits as if the prefix were not there. */
  lemma {:induction false} SplitFromShift(s: string, n: nat, b: string, i: nat)
    requires SuffixAt(s, n, b) && i <= |b|
    ensures SplitFrom(s, n + i) == SplitFrom(b, i)
    decreases |b| - i
  {
    if i < |b| {
      var next := NextField(b, i);
      FieldShift(s, n, b, i);
      SplitFromShift(s, n, b, next);
      assert SplitFrom(s, n + i) == [s[n + i..CommaFrom(s, n + i)]] + SplitFrom(s, n + next);
    }
  }

  lemma JoinCons(f: string, rest: seq<string>)
    requires rest != []
    ensures Join([f] + rest) == f + [','] + Join(rest)
  {
    assert ([f] + rest)[1..] == rest;
  }

  lemma ConcatSuffix(p: string, b: string)
    ensures SuffixAt(p + b, |p|, b)
  {
  }

  /** A comma-free field, its `','` and the rest split into the field and the rest's fields. */
  lemma SplitCons(f: string, b: string)
    requires NoComma(f)
    ensures Split(f + [','] + b) == [f] + Split(b)
  {
    var p := f + [','];
    var s := p + b;
    forall i | 0 <= i < |f| ensures s[i] != ',' {
      assert s[i] == f[i];
    }
    assert s[|f|] == ',';
    CommaFromUnique(s, 0, |f|);
    assert s[0..|f|] == f;
    ConcatSuffix(p, b);
    SplitFromShift(s, |p|, b, 0);
    assert Split(s) == [f] + SplitFrom(s, |p| + 0);
  }

  /** Splitting then joining gives the line back, except for a dropped trailing `','`. */
  lemma {:induction false} JoinSplit(s: string)
    ensures s == if s != [] && s[|s| - 1] == ',' then Join(Split(s)) + [','] else Join(Split(s))
    decreases |s|
  {
    if s == [] {
      return;
    }
    var k := CommaFrom(s, 0);
    if k == |s| {
      assert NoComma(s);
      SplitNoComma(s);
      return;
    }
    var f, b := s[..k], s[k + 1..];
    assert s == f + [','] + b;
    assert NoComma(f) by {
      forall j | 0 <= j < |f| ensures f[j] != ',' {
        assert f[j] == s[j];
      }
    }
    SplitCons(f, b);
    JoinSplit(b);
    if b == [] {
      assert Split(b) == [];
    } else {
      assert s[|s| - 1] == b[|b| - 1];
      SplitFields(b);
      JoinCons(f, Split(b));
    }
  }

  /** Joining comma-free fields whose last one is non-empty, then splitting, gives the fields back. */
  lemma {:induction false} SplitJoin(fields: seq<string>)
    requires forall i :: 0 <= i < |fields| ==> NoComma(fields[i])
    requires fields != [] ==> fields[|fields| - 1] != []
    ensures Split(Join(fields)) == fields
    decreases |fields|
  {
    if |fields| == 1 {
      SplitNoComma(fields[0]);
    } else if |fields| > 1 {
      var f, rest := fields[0], fields[1..];
      assert rest[|rest| - 1] == fields[|fields| - 1];
      JoinCons(f, rest);
      assert [f] + rest == fields;
      SplitCons(f, Join(rest));
      SplitJoin(rest);
    }
  }

  /** `std::getline(ss, token, ',')`: the characters from `pos` up to the next `','`, which is consumed. */
  method GetLine(line: string, pos: nat) returns (token: string, next: nat)
    requires pos < |line|
    ensures token == line[pos..CommaFrom(line, pos)]
    ensures next == NextField(line, pos)
  {
    token := "";
    var end := pos;
    while end < |line| && line[end] != ','
      invariant pos <= end <= |line|
      invariant token == line[pos..end]
      invariant CommaFrom(line, end) == CommaFrom(line, pos)
      decreases |line| - end
    {
      token := token + [line[end]];
      end := end + 1;
    }
    next := if end < |line| then end + 1 else end; // the delimiter is extracted and discarded
  }

  /** `splitCSV` as the source writes it: a `getline` loop that pushes each token. */
  method SplitCSV(line: string) returns (tokens: seq<string>)
    ensures tokens == Split(line)
  {
    tokens := [];
    var pos := 0;
    while pos < |line|
      invariant 0 <= pos <= |line|
      invariant tokens + SplitFrom(line, pos) == Split(line)
      decreases |line| - pos
    {
      var token;
      token, pos := GetLine(line, pos);
      tokens := tokens + [token];
    }
  }
}
