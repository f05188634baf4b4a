/** `df.groupby("open_covid_region_code")` as the pipeline uses it: the groups
    are visited in ascending order of region code (Python string order, code
    point by code point), each group keeps the frame's row order, and rows
    whose region code is null belong to no group. */
module Grouping {
  import opened Tables

  /** Python's `<` on strings: lexicographic by code point. */
  predicate LexLess(a: string, b: string)
  {
    if |a| == 0 then |b| > 0
    else if |b| == 0 then false
    else if a[0] != b[0] then a[0] < b[0]
    else LexLess(a[1..], b[1..])
  }

  lemma {:induction false} LexLessIrreflexive(a: string)
    ensures !LexLess(a, a)
  {
    if |a| > 0 {
      LexLessIrreflexive(a[1..]);
    }
  }

  lemma {:induction false} LexLessTransitive(a: string, b: string, c: string)
    requires LexLess(a, b) && LexLess(b, c)
    ensures LexLess(a, c)
  {
    if |a| > 0 && |b| > 0 && |c| > 0 && a[0] == b[0] && b[0] == c[0] {
      LexLessTransitive(a[1..], b[1..], c[1..]);
    }
  }

  lemma {:induction false} LexLessTotal(a: string, b: string)
    requires a != b
    ensures LexLess(a, b) || LexLess(b, a)
  {
    if |a| > 0 && |b| > 0 && a[0] == b[0] {
      assert a == [a[0]] + a[1..] && b == [b[0]] + b[1..];
      LexLessTotal(a[1..], b[1..]);
    }
  }

  /** Strictly ascending, so also free of duplicates. */
  predicate StrictlyAscending(s: seq<string>)
  {
    forall i, j :: 0 <= i < j < |s| ==> LexLess(s[i], s[j])
  }

  /** The region code of a row, when it has one. */
  function RegionOf(r: Row): Option<string>
  {
    if Cell(r, RegionColumn).Str? then Some(Cell(r, RegionColumn).s) else None
  }

  /** Region cells that `groupby` can sort: strings, or nulls that it drops. */
  predicate RegionsTyped(rows: seq<Row>)
  {
    forall i :: 0 <= i < |rows| ==> Cell(rows[i], RegionColumn).Str? || Cell(rows[i], RegionColumn).Null?
  }

  /** The group of region `code`: its rows, in the frame's order. */
  function Group(rows: seq<Row>, code: string): (g: seq<Row>)
    ensures |g| <= |rows|
    ensures forall i :: 0 <= i < |g| ==> RegionOf(g[i]) == Some(code)
    ensures forall i :: 0 <= i < |g| ==> g[i] in rows
  {
    if rows == [] then []
    else
      var last := rows[|rows| - 1];
      Group(rows[..|rows| - 1], code) + (if RegionOf(last) == Some(code) then [last] else [])
  }

  /** Inserts `c` into an ascending list of codes, unless it is already there. */
  function InsertCode(c: string, s: seq<string>): (r: seq<string>)
    requires StrictlyAscending(s)
    ensures StrictlyAscending(r)
    ensures forall x :: x in r <==> x == c || x in s
  {
    if |s| == 0 then [c]
    else if c == s[0] then s
    else if LexLess(c, s[0]) then
      PrependSmaller(c, s);
      [c] + s
    else
      LexLessTotal(c, s[0]);
      var t := InsertCode(c, s[1..]);
      AscendingCons(s[0], t);
      [s[0]] + t
  }

  lemma PrependSmaller(c: string, s: seq<string>)
    requires StrictlyAscending(s) && |s| > 0 && LexLess(c, s[0])
    ensures StrictlyAscending([c] + s)
  {
    forall x | x in s
      ensures LexLess(c, x)
    {
      if x != s[0] {
        LexLessTransitive(c, s[0], x);
      }
    }
    AscendingCons(c, s);
  }

  lemma AscendingCons(c: string, s: seq<string>)
    requires StrictlyAscending(s)
    requires forall x :: x in s ==> LexLess(c, x)
    ensures StrictlyAscending([c] + s)
  {
  }

  /** The keys `groupby` visits, in the order it visits them: the distinct
      non-null region codes of the rows, ascending. */
  function RegionCodes(rows: seq<Row>): (codes: seq<string>)
    ensures StrictlyAscending(codes)
    ensures forall c :: c in codes <==> |Group(rows, c)| > 0
  {
    if rows == [] then []
    else
      var prev := RegionCodes(rows[..|rows| - 1]);
      match RegionOf(rows[|rows| - 1])
      case None => prev
      case Some(c) => InsertCode(c, prev)
  }

  /** Rows ordered by region code, ties in any order. */
  predicate RegionOrdered(rows: seq<Row>)
  {
    forall i, j :: 0 <= i < j < |rows| ==>
      RegionOf(rows[i]).Some? && RegionOf(rows[j]).Some? &&
      !LexLess(RegionOf(rows[j]).value, RegionOf(rows[i]).value)
  }

  lemma {:induction false} GroupOfConcat(a: seq<Row>, b: seq<Row>, code: string)
    ensures Group(a + b, code) == Group(a, code) + Group(b, code)
  {
    if b != [] {
      var ab := a + b;
      assert ab[..|ab| - 1] == a + b[..|b| - 1];
      GroupOfConcat(a, b[..|b| - 1], code);
    } else {
      assert a + b == a;
    }
  }

  lemma {:induction false} GroupOfGroup(rows: seq<Row>, c: string, code: string)
    ensures Group(Group(rows, c), code) == if c == code then Group(rows, c) else []
  {
    if rows != [] {
      var last := rows[|rows| - 1];
      var prefix := Group(rows[..|rows| - 1], c);
      var tail := if RegionOf(last) == Some(c) then [last] else [];
      GroupOfGroup(rows[..|rows| - 1], c, code);
      GroupOfConcat(prefix, tail, code);
      if tail != [] {
        assert tail[..0] == [];
      }
    }
  }

  /** Appending one region's rows after rows of strictly smaller regions keeps
      the sequence ordered by region. */
  lemma AppendRegionOrdered(prefix: seq<Row>, codes: seq<string>, chunk: seq<Row>, code: string)
    requires RegionOrdered(prefix)
    requires forall i :: 0 <= i < |prefix| ==> RegionOf(prefix[i]).Some? && RegionOf(prefix[i]).value in codes
    requires forall x :: x in codes ==> LexLess(x, code)
    requires forall i :: 0 <= i < |chunk| ==> RegionOf(chunk[i]) == Some(code)
    ensures RegionOrdered(prefix + chunk)
    ensures forall i :: 0 <= i < |prefix + chunk| ==>
      RegionOf((prefix + chunk)[i]).Some? && RegionOf((prefix + chunk)[i]).value in codes + [code]
  {
    var s := prefix + chunk;
    forall i | 0 <= i < |s|
      ensures RegionOf(s[i]).Some? && RegionOf(s[i]).value in codes + [code]
    {
      if i < |prefix| {
        assert s[i] == prefix[i];
      } else {
        assert s[i] == chunk[i - |prefix|];
      }
    }
    forall i, j | 0 <= i < j < |s|
      ensures RegionOf(s[i]).Some? && RegionOf(s[j]).Some? && !LexLess(RegionOf(s[j]).value, RegionOf(s[i]).value)
    {
      if j < |prefix| {
      } else if i < |prefix| {
        var x := RegionOf(prefix[i]).value;
        if LexLess(code, x) {
          LexLessTransitive(code, x, code);
          LexLessIrreflexive(code);
        }
      } else {
        LexLessIrreflexive(code);
      }
    }
  }

  /** Grouping rows that all have region `c` gives all of them or none. */
  lemma {:induction false} GroupOfUniform(s: seq<Row>, c: string, code: string)
    requires forall i :: 0 <= i < |s| ==> RegionOf(s[i]) == Some(c)
    ensures Group(s, code) == if c == code then s else []
  {
    if s != [] {
      var init := s[..|s| - 1];
      assert s == init + [s[|s| - 1]];
      assert forall i :: 0 <= i < |init| ==> init[i] == s[i];
      GroupOfUniform(init, c, code);
    }
  }

  /** A non-empty list is its last element appended to the rest. */
  lemma SplitLast<T>(s: seq<T>)
    requires s != []
    ensures s == s[..|s| - 1] + [s[|s| - 1]]
  {
  }

  /** Splitting the last code off a strictly ascending list of codes. */
  lemma AscendingPrefix(codes: seq<string>, init: seq<string>, last: string)
    requires StrictlyAscending(codes) && codes == init + [last]
    ensures StrictlyAscending(init)
    ensures forall x :: x in init ==> LexLess(x, last)
    ensures last !in init
  {
    LexLessIrreflexive(last);
    forall i | 0 <= i < |init|
      ensures LexLess(init[i], last)
    {
      assert init[i] == codes[i] && last == codes[|init|];
    }
    forall i, j | 0 <= i < j < |init|
      ensures LexLess(init[i], init[j])
    {
      assert init[i] == codes[i] && init[j] == codes[j];
    }
  }
}
