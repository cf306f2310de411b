/** Cells, rows and the sequence utilities that the three report scripts share:
    pandas-style equality and filtering, `unique()`, Python's string order,
    `sorted(set(...))` and a descending sort by a numeric key. */
module Tabular {

  datatype Option<T> = None | Some(value: T)

  /** One cell of a pandas frame: NaN, a string, an integer or a float. */
  datatype Value = Missing | Text(s: string) | Integer(i: int) | Number(x: real)

  /** One frame row, by column name. */
  type Row = map<string, Value>

  /** A frame: its column labels in order and its rows. */
  datatype Table = Table(columns: seq<string>, rows: seq<Row>)

  /** `row.get(col)`: a column the row lacks reads as NaN. */
  function Get(r: Row, col: string): Value
  {
    if col in r then r[col] else Missing
  }

  /** `pd.notna(v)` */
  predicate NotNa(v: Value)
  {
    !v.Missing?
  }

  /** `pd.isna(v) or v == ''` */
  predicate IsBlank(v: Value)
  {
    v == Missing || v == Text("")
  }

  /** Python/pandas `==` between two cells: NaN equals nothing, not even NaN;
      an int and a float compare by value; a string never equals a number. */
  predicate PyEq(a: Value, b: Value)
  {
    match (a, b)
    case (Text(s), Text(t)) => s == t
    case (Integer(i), Integer(j)) => i == j
    case (Integer(i), Number(y)) => i as real == y
    case (Number(x), Integer(j)) => x == j as real
    case (Number(x), Number(y)) => x == y
    case _ => false
  }

  /** `float(v)` / `pd.to_numeric(v, errors='coerce')`: None for NaN and for
      text that does not parse. Parsing text is the library's and is a parameter. */
  function ToFloat(v: Value, parse: string -> Option<real>): (r: Option<real>)
    ensures v.Missing? ==> r.None?
    ensures v.Integer? ==> r == Some(v.i as real)
    ensures v.Number? ==> r == Some(v.x)
  {
    match v
    case Missing => None
    case Text(s) => parse(s)
    case Integer(i) => Some(i as real)
    case Number(x) => Some(x)
  }

  /** `df[df[col] == v]`: the rows whose cell in `col` equals `v`, in frame order. */
  function Where(rows: seq<Row>, col: string, v: Value): (r: seq<Row>)
    ensures |r| <= |rows|
    ensures forall x :: x in r ==> x in rows && PyEq(Get(x, col), v)
    ensures forall x :: x in rows && PyEq(Get(x, col), v) ==> x in r
  {
    if rows == [] then []
    else (if PyEq(Get(rows[0], col), v) then [rows[0]] else []) + Where(rows[1..], col, v)
  }

  /** `.iloc[0]` of a filter is the earliest row that passes it. */
  lemma {:induction false} WhereHead(rows: seq<Row>, col: string, v: Value)
    requires Where(rows, col, v) != []
    ensures exists i :: 0 <= i < |rows| && rows[i] == Where(rows, col, v)[0]
                        && PyEq(Get(rows[i], col), v)
                        && forall j :: 0 <= j < i ==> !PyEq(Get(rows[j], col), v)
  {
    if PyEq(Get(rows[0], col), v) {
      assert rows[0] == Where(rows, col, v)[0];
    } else {
      assert Where(rows, col, v) == Where(rows[1..], col, v);
      WhereHead(rows[1..], col, v);
      var i :| 0 <= i < |rows[1..]| && rows[1..][i] == Where(rows[1..], col, v)[0]
               && PyEq(Get(rows[1..][i], col), v)
               && forall j :: 0 <= j < i ==> !PyEq(Get(rows[1..][j], col), v);
      assert rows[i + 1] == rows[1..][i];
      forall j | 0 <= j < i + 1
        ensures !PyEq(Get(rows[j], col), v)
      {
        if j > 0 { assert rows[j] == rows[1..][j - 1]; }
      }
    }
  }

  predicate NoDup<T(==)>(s: seq<T>)
  {
    forall i, j :: 0 <= i < j < |s| ==> s[i] != s[j]
  }

  /** Index of the first occurrence of `x` in `s`. */
  function FirstIndex<T(==)>(s: seq<T>, x: T): (r: nat)
    requires x in s
    ensures r < |s| && s[r] == x && x !in s[..r]
  {
    if x in s[..|s| - 1] then FirstIndex(s[..|s| - 1], x) else |s| - 1
  }

  /** pandas `unique()`: each element once, in order of first appearance. */
  function Distinct<T(==,!new)>(s: seq<T>): (r: seq<T>)
    ensures NoDup(r)
    ensures forall x :: x in r <==> x in s
    ensures |r| <= |s|
  {
    if s == [] then []
    else
      var d := Distinct(s[..|s| - 1]);
      assert forall x :: x in s <==> x in s[..|s| - 1] || x == s[|s| - 1];
      if s[|s| - 1] in d then d else d + [s[|s| - 1]]
  }

  /** `unique()` lists the elements in the order in which they first appear. */
  lemma {:induction false} DistinctFirstAppearance<T(!new)>(s: seq<T>)
    ensures forall i, j :: 0 <= i < j < |Distinct(s)| ==>
              FirstIndex(s, Distinct(s)[i]) < FirstIndex(s, Distinct(s)[j])
  {
    if s != [] {
      var p := s[..|s| - 1];
      var d := Distinct(p);
      DistinctFirstAppearance(p);
      forall x | x in p ensures FirstIndex(s, x) == FirstIndex(p, x) { }
      if s[|s| - 1] !in d {
        assert Distinct(s) == d + [s[|s| - 1]];
        assert FirstIndex(s, s[|s| - 1]) == |s| - 1;
        forall i, j | 0 <= i < j < |Distinct(s)|
          ensures FirstIndex(s, Distinct(s)[i]) < FirstIndex(s, Distinct(s)[j])
        {
          assert Distinct(s)[i] == d[i];
          if j < |d| { assert Distinct(s)[j] == d[j]; }
        }
      }
    }
  }

  /** The first `n` elements (all of them when there are fewer). */
  function Take<T>(s: seq<T>, n: nat): (r: seq<T>)
    ensures |r| == if |s| < n then |s| else n
    ensures r == s[..|r|]
  {
    if |s| < n then s else s[..n]
  }

  /** Python's `<` on strings: lexicographic by code point. */
  predicate StrLess(a: string, b: string)
  {
    if |a| == 0 then |b| > 0
    else if |b| == 0 then false
    else if a[0] != b[0] then a[0] < b[0]
    else StrLess(a[1..], b[1..])
  }

  lemma {:induction false} StrLessIrreflexive(a: string)
    ensures !StrLess(a, a)
  {
    if |a| > 0 { StrLessIrreflexive(a[1..]); }
  }

  lemma {:induction false} StrLessTransitive(a: string, b: string, c: string)
    requires StrLess(a, b) && StrLess(b, c)
    ensures StrLess(a, c)
  {
    if |a| > 0 && a[0] == b[0] && b[0] == c[0] {
      StrLessTransitive(a[1..], b[1..], c[1..]);
    }
  }

  lemma {:induction false} StrLessTotal(a: string, b: string)
    requires a != b
    ensures StrLess(a, b) || StrLess(b, a)
  {
    if |a| > 0 && |b| > 0 && a[0] == b[0] {
      assert a == [a[0]] + a[1..] && b == [b[0]] + b[1..];
      StrLessTotal(a[1..], b[1..]);
    }
  }

  lemma StrLessAsymmetric(a: string, b: string)
    requires StrLess(a, b)
    ensures !StrLess(b, a)
  {
    if StrLess(b, a) {
      StrLessTransitive(a, b, a);
      StrLessIrreflexive(a);
    }
  }

  predicate StrictlySorted(s: seq<string>)
  {
    forall i, j :: 0 <= i < j < |s| ==> StrLess(s[i], s[j])
  }

  lemma StrictlySortedNoDup(s: seq<string>)
    requires StrictlySorted(s)
    ensures NoDup(s)
  {
    forall i, j | 0 <= i < j < |s| ensures s[i] != s[j] {
      if s[i] == s[j] { StrLessIrreflexive(s[i]); }
    }
  }

  /** Puts `x` into an ascending list of distinct strings, unless it is there already. */
  function InsertSorted(x: string, t: seq<string>): (r: seq<string>)
    requires StrictlySorted(t)
    ensures StrictlySorted(r)
    ensures forall y :: y in r <==> y in t || y == x
  {
    if t == [] then [x]
    else if x == t[0] then t
    else if StrLess(x, t[0]) then
      assert forall j :: 0 <= j < |t| ==> StrLess(x, t[j]) by {
        forall j | 0 <= j < |t| ensures StrLess(x, t[j]) {
          if j > 0 { StrLessTransitive(x, t[0], t[j]); }
        }
      }
      [x] + t
    else
      StrLessTotal(x, t[0]);
      var rest := InsertSorted(x, t[1..]);
      assert forall y :: y in rest ==> StrLess(t[0], y) by {
        forall y | y in rest ensures StrLess(t[0], y) {
          if y != x { var j :| 0 <= j < |t[1..]| && t[1..][j] == y; assert t[j + 1] == y; }
        }
      }
      [t[0]] + rest
  }

  /** `sorted(set(s))`: the distinct strings of `s` in ascending order. */
  function SortedDistinct(s: seq<string>): (r: seq<string>)
    ensures StrictlySorted(r)
    ensures forall y :: y in r <==> y in s
  {
    if s == [] then []
    else
      assert forall y :: y in s <==> y in s[..|s| - 1] || y == s[|s| - 1];
      InsertSorted(s[|s| - 1], SortedDistinct(s[..|s| - 1]))
  }

  /** Only one ascending list of distinct strings holds a given set of strings:
      the `groupby` key order and `sorted(unique())` therefore agree. */
  lemma {:induction false} StrictlySortedUnique(a: seq<string>, b: seq<string>)
    requires StrictlySorted(a) && StrictlySorted(b)
    requires forall y :: y in a <==> y in b
    ensures a == b
  {
    assert a != [] ==> a[0] in b;
    assert b != [] ==> b[0] in a;
    if a != [] && b != [] {
      SortedHeadLeast(a, b[0]);
      SortedHeadLeast(b, a[0]);
      if a[0] != b[0] { StrLessAsymmetric(a[0], b[0]); }
      forall y ensures y in a[1..] <==> y in b[1..] {
        if y in a[1..] {
          var j :| 0 <= j < |a[1..]| && a[1..][j] == y;
          assert StrLess(a[0], a[j + 1]);
          if y == b[0] { StrLessIrreflexive(y); }
          assert a[j + 1] == y && y in a && y in b;
          var k :| 0 <= k < |b| && b[k] == y;
          assert b[1..][k - 1] == y;
        }
        if y in b[1..] {
          var j :| 0 <= j < |b[1..]| && b[1..][j] == y;
          assert StrLess(b[0], b[j + 1]);
          if y == a[0] { StrLessIrreflexive(y); }
          assert b[j + 1] == y && y in b && y in a;
          var k :| 0 <= k < |a| && a[k] == y;
          assert a[1..][k - 1] == y;
        }
      }
      StrictlySortedUnique(a[1..], b[1..]);
      assert a == [a[0]] + a[1..] && b == [b[0]] + b[1..];
    }
  }

  /** The head of an ascending list is below every other element. */
  lemma SortedHeadLeast(a: seq<string>, y: string)
    requires StrictlySorted(a) && y in a
    ensures y == a[0] || StrLess(a[0], y)
  {
  }

  predicate NonIncreasing<T>(s: seq<T>, key: T -> real)
  {
    forall i, j :: 0 <= i < j < |s| ==> key(s[i]) >= key(s[j])
  }

  /** Inserts `x` into a list that is non-increasing by `key`. */
  function InsertDesc<T(!new)>(x: T, t: seq<T>, key: T -> real): (r: seq<T>)
    requires NonIncreasing(t, key)
    ensures NonIncreasing(r, key)
    ensures multiset(r) == multiset(t) + multiset{x}
    ensures |r| == |t| + 1
  {
    if t == [] then [x]
    else if key(x) >= key(t[0]) then [x] + t
    else
      var rest := InsertDesc(x, t[1..], key);
      assert t == [t[0]] + t[1..];
      assert multiset([t[0]] + rest) == multiset{t[0]} + multiset(rest);
      forall y | y in rest ensures key(t[0]) >= key(y) {
        assert y in multiset(rest);
        if y != x {
          assert y in multiset(t[1..]);
          var j :| 0 <= j < |t[1..]| && t[1..][j] == y;
          assert t[j + 1] == y;
        }
      }
      ConsNonIncreasing(t[0], rest, key);
      [t[0]] + rest
  }

  /** A head no smaller than any later element extends a non-increasing list. */
  lemma ConsNonIncreasing<T>(h: T, rest: seq<T>, key: T -> real)
    requires NonIncreasing(rest, key)
    requires forall y :: y in rest ==> key(h) >= key(y)
    ensures NonIncreasing([h] + rest, key)
  {
    var s := [h] + rest;
    forall i, j | 0 <= i < j < |s| ensures key(s[i]) >= key(s[j]) {
      assert s[j] == rest[j - 1];
      if i > 0 { assert s[i] == rest[i - 1]; } else { assert rest[j - 1] in rest; }
    }
  }

  /** `sort_values(ascending=False)`: the same elements, largest key first.
      Ties may come out in any order in pandas; this model keeps one of them. */
  function SortDesc<T(!new)>(s: seq<T>, key: T -> real): (r: seq<T>)
    ensures NonIncreasing(r, key)
    ensures multiset(r) == multiset(s)
    ensures |r| == |s|
  {
    if s == [] then []
    else
      assert s == s[..|s| - 1] + [s[|s| - 1]];
      InsertDesc(s[|s| - 1], SortDesc(s[..|s| - 1], key), key)
  }

  /** `s.endswith(suffix)` */
  predicate EndsWith(s: string, suffix: string)
  {
    |suffix| <= |s| && s[|s| - |suffix|..] == suffix
  }

  /** `a` is `s` with some elements dropped, the rest kept in order. */
  predicate IsSubseq<T(==)>(a: seq<T>, s: seq<T>)
  {
    if a == [] then true
    else if s == [] then false
    else if a[0] == s[0] then IsSubseq(a[1..], s[1..])
    else IsSubseq(a, s[1..])
  }

  /** `[x for x in s if (x in other) == inOther]` */
  function Keep(s: seq<string>, other: seq<string>, inOther: bool): (r: seq<string>)
    ensures forall x :: x in r <==> x in s && ((x in other) == inOther)
    ensures IsSubseq(r, s)
    ensures NoDup(s) ==> NoDup(r)
  {
    if s == [] then []
    else
      var rest := Keep(s[1..], other, inOther);
      assert forall x :: x in s <==> x == s[0] || x in s[1..];
      if (s[0] in other) == inOther then
        var r := [s[0]] + rest;
        assert r[1..] == rest;
        assert NoDup(s) ==> s[0] !in s[1..];
        r
      else rest
  }

  /** Putting an element in front keeps a subsequence a subsequence. */
  lemma {:induction false} SubseqCons<T>(a: seq<T>, s: seq<T>, y: T)
    requires IsSubseq(a, s)
    ensures IsSubseq(a, [y] + s)
    decreases |s| + 1, 0
  {
    var z := [y] + s;
    assert z[1..] == s;
    if a != [] && a[0] == y {
      SubseqTail(a, s);
    }
  }

  /** Dropping the first element of a subsequence leaves a subsequence. */
  lemma {:induction false} SubseqTail<T>(a: seq<T>, s: seq<T>)
    requires a != [] && IsSubseq(a, s)
    ensures IsSubseq(a[1..], s)
    decreases |s|, 1
  {
    if a[0] == s[0] {
      SubseqCons(a[1..], s[1..], s[0]);
      assert [s[0]] + s[1..] == s;
    } else {
      SubseqTail(a, s[1..]);
      SubseqCons(a[1..], s[1..], s[0]);
      assert [s[0]] + s[1..] == s;
    }
  }

  /** A subsequence is no longer than the sequence. */
  lemma {:induction false} SubseqLength<T>(a: seq<T>, s: seq<T>)
    requires IsSubseq(a, s)
    ensures |a| <= |s|
  {
    if a != [] {
      if a[0] == s[0] {
        SubseqLength(a[1..], s[1..]);
      } else {
        SubseqLength(a, s[1..]);
      }
    }
  }

  /** A filter keeps the rows in their order. */
  lemma {:induction false} WhereSubseq(rows: seq<Row>, col: string, v: Value)
    ensures IsSubseq(Where(rows, col, v), rows)
    ensures forall x :: multiset(Where(rows, col, v))[x] == if PyEq(Get(x, col), v) then multiset(rows)[x] else 0
  {
    if rows != [] {
      var rest := Where(rows[1..], col, v);
      WhereSubseq(rows[1..], col, v);
      assert rows == [rows[0]] + rows[1..];
      assert multiset(rows) == multiset{rows[0]} + multiset(rows[1..]);
      if PyEq(Get(rows[0], col), v) {
        var w := [rows[0]] + rest;
        assert Where(rows, col, v) == w && w[1..] == rest;
        assert multiset(w) == multiset{rows[0]} + multiset(rest);
      } else {
        SubseqCons(rest, rows[1..], rows[0]);
        assert Where(rows, col, v) == rest && [rows[0]] + rows[1..] == rows;
      }
    }
  }

  /** No cell equals NaN, so filtering on NaN selects nothing. */
  lemma {:induction false} WhereMissing(rows: seq<Row>, col: string)
    ensures Where(rows, col, Missing) == []
  {
    if rows != [] {
      WhereMissing(rows[1..], col);
    }
  }

  /** `df[mask]` for a row predicate: the rows that pass, in frame order. */
  function Select(rows: seq<Row>, keep: Row -> bool): (r: seq<Row>)
    ensures |r| <= |rows|
    ensures forall x :: x in r <==> x in rows && keep(x)
  {
    if rows == [] then []
    else
      assert forall x :: x in rows <==> x == rows[0] || x in rows[1..];
      (if keep(rows[0]) then [rows[0]] else []) + Select(rows[1..], keep)
  }

  /** A mask keeps the passing rows in frame order, each as often as the
      frame holds it. */
  lemma {:induction false} SelectSubseq(rows: seq<Row>, keep: Row -> bool)
    ensures IsSubseq(Select(rows, keep), rows)
    ensures forall x :: multiset(Select(rows, keep))[x] == if keep(x) then multiset(rows)[x] else 0
  {
    if rows != [] {
      var rest := Select(rows[1..], keep);
      SelectSubseq(rows[1..], keep);
      assert rows == [rows[0]] + rows[1..];
      assert multiset(rows) == multiset{rows[0]} + multiset(rows[1..]);
      if keep(rows[0]) {
        var w := [rows[0]] + rest;
        assert Select(rows, keep) == w && w[1..] == rest;
        assert multiset(w) == multiset{rows[0]} + multiset(rest);
      } else {
        SubseqCons(rest, rows[1..], rows[0]);
        assert Select(rows, keep) == rest;
      }
    }
  }

  /** `.iloc[0]` of a mask is the earliest row that passes it. */
  lemma {:induction false} SelectHead(rows: seq<Row>, keep: Row -> bool)
    requires Select(rows, keep) != []
    ensures exists i :: 0 <= i < |rows| && rows[i] == Select(rows, keep)[0] && keep(rows[i])
                        && forall j :: 0 <= j < i ==> !keep(rows[j])
  {
    if !keep(rows[0]) {
      assert Select(rows, keep) == Select(rows[1..], keep);
      SelectHead(rows[1..], keep);
      var i :| 0 <= i < |rows[1..]| && rows[1..][i] == Select(rows[1..], keep)[0] && keep(rows[1..][i])
               && forall j :: 0 <= j < i ==> !keep(rows[1..][j]);
      assert rows[i + 1] == rows[1..][i];
      forall j | 0 <= j < i + 1 ensures !keep(rows[j]) {
        if j > 0 { assert rows[j] == rows[1..][j - 1]; }
      }
    }
  }

  /** `df[col]`: one cell per row. */
  function Column(rows: seq<Row>, col: string): (vs: seq<Value>)
    ensures |vs| == |rows|
    ensures forall k :: 0 <= k < |rows| ==> vs[k] == Get(rows[k], col)
    ensures forall v :: v in vs <==> exists r :: r in rows && Get(r, col) == v
  {
    var vs := seq(|rows|, k requires 0 <= k < |rows| => Get(rows[k], col));
    assert forall v :: (exists r :: r in rows && Get(r, col) == v) ==> v in vs by {
      forall v | exists r :: r in rows && Get(r, col) == v ensures v in vs {
        var r :| r in rows && Get(r, col) == v;
        var k :| 0 <= k < |rows| && rows[k] == r;
        assert vs[k] == v;
      }
    }
    vs
  }

  /** Every cell other than NaN equals itself under pandas `==`. */
  lemma PyEqRefl(v: Value)
    requires NotNa(v)
    ensures PyEq(v, v)
  {
  }
}
