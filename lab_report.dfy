/** The long-format lab report built by `generate_lab_report.py`: one record per
    (institution, specimen) result, its statistics copied from the previous
    report, and the column order of the resulting frame. */
module LabReport {
  import opened Tabular

  /** The three specimen columns of the wide input, in the order they are read. */
  const SampleIds: seq<string> := ["CCA-25-04", "CCA-25-05", "CCA-25-06"]

  const Year := 2025
  const RoundNum := 2
  const ProgramCode := "140"
  const ProgramName := "심장표지자단백검사(정량)"
  const TestCode := "T902"
  const TestName := "High-Sensitivity Cardiac Troponin I"

  /** A Python dict of one output row: its keys in insertion order and the
      value of each, position by position. */
  datatype Record = Record(keys: seq<string>, vals: seq<Value>)

  predicate Valid(r: Record)
  {
    |r.keys| == |r.vals| && NoDup(r.keys)
  }

  /** `d.get(k)`: the value stored under `k`, NaN when there is none. */
  function Lookup(r: Record, k: string): Value
  {
    if Valid(r) && k in r.keys then r.vals[FirstIndex(r.keys, k)] else Missing
  }

  /** In a dict, the value stored at position `n` is what its key looks up. */
  lemma LookupAt(r: Record, n: nat)
    requires Valid(r) && n < |r.keys|
    ensures Lookup(r, r.keys[n]) == r.vals[n]
  {
    var f := FirstIndex(r.keys, r.keys[n]);
    assert r.keys[f] == r.keys[n];
  }

  /** `d[k] = v` for a key the dict does not hold yet: it goes to the end. */
  function Put(r: Record, k: string, v: Value): (o: Record)
    requires Valid(r) && k !in r.keys
    ensures Valid(o) && o.keys == r.keys + [k] && o.vals == r.vals + [v]
  {
    Record(r.keys + [k], r.vals + [v])
  }

  /** The keys of the row dict as it is first written, in order. */
  const BaseKeys: seq<string> := [
    "회차년도", "회차", "프로그램코드", "프로그램명", "기관코드", "검사코드", "검사명",
    "검체명", "검사결과", "기준분류", "세분류", "기준분류_sdi (text)", "세분류_sdi (text)",
    "기준분류_sdi (Number)", "세분류_sdi (Number)", "기기회사명", "기기명", "시약회사명",
    "시약명", "검사방법명"]

  /** `x if pd.notna(x) and x != '' else ''` */
  function BlankIfEmpty(v: Value): (r: Value)
    ensures IsBlank(v) ==> r == Text("")
    ensures !IsBlank(v) ==> r == v
  {
    if IsBlank(v) then Text("") else v
  }

  /** `val if pd.notna(val) else ''` */
  function Fill(v: Value): (r: Value)
    ensures NotNa(r)
    ensures v.Missing? ==> r == Text("")
    ensures NotNa(v) ==> r == v
  {
    if v.Missing? then Text("") else v
  }

  /** The values of the row dict as it is first written, key by key. */
  function BaseValues(row: Row, sample: string, result: real): (vs: seq<Value>)
    ensures |vs| == |BaseKeys|
  {
    var company := Get(row, "기기회사");
    var device := Get(row, "기기");
    [Integer(Year), Integer(RoundNum), Text(ProgramCode), Text(ProgramName),
     Get(row, "기관코드"), Text(TestCode), Text(TestName), Text(sample), Number(result),
     company, device, Text(""), Text(""), Text(""), Text(""), company, device,
     BlankIfEmpty(Get(row, "시약회사")), BlankIfEmpty(Get(row, "시약")), BlankIfEmpty(Get(row, "검사방법"))]
  }

  lemma BaseKeysDistinct()
    ensures NoDup(BaseKeys)
  {
  }

  /** The row dict for institution row `row`, specimen `sample` and its parsed result. */
  function BaseRow(row: Row, sample: string, result: real): (rec: Record)
    ensures Valid(rec) && rec.keys == BaseKeys
  {
    BaseKeysDistinct();
    Record(BaseKeys, BaseValues(row, sample, result))
  }

  // ---------------------------------------------------------------------------
  // Which (institution, specimen) pairs produce a record

  /** Specimen `j` of institution row `r` yields a record: its column exists and
      holds a non-empty value that `float()` accepts. */
  predicate Emits(input: Table, r: Row, j: nat, parse: string -> Option<real>)
    requires j < |SampleIds|
  {
    var s := SampleIds[j];
    s in input.columns && !IsBlank(Get(r, s)) && ToFloat(Get(r, s), parse).Some?
  }

  /** First by institution, then by specimen. */
  predicate LexLess(a: (nat, nat), b: (nat, nat))
  {
    a.0 < b.0 || (a.0 == b.0 && a.1 < b.1)
  }

  /** The pairs `(i, j)`, `j < m`, that institution row `i` yields, by specimen. */
  function RowPairs(input: Table, parse: string -> Option<real>, i: nat, m: nat): (ps: seq<(nat, nat)>)
    requires i < |input.rows| && m <= |SampleIds|
    ensures forall p :: p in ps <==> p.0 == i && p.1 < m && Emits(input, input.rows[i], p.1, parse)
  {
    if m == 0 then []
    else
      var prev := RowPairs(input, parse, i, m - 1);
      if Emits(input, input.rows[i], m - 1, parse) then prev + [(i, m - 1)] else prev
  }

  /** All of `ps` belong to institution `i`, by increasing specimen. */
  predicate BySpecimen(ps: seq<(nat, nat)>, i: nat)
  {
    forall a, b :: 0 <= a < b < |ps| ==> ps[a].0 == i && ps[a].1 < ps[b].1
  }

  /** One institution's pairs come out by specimen. */
  lemma {:induction false} RowPairsOrdered(input: Table, parse: string -> Option<real>, i: nat, m: nat)
    requires i < |input.rows| && m <= |SampleIds|
    ensures BySpecimen(RowPairs(input, parse, i, m), i)
  {
    if m > 0 {
      RowPairsOrdered(input, parse, i, m - 1);
      var prev := RowPairs(input, parse, i, m - 1);
      var ps := RowPairs(input, parse, i, m);
      forall a, b | 0 <= a < b < |ps| ensures ps[a].0 == i && ps[a].1 < ps[b].1 {
        assert ps[a] in ps;
        if b < |prev| {
          assert ps[a] == prev[a] && ps[b] == prev[b];
          assert prev[a].0 == i && prev[a].1 < prev[b].1;
        } else {
          assert ps == prev + [(i, m - 1)] && ps[b] == (i, m - 1);
          assert ps[a] == prev[a] && ps[a] in prev;
          assert ps[a].1 < m - 1;
          assert ps[a].0 == i;
        }
      }
    }
  }

  /** The pairs the first `n` institution rows yield, in loop order. */
  function Pairs(input: Table, parse: string -> Option<real>, n: nat): (ps: seq<(nat, nat)>)
    requires n <= |input.rows|
    ensures forall p :: p in ps ==> p.0 < n && p.1 < |SampleIds| && Emits(input, input.rows[p.0], p.1, parse)
  {
    if n == 0 then [] else Pairs(input, parse, n - 1) + RowPairs(input, parse, n - 1, |SampleIds|)
  }

  /** A record exists for institution `i` and specimen `j` exactly when that
      specimen's value is present and numeric, and no pair is produced twice. */
  lemma {:induction false} PairsIff(input: Table, parse: string -> Option<real>, n: nat, i: nat, j: nat)
    requires n <= |input.rows|
    ensures (i, j) in Pairs(input, parse, n) <==>
              i < n && j < |SampleIds| && Emits(input, input.rows[i], j, parse)
  {
    if n > 0 {
      PairsIff(input, parse, n - 1, i, j);
    }
  }

  /** Records come out by institution and, within one institution, by specimen. */
  lemma {:induction false} PairsOrdered(input: Table, parse: string -> Option<real>, n: nat)
    requires n <= |input.rows|
    ensures forall a, b :: 0 <= a < b < |Pairs(input, parse, n)| ==>
              LexLess(Pairs(input, parse, n)[a], Pairs(input, parse, n)[b])
  {
    if n > 0 {
      PairsOrdered(input, parse, n - 1);
      var prev := Pairs(input, parse, n - 1);
      var row := RowPairs(input, parse, n - 1, |SampleIds|);
      var ps := Pairs(input, parse, n);
      RowPairsOrdered(input, parse, n - 1, |SampleIds|);
      assert ps == prev + row;
      forall a, b | 0 <= a < b < |ps| ensures LexLess(ps[a], ps[b]) {
        if b < |prev| {
          assert ps[a] == prev[a] && ps[b] == prev[b];
        } else if a < |prev| {
          assert ps[a] == prev[a] && ps[a] in prev;
          assert ps[b] == row[b - |prev|] && ps[b] in row;
          assert ps[a].0 < n - 1 && ps[b].0 == n - 1;
        } else {
          var a', b' := a - |prev|, b - |prev|;
          assert ps[a] == row[a'] && ps[b] == row[b'];
          assert 0 <= a' < b' < |row|;
          assert row[a'].0 == n - 1 && row[a'].1 < row[b'].1;
        }
      }
    }
  }

  // ---------------------------------------------------------------------------
  // Copying statistics from the previous report

  /** The three copy passes: `ALL_`, `기준분류_` and `세분류_` columns. */
  datatype Pass = AllStats | RefStats | SubStats

  /** The columns a pass copies: the prefix matches and, for the two class
      passes, the name does not end in `(text)` or `(Number)`. */
  predicate Selected(p: Pass, col: string)
  {
    match p
    case AllStats => "ALL_" <= col
    case RefStats => "기준분류_" <= col && !EndsWith(col, "(text)") && !EndsWith(col, "(Number)")
    case SubStats => "세분류_" <= col && !EndsWith(col, "(text)") && !EndsWith(col, "(Number)")
  }

  predicate AnySelected(col: string)
  {
    Selected(AllStats, col) || Selected(RefStats, col) || Selected(SubStats, col)
  }

  /** One iteration of a copy loop over column `col`. */
  function Step(rec: Record, p: Pass, col: string, src: Row): (o: Record)
    requires Valid(rec)
    ensures Valid(o)
  {
    if Selected(p, col) && col !in rec.keys then Put(rec, col, Fill(Get(src, col))) else rec
  }

  /** `o` is `rec` followed by entries, each of them a column of `cols` that `p`
      selects, valued from `src` with NaN blanked. */
  predicate Extends(o: Record, rec: Record, p: Pass, cols: seq<string>, src: Row)
  {
    && rec.keys <= o.keys && rec.vals <= o.vals && |o.keys| == |o.vals|
    && forall n :: |rec.keys| <= n < |o.keys| ==>
         o.keys[n] in cols && Selected(p, o.keys[n]) && o.vals[n] == Fill(Get(src, o.keys[n]))
  }

  /** A whole copy loop over `cols`: the selected columns the dict lacks are
      appended with their (NaN-blanked) value; what the dict held stays, in place. */
  function CopyPass(rec: Record, p: Pass, cols: seq<string>, src: Row): (o: Record)
    requires Valid(rec)
    ensures Valid(o)
    ensures Extends(o, rec, p, cols, src)
    ensures forall k :: k in cols && Selected(p, k) ==> k in o.keys
    decreases |cols|
  {
    if cols == [] then rec
    else
      var next := Step(rec, p, cols[0], src);
      var o := CopyPass(next, p, cols[1..], src);
      assert forall k :: k in cols <==> k == cols[0] || k in cols[1..];
      assert forall n :: |rec.keys| <= n < |next.keys| ==> n == |rec.keys| && next.keys[n] == cols[0];
      assert forall k :: k in next.keys ==> k in o.keys by {
        forall k | k in next.keys ensures k in o.keys {
          var n :| 0 <= n < |next.keys| && next.keys[n] == k;
          assert o.keys[n] == k;
        }
      }
      o
  }

  /** The copy loop itself. */
  method CopyColumns(rec: Record, p: Pass, cols: seq<string>, src: Row) returns (o: Record)
    requires Valid(rec)
    ensures o == CopyPass(rec, p, cols, src)
  {
    o := rec;
    var i := 0;
    while i < |cols|
      invariant 0 <= i <= |cols|
      invariant Valid(o)
      invariant CopyPass(o, p, cols[i..], src) == CopyPass(rec, p, cols, src)
    {
      var col := cols[i];
      assert cols[i..][1..] == cols[i + 1..];
      if Selected(p, col) && col !in o.keys {
        o := Put(o, col, Fill(Get(src, col)));
      }
      i := i + 1;
    }
    assert cols[i..] == [];
  }

  /** The previous report's rows for one institution and specimen, in file order. */
  function Matching(prev: Table, lab: Value, sample: string): seq<Row>
  {
    Where(Where(prev.rows, "기관코드", lab), "검체명", Text(sample))
  }

  /** The three copy passes, fed from the first matching row; no previous report
      or no matching row leaves the dict as it was. */
  function MergeStats(rec: Record, existing: Option<Table>, lab: Value, sample: string): Record
    requires Valid(rec)
  {
    match existing
    case None => rec
    case Some(prev) =>
      var m := Matching(prev, lab, sample);
      if m == [] then rec
      else
        var a := CopyPass(rec, AllStats, prev.columns, m[0]);
        var b := CopyPass(a, RefStats, prev.columns, m[0]);
        CopyPass(b, SubStats, prev.columns, m[0])
  }

  /** The merge never overwrites and never reorders what the dict held (its keys
      and its values are prefixes of the result); everything it appends is a
      column of the previous report that one of the passes selects, valued from
      the first row that matches both the institution and the specimen; and every
      such column is there afterwards. */
  lemma MergeStatsFacts(rec: Record, existing: Option<Table>, lab: Value, sample: string)
    requires Valid(rec)
    ensures var o := MergeStats(rec, existing, lab, sample);
      && Valid(o) && rec.keys <= o.keys && rec.vals <= o.vals
      && ((existing.None? || Matching(existing.value, lab, sample) == []) ==> o == rec)
      && (existing.Some? && Matching(existing.value, lab, sample) != [] ==>
            var first := Matching(existing.value, lab, sample)[0];
            && (forall n :: |rec.keys| <= n < |o.keys| ==>
                  o.keys[n] in existing.value.columns && AnySelected(o.keys[n])
                  && o.vals[n] == Fill(Get(first, o.keys[n])))
            && (forall k :: k in existing.value.columns && AnySelected(k) ==> k in o.keys))
  {
    if existing.Some? && Matching(existing.value, lab, sample) != [] {
      var prev := existing.value;
      var first := Matching(prev, lab, sample)[0];
      var a := CopyPass(rec, AllStats, prev.columns, first);
      var b := CopyPass(a, RefStats, prev.columns, first);
      var o := CopyPass(b, SubStats, prev.columns, first);
      assert o == MergeStats(rec, existing, lab, sample);
      KeysGrow(a, b);
      KeysGrow(b, o);
      forall n | |rec.keys| <= n < |o.keys|
        ensures o.keys[n] in prev.columns && AnySelected(o.keys[n]) && o.vals[n] == Fill(Get(first, o.keys[n]))
      {
        if n < |a.keys| {
          assert o.keys[n] == a.keys[n] && o.vals[n] == a.vals[n];
        } else if n < |b.keys| {
          assert o.keys[n] == b.keys[n] && o.vals[n] == b.vals[n];
        }
      }
    }
  }

  lemma KeysGrow(a: Record, b: Record)
    requires a.keys <= b.keys
    ensures forall k :: k in a.keys ==> k in b.keys
  {
    forall k | k in a.keys ensures k in b.keys {
      var n :| 0 <= n < |a.keys| && a.keys[n] == k;
      assert b.keys[n] == k;
    }
  }

  /** The row matched in the previous report is its earliest row with this
      institution code and this specimen name (pandas `==` on both). */
  lemma MatchingFirst(prev: Table, lab: Value, sample: string)
    requires Matching(prev, lab, sample) != []
    ensures var first := Matching(prev, lab, sample)[0];
      && first in prev.rows && PyEq(Get(first, "기관코드"), lab) && PyEq(Get(first, "검체명"), Text(sample))
      && forall i :: 0 <= i < |prev.rows| && PyEq(Get(prev.rows[i], "기관코드"), lab)
                     && PyEq(Get(prev.rows[i], "검체명"), Text(sample)) ==>
                     exists j :: 0 <= j <= i && prev.rows[j] == first
  {
    var byLab := Where(prev.rows, "기관코드", lab);
    var first := Matching(prev, lab, sample)[0];
    WhereHead(byLab, "검체명", Text(sample));
    assert first in byLab;
    forall i | 0 <= i < |prev.rows| && PyEq(Get(prev.rows[i], "기관코드"), lab)
               && PyEq(Get(prev.rows[i], "검체명"), Text(sample))
      ensures exists j :: 0 <= j <= i && prev.rows[j] == first
    {
      WhereOrder(prev.rows, "기관코드", lab, "검체명", Text(sample), i);
    }
  }

  /** Filtering twice keeps frame order: the first row passing both filters comes
      no later than any row passing both. */
  lemma {:induction false} WhereOrder(rows: seq<Row>, c1: string, v1: Value, c2: string, v2: Value, i: nat)
    requires i < |rows| && PyEq(Get(rows[i], c1), v1) && PyEq(Get(rows[i], c2), v2)
    ensures Where(Where(rows, c1, v1), c2, v2) != []
    ensures exists j :: 0 <= j <= i && rows[j] == Where(Where(rows, c1, v1), c2, v2)[0]
  {
    var w := Where(Where(rows, c1, v1), c2, v2);
    assert rows[i] in Where(rows, c1, v1);
    assert rows[i] in w;
    if PyEq(Get(rows[0], c1), v1) && PyEq(Get(rows[0], c2), v2) {
      assert Where(rows, c1, v1) == [rows[0]] + Where(rows[1..], c1, v1);
      assert w[0] == rows[0];
    } else {
      assert i > 0;
      assert w == Where(Where(rows[1..], c1, v1), c2, v2) by {
        if PyEq(Get(rows[0], c1), v1) {
          assert Where(rows, c1, v1) == [rows[0]] + Where(rows[1..], c1, v1);
          assert Where(rows, c1, v1)[1..] == Where(rows[1..], c1, v1);
        } else {
          assert Where(rows, c1, v1) == Where(rows[1..], c1, v1);
        }
      }
      assert rows[1..][i - 1] == rows[i];
      WhereOrder(rows[1..], c1, v1, c2, v2, i - 1);
      var j :| 0 <= j <= i - 1 && rows[1..][j] == w[0];
      assert rows[j + 1] == w[0];
    }
  }

  // ---------------------------------------------------------------------------
  // The report rows

  /** The record written for institution row `i` and specimen `j`. */
  function OutRec(input: Table, existing: Option<Table>, parse: string -> Option<real>, i: nat, j: nat): Record
    requires i < |input.rows| && j < |SampleIds| && Emits(input, input.rows[i], j, parse)
  {
    var r := input.rows[i];
    var result := ToFloat(Get(r, SampleIds[j]), parse).value;
    MergeStats(BaseRow(r, SampleIds[j], result), existing, Get(r, "기관코드"), SampleIds[j])
  }

  /** The records institution row `i` yields for its first `m` specimens. */
  function RowRecords(input: Table, existing: Option<Table>, parse: string -> Option<real>, i: nat, m: nat): (rs: seq<Record>)
    requires i < |input.rows| && m <= |SampleIds|
  {
    if m == 0 then []
    else
      RowRecords(input, existing, parse, i, m - 1)
      + (if Emits(input, input.rows[i], m - 1, parse) then [OutRec(input, existing, parse, i, m - 1)] else [])
  }

  /** The records the first `n` institution rows yield: the value of `report_data`
      after `n` turns of the outer loop. */
  function ReportRows(input: Table, existing: Option<Table>, parse: string -> Option<real>, n: nat): (rs: seq<Record>)
    requires n <= |input.rows|
  {
    if n == 0 then []
    else ReportRows(input, existing, parse, n - 1) + RowRecords(input, existing, parse, n - 1, |SampleIds|)
  }

  lemma {:induction false} RowRecordsAt(input: Table, existing: Option<Table>, parse: string -> Option<real>, i: nat, m: nat)
    requires i < |input.rows| && m <= |SampleIds|
    ensures var rs := RowRecords(input, existing, parse, i, m);
      var ps := RowPairs(input, parse, i, m);
      && |rs| == |ps|
      && forall k :: 0 <= k < |ps| ==> ps[k] in ps && rs[k] == OutRec(input, existing, parse, ps[k].0, ps[k].1)
  {
    if m > 0 {
      RowRecordsAt(input, existing, parse, i, m - 1);
      var rs := RowRecords(input, existing, parse, i, m);
      var ps := RowPairs(input, parse, i, m);
      var rs0 := RowRecords(input, existing, parse, i, m - 1);
      var ps0 := RowPairs(input, parse, i, m - 1);
      if Emits(input, input.rows[i], m - 1, parse) {
        assert ps == ps0 + [(i, m - 1)];
        assert rs == rs0 + [OutRec(input, existing, parse, i, m - 1)];
        forall k | 0 <= k < |ps| ensures ps[k] in ps && rs[k] == OutRec(input, existing, parse, ps[k].0, ps[k].1) {
          if k < |ps0| {
            assert ps[k] == ps0[k] && rs[k] == rs0[k];
          }
        }
      } else {
        assert ps == ps0 && rs == rs0;
      }
    }
  }

  /** The report holds one record per emitted pair, in the order of `Pairs`:
      the `k`-th record is the one built for the `k`-th pair. */
  lemma {:induction false} ReportRowsAt(input: Table, existing: Option<Table>, parse: string -> Option<real>, n: nat)
    requires n <= |input.rows|
    ensures var rs := ReportRows(input, existing, parse, n);
      var ps := Pairs(input, parse, n);
      && |rs| == |ps|
      && forall k :: 0 <= k < |ps| ==> ps[k] in ps && rs[k] == OutRec(input, existing, parse, ps[k].0, ps[k].1)
  {
    if n > 0 {
      ReportRowsAt(input, existing, parse, n - 1);
      RowRecordsAt(input, existing, parse, n - 1, |SampleIds|);
      var rs := ReportRows(input, existing, parse, n);
      var ps := Pairs(input, parse, n);
      var rs0 := ReportRows(input, existing, parse, n - 1);
      var ps0 := Pairs(input, parse, n - 1);
      var rr := RowRecords(input, existing, parse, n - 1, |SampleIds|);
      var rp := RowPairs(input, parse, n - 1, |SampleIds|);
      forall k | 0 <= k < |ps| ensures ps[k] in ps && rs[k] == OutRec(input, existing, parse, ps[k].0, ps[k].1) {
        if k < |ps0| {
          assert ps[k] == ps0[k] && rs[k] == rs0[k];
        } else {
          assert ps[k] == rp[k - |ps0|] && rs[k] == rr[k - |ps0|];
        }
      }
    }
  }

  /** The loop body for one emitted pair: the base dict, then the three copy
      loops when the previous report has a matching row. */
  method MakeRecord(input: Table, existing: Option<Table>, parse: string -> Option<real>, i: nat, j: nat)
    returns (rd: Record)
    requires i < |input.rows| && j < |SampleIds| && Emits(input, input.rows[i], j, parse)
    ensures rd == OutRec(input, existing, parse, i, j)
  {
    var row := input.rows[i];
    var sample := SampleIds[j];
    var parsed := ToFloat(Get(row, sample), parse);
    rd := BaseRow(row, sample, parsed.value);
    if existing.Some? {
      var m := Matching(existing.value, Get(row, "기관코드"), sample);
      if m != [] {
        rd := CopyColumns(rd, AllStats, existing.value.columns, m[0]);
        rd := CopyColumns(rd, RefStats, existing.value.columns, m[0]);
        rd := CopyColumns(rd, SubStats, existing.value.columns, m[0]);
      }
    }
  }

  /** The report build: every institution row, every specimen, one record per
      value that is present and numeric, statistics copied when the previous
      report is available. */
  method BuildReport(input: Table, existing: Option<Table>, parse: string -> Option<real>)
    returns (report: seq<Record>)
    ensures report == ReportRows(input, existing, parse, |input.rows|)
  {
    report := [];
    var i := 0;
    while i < |input.rows|
      invariant 0 <= i <= |input.rows|
      invariant report == ReportRows(input, existing, parse, i)
    {
      var row := input.rows[i];
      var j := 0;
      while j < |SampleIds|
        invariant 0 <= j <= |SampleIds|
        invariant report == ReportRows(input, existing, parse, i) + RowRecords(input, existing, parse, i, j)
      {
        var sample := SampleIds[j];
        var v := Get(row, sample);
        if sample in input.columns && !IsBlank(v) && ToFloat(v, parse).Some? {
          var rd := MakeRecord(input, existing, parse, i, j);
          report := report + [rd];
        }
        j := j + 1;
      }
      i := i + 1;
    }
  }

  /** Each record carries the institution's code, the specimen's name and its
      parsed result; reference class = device company and sub-class = device
      name; a missing or empty reagent company, reagent name or method is `''`;
      and the copied statistics never replace any of these. */
  lemma OutRecFields(input: Table, existing: Option<Table>, parse: string -> Option<real>, i: nat, j: nat)
    requires i < |input.rows| && j < |SampleIds| && Emits(input, input.rows[i], j, parse)
    ensures var r := input.rows[i];
      var o := OutRec(input, existing, parse, i, j);
      && Valid(o) && BaseKeys <= o.keys
      && Lookup(o, "기관코드") == Get(r, "기관코드")
      && Lookup(o, "검체명") == Text(SampleIds[j])
      && Lookup(o, "검사결과") == Number(ToFloat(Get(r, SampleIds[j]), parse).value)
      && Lookup(o, "기준분류") == Get(r, "기기회사") && Lookup(o, "기기회사명") == Get(r, "기기회사")
      && Lookup(o, "세분류") == Get(r, "기기") && Lookup(o, "기기명") == Get(r, "기기")
      && Lookup(o, "시약회사명") == BlankIfEmpty(Get(r, "시약회사"))
      && Lookup(o, "시약명") == BlankIfEmpty(Get(r, "시약"))
      && Lookup(o, "검사방법명") == BlankIfEmpty(Get(r, "검사방법"))
  {
    var r := input.rows[i];
    var result := ToFloat(Get(r, SampleIds[j]), parse).value;
    OutRecBase(input, existing, parse, i, j);
    BaseFields(OutRec(input, existing, parse, i, j), r, SampleIds[j], result);
  }

  lemma OutRecBase(input: Table, existing: Option<Table>, parse: string -> Option<real>, i: nat, j: nat)
    requires i < |input.rows| && j < |SampleIds| && Emits(input, input.rows[i], j, parse)
    ensures var r := input.rows[i];
      var o := OutRec(input, existing, parse, i, j);
      var result := ToFloat(Get(r, SampleIds[j]), parse).value;
      Valid(o) && BaseKeys <= o.keys && BaseValues(r, SampleIds[j], result) <= o.vals
  {
    var r := input.rows[i];
    var result := ToFloat(Get(r, SampleIds[j]), parse).value;
    MergeStatsFacts(BaseRow(r, SampleIds[j], result), existing, Get(r, "기관코드"), SampleIds[j]);
  }

  /** A dict that starts with the base entries looks them up as written. */
  lemma BaseFields(o: Record, row: Row, sample: string, result: real)
    requires Valid(o) && BaseKeys <= o.keys && BaseValues(row, sample, result) <= o.vals
    ensures && Lookup(o, "기관코드") == Get(row, "기관코드") && Lookup(o, "검체명") == Text(sample)
            && Lookup(o, "검사결과") == Number(result)
            && Lookup(o, "기준분류") == Get(row, "기기회사") && Lookup(o, "기기회사명") == Get(row, "기기회사")
            && Lookup(o, "세분류") == Get(row, "기기") && Lookup(o, "기기명") == Get(row, "기기")
            && Lookup(o, "시약회사명") == BlankIfEmpty(Get(row, "시약회사"))
            && Lookup(o, "시약명") == BlankIfEmpty(Get(row, "시약"))
            && Lookup(o, "검사방법명") == BlankIfEmpty(Get(row, "검사방법"))
  {
    var vs := BaseValues(row, sample, result);
    BaseLookup(o, 4, vs);
    BaseLookup(o, 7, vs);
    BaseLookup(o, 8, vs);
    BaseLookup(o, 9, vs);
    BaseLookup(o, 10, vs);
    BaseLookup(o, 15, vs);
    BaseLookup(o, 16, vs);
    BaseLookup(o, 17, vs);
    BaseLookup(o, 18, vs);
    BaseLookup(o, 19, vs);
  }

  lemma BaseLookup(o: Record, n: nat, vs: seq<Value>)
    requires Valid(o) && n < |BaseKeys| == |vs| && BaseKeys <= o.keys && vs <= o.vals
    ensures Lookup(o, BaseKeys[n]) == vs[n]
  {
    assert o.keys[n] == BaseKeys[n];
    LookupAt(o, n);
  }

  // ---------------------------------------------------------------------------
  // Column order

  /** The columns of `pd.DataFrame(report_data)`: every key of every record,
      in order of first appearance. */
  function AllKeys(rs: seq<Record>): seq<string>
  {
    if rs == [] then [] else AllKeys(rs[..|rs| - 1]) + rs[|rs| - 1].keys
  }

  function FrameColumns(rs: seq<Record>): (cols: seq<string>)
    ensures NoDup(cols)
    ensures forall k :: k in cols <==> exists r :: r in rs && k in r.keys
  {
    AllKeysIn(rs);
    Distinct(AllKeys(rs))
  }

  lemma {:induction false} AllKeysIn(rs: seq<Record>)
    ensures forall k :: k in AllKeys(rs) <==> exists r :: r in rs && k in r.keys
  {
    if rs != [] {
      var init := rs[..|rs| - 1];
      AllKeysIn(init);
      forall k ensures k in AllKeys(rs) <==> exists r :: r in rs && k in r.keys {
        if k in AllKeys(rs) && k !in rs[|rs| - 1].keys {
          assert k in AllKeys(init);
          var r :| r in init && k in r.keys;
          assert r in rs;
        }
        if k !in AllKeys(rs) {
          forall r | r in rs ensures k !in r.keys {
            if r != rs[|rs| - 1] {
              var n :| 0 <= n < |rs| && rs[n] == r;
              assert init[n] == r;
            }
          }
        }
      }
    }
  }

  /** Existing columns first, in the previous report's order, then the new ones
      in the report's order. */
  function OrderColumns(existing: seq<string>, report: seq<string>): (cols: seq<string>)
  {
    Keep(existing, report, true) + Keep(report, existing, false)
  }

  /** The reordered frame has exactly the report's columns, each once (a
      permutation of them); the old ones come first, as a subsequence of the
      previous order; the new ones after, as a subsequence of the report's order. */
  lemma OrderColumnsPermutes(existing: seq<string>, report: seq<string>)
    requires NoDup(existing) && NoDup(report)
    ensures var cols := OrderColumns(existing, report);
      var keep := Keep(existing, report, true);
      && NoDup(cols)
      && (forall c :: c in cols <==> c in report)
      && |cols| == |report|
      && IsSubseq(keep, existing)
      && IsSubseq(cols[|keep|..], report)
      && (forall a :: 0 <= a < |keep| ==> cols[a] in existing)
      && (forall a :: |keep| <= a < |cols| ==> cols[a] !in existing)
  {
    var cols := OrderColumns(existing, report);
    var keep := Keep(existing, report, true);
    var add := Keep(report, existing, false);
    assert cols[|keep|..] == add;
    forall a, b | 0 <= a < b < |cols| ensures cols[a] != cols[b] {
      if a < |keep| && b >= |keep| {
        assert cols[a] == keep[a] && cols[b] == add[b - |keep|];
        assert cols[a] in keep && cols[b] in add;
      } else if b < |keep| {
        assert cols[a] == keep[a] && cols[b] == keep[b];
      } else {
        assert cols[a] == add[a - |keep|] && cols[b] == add[b - |keep|];
      }
    }
    forall a | 0 <= a < |keep| ensures cols[a] in existing { assert cols[a] == keep[a] && keep[a] in keep; }
    forall a | |keep| <= a < |cols| ensures cols[a] !in existing { assert cols[a] == add[a - |keep|] && add[a - |keep|] in add; }
    NoDupSameSize(cols, report);
  }

  /** Two duplicate-free lists with the same elements have the same length. */
  lemma NoDupSameSize(a: seq<string>, b: seq<string>)
    requires NoDup(a) && NoDup(b) && forall x :: x in a <==> x in b
    ensures |a| == |b|
  {
    NoDupCard(a);
    NoDupCard(b);
    assert (set x | x in a) == (set x | x in b);
  }

  lemma {:induction false} NoDupCard(a: seq<string>)
    requires NoDup(a)
    ensures |set x | x in a| == |a|
  {
    if a != [] {
      var init := a[..|a| - 1];
      assert NoDup(init);
      NoDupCard(init);
      assert a[|a| - 1] !in init;
      assert (set x | x in a) == (set x | x in init) + {a[|a| - 1]};
    }
  }

  /** `safe_get`: a column the row lacks reads as `''`. */
  function SafeGet(row: Row, col: string): (v: Value)
    ensures col !in row ==> v == Text("")
    ensures col in row ==> v == Get(row, col)
  {
    if col in row then row[col] else Text("")
  }
}
