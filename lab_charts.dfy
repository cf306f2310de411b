/** The data rules behind the per-institution charts of `generate_lab_report.py`:
    the Levey-Jennings SDI series, the histogram's row selection and clipping,
    the Youden plot's join and axis limits, and the choice of institutions that
    get a report. Drawing is not modelled; each rule yields the values a chart
    would be drawn from, or None where the chart function returns None. */
module LabCharts {
  import opened Tabular
  import LabReport

  const SdiColumn := "기준분류_sdi (Number)"
  const OutlierColumn := "ALL_Outlier"
  const MaxReports := 5

  // ---------------------------------------------------------------------------
  // Levey-Jennings: one SDI per specimen

  /** Row `k` is the earliest row of `rows` for specimen `specimen`. */
  predicate FirstFor(rows: seq<Row>, specimen: string, k: int)
  {
    && 0 <= k < |rows|
    && PyEq(Get(rows[k], "검체명"), Text(specimen))
    && forall j :: 0 <= j < k ==> !PyEq(Get(rows[j], "검체명"), Text(specimen))
  }

  /** The SDI plotted for one specimen: the `기준분류_sdi (Number)` cell of the
      institution's first row for it, or 0 when there is no such row, the cell
      is NaN or absent, or `float()` rejects it. */
  function SdiOf(lab: seq<Row>, specimen: string, parse: string -> Option<real>): real
  {
    var m := Where(lab, "검체명", Text(specimen));
    if m == [] then 0.0
    else
      var x := ToFloat(Get(m[0], SdiColumn), parse);
      if x.Some? then x.value else 0.0
  }

  /** Where each plotted SDI comes from: nothing for a specimen the institution
      has no row for, otherwise its first row's SDI, and 0 when that does not
      read as a number. */
  lemma SdiFromFirstRow(lab: seq<Row>, specimen: string, parse: string -> Option<real>)
    ensures (forall k :: 0 <= k < |lab| ==> !PyEq(Get(lab[k], "검체명"), Text(specimen)))
            ==> SdiOf(lab, specimen, parse) == 0.0
    ensures forall k :: FirstFor(lab, specimen, k) ==>
              SdiOf(lab, specimen, parse)
              == (if ToFloat(Get(lab[k], SdiColumn), parse).Some?
                  then ToFloat(Get(lab[k], SdiColumn), parse).value else 0.0)
  {
    var m := Where(lab, "검체명", Text(specimen));
    if m != [] {
      WhereHead(lab, "검체명", Text(specimen));
      var i :| 0 <= i < |lab| && lab[i] == m[0] && PyEq(Get(lab[i], "검체명"), Text(specimen))
               && forall j :: 0 <= j < i ==> !PyEq(Get(lab[j], "검체명"), Text(specimen));
      forall k | FirstFor(lab, specimen, k) ensures lab[k] == m[0] {
        assert !(k < i) && !(i < k);
      }
    } else {
      forall k | 0 <= k < |lab| ensures !PyEq(Get(lab[k], "검체명"), Text(specimen)) {
        assert lab[k] in lab;
      }
    }
  }

  /** The SDI loop: one value per fixed specimen, in specimen order, so the
      series is never empty. */
  method ExtractSdi(lab: seq<Row>, parse: string -> Option<real>) returns (sdi: seq<real>)
    ensures |sdi| == |LabReport.SampleIds|
    ensures forall k :: 0 <= k < |sdi| ==> sdi[k] == SdiOf(lab, LabReport.SampleIds[k], parse)
  {
    sdi := [];
    var k := 0;
    while k < |LabReport.SampleIds|
      invariant 0 <= k <= |LabReport.SampleIds|
      invariant |sdi| == k
      invariant forall n :: 0 <= n < k ==> sdi[n] == SdiOf(lab, LabReport.SampleIds[n], parse)
    {
      var specimen := LabReport.SampleIds[k];
      var m := Where(lab, "검체명", Text(specimen));
      if m != [] {
        var x := ToFloat(Get(m[0], SdiColumn), parse);
        if x.Some? {
          sdi := sdi + [x.value];
        } else {
          sdi := sdi + [0.0];
        }
      } else {
        sdi := sdi + [0.0];
      }
      k := k + 1;
    }
  }

  // ---------------------------------------------------------------------------
  // Histogram: which results are drawn, and the clipping to the percentile range

  /** The outlier filter keeps a row unless the frame has an `ALL_Outlier`
      column and the row's cell there equals `'YES'` (NaN is kept). */
  predicate NotOutlier(t: Table, r: Row)
  {
    OutlierColumn in t.columns ==> !PyEq(Get(r, OutlierColumn), Text("YES"))
  }

  function DropOutliers(t: Table, rows: seq<Row>): (r: seq<Row>)
    ensures forall x :: x in r <==> x in rows && NotOutlier(t, x)
  {
    if rows == [] then []
    else
      assert forall x :: x in rows <==> x == rows[0] || x in rows[1..];
      (if NotOutlier(t, rows[0]) then [rows[0]] else []) + DropOutliers(t, rows[1..])
  }

  /** `pd.to_numeric(rows[col], errors='coerce').dropna()`: the cells that read
      as numbers, in row order. */
  function Numeric(rows: seq<Row>, col: string, parse: string -> Option<real>): (xs: seq<real>)
    ensures |xs| == |Select(rows, r => ToFloat(Get(r, col), parse).Some?)| <= |rows|
    ensures forall r :: r in rows && ToFloat(Get(r, col), parse).Some? ==> ToFloat(Get(r, col), parse).value in xs
    ensures forall x :: x in xs ==> exists r :: r in rows && ToFloat(Get(r, col), parse) == Some(x)
  {
    if rows == [] then []
    else
      assert forall x :: x in rows <==> x == rows[0] || x in rows[1..];
      var v := ToFloat(Get(rows[0], col), parse);
      (if v.Some? then [v.value] else []) + Numeric(rows[1..], col, parse)
  }

  /** The results a histogram is drawn from: the whole specimen, the
      institution's reference class within it, and that class. */
  datatype Histogram = Histogram(all: seq<real>, lab: seq<real>, refClass: Value)

  /** The selection rule of the histogram function: None when the specimen has
      no non-outlier row, no numeric result, the institution has no row, or its
      reference class has no numeric result for the specimen. The class is read
      from the institution's first row. */
  function HistogramInput(t: Table, specimen: string, lab: Value, parse: string -> Option<real>)
    : (r: Option<Histogram>)
    ensures r.Some? ==> |r.value.all| > 0 && |r.value.lab| > 0
  {
    var specimenRows := Where(t.rows, "검체명", Text(specimen));
    var allRows := DropOutliers(t, specimenRows);
    if allRows == [] then None
    else
      var all := Numeric(allRows, "검사결과", parse);
      if all == [] then None
      else
        var labRows := Where(t.rows, "기관코드", lab);
        if labRows == [] then None
        else
          var refClass := Get(labRows[0], "기준분류");
          var classRows := DropOutliers(t, Where(specimenRows, "기준분류", refClass));
          var labValues := Numeric(classRows, "검사결과", parse);
          if labValues == [] then None else Some(Histogram(all, labValues, refClass))
  }

  /** The outlier filter keeps a subsequence a subsequence. */
  lemma {:induction false} DropOutliersMono(t: Table, a: seq<Row>, s: seq<Row>)
    requires IsSubseq(a, s)
    ensures IsSubseq(DropOutliers(t, a), DropOutliers(t, s))
  {
    if a != [] {
      var ds := DropOutliers(t, s[1..]);
      assert DropOutliers(t, s) == (if NotOutlier(t, s[0]) then [s[0]] else []) + ds;
      if a[0] == s[0] {
        DropOutliersMono(t, a[1..], s[1..]);
        var da := DropOutliers(t, a[1..]);
        assert DropOutliers(t, a) == (if NotOutlier(t, a[0]) then [a[0]] else []) + da;
        if NotOutlier(t, s[0]) {
          assert DropOutliers(t, a) == [s[0]] + da && DropOutliers(t, s) == [s[0]] + ds;
          assert ([s[0]] + da)[1..] == da && ([s[0]] + ds)[1..] == ds;
        } else {
          assert DropOutliers(t, a) == da && DropOutliers(t, s) == ds;
        }
      } else {
        DropOutliersMono(t, a, s[1..]);
        if NotOutlier(t, s[0]) {
          SubseqCons(DropOutliers(t, a), ds, s[0]);
          assert DropOutliers(t, s) == [s[0]] + ds;
        } else {
          assert DropOutliers(t, s) == ds;
        }
      }
    }
  }

  /** The outlier filter keeps the surviving rows in frame order, each as
      often as the frame holds it. */
  lemma {:induction false} DropOutliersSubseq(t: Table, rows: seq<Row>)
    ensures IsSubseq(DropOutliers(t, rows), rows)
    ensures forall x :: multiset(DropOutliers(t, rows))[x] == if NotOutlier(t, x) then multiset(rows)[x] else 0
  {
    if rows != [] {
      var rest := DropOutliers(t, rows[1..]);
      DropOutliersSubseq(t, rows[1..]);
      assert rows == [rows[0]] + rows[1..];
      assert multiset(rows) == multiset{rows[0]} + multiset(rows[1..]);
      if NotOutlier(t, rows[0]) {
        var w := [rows[0]] + rest;
        assert DropOutliers(t, rows) == w && w[1..] == rest;
        assert multiset(w) == multiset{rows[0]} + multiset(rest);
      } else {
        SubseqCons(rest, rows[1..], rows[0]);
        assert DropOutliers(t, rows) == rest;
      }
    }
  }

  /** A row the histogram plots for a specimen: it is the specimen's, it is
      not an outlier, and its result reads as a number. */
  predicate Plotted(t: Table, specimen: string, parse: string -> Option<real>, r: Row)
  {
    PyEq(Get(r, "검체명"), Text(specimen)) && NotOutlier(t, r) && ToFloat(Get(r, "검사결과"), parse).Some?
  }

  /** One row in front adds one plotted value exactly when it is kept and parses. */
  lemma PlotCons(t: Table, x: Row, rs: seq<Row>, parse: string -> Option<real>)
    ensures |Numeric(DropOutliers(t, [x] + rs), "검사결과", parse)| ==
      (if NotOutlier(t, x) && ToFloat(Get(x, "검사결과"), parse).Some? then 1 else 0)
      + |Numeric(DropOutliers(t, rs), "검사결과", parse)|
  {
    var s := [x] + rs;
    assert s[0] == x && s[1..] == rs;
    var d := DropOutliers(t, rs);
    if NotOutlier(t, x) {
      var e := [x] + d;
      assert DropOutliers(t, s) == e;
      assert e[0] == x && e[1..] == d;
    } else {
      assert DropOutliers(t, s) == d;
    }
  }

  /** `total_count`: one value per plotted row of the specimen. */
  lemma {:induction false} SpecimenCount(t: Table, rows: seq<Row>, specimen: string, parse: string -> Option<real>)
    ensures |Numeric(DropOutliers(t, Where(rows, "검체명", Text(specimen))), "검사결과", parse)|
      == |Select(rows, r => Plotted(t, specimen, parse, r))|
  {
    if rows != [] {
      var x := rows[0];
      var rest := Where(rows[1..], "검체명", Text(specimen));
      SpecimenCount(t, rows[1..], specimen, parse);
      if PyEq(Get(x, "검체명"), Text(specimen)) {
        assert Where(rows, "검체명", Text(specimen)) == [x] + rest;
        PlotCons(t, x, rest, parse);
      } else {
        assert Where(rows, "검체명", Text(specimen)) == rest;
      }
    }
  }

  /** `lab_count`: one value per plotted row of the specimen in the class. */
  lemma {:induction false} ClassCount(t: Table, rows: seq<Row>, specimen: string, cls: Value, parse: string -> Option<real>)
    ensures |Numeric(DropOutliers(t, Where(Where(rows, "검체명", Text(specimen)), "기준분류", cls)), "검사결과", parse)|
      == |Select(rows, r => Plotted(t, specimen, parse, r) && PyEq(Get(r, "기준분류"), cls))|
  {
    if rows != [] {
      var x := rows[0];
      var rest := Where(rows[1..], "검체명", Text(specimen));
      var inner := Where(rest, "기준분류", cls);
      ClassCount(t, rows[1..], specimen, cls, parse);
      if PyEq(Get(x, "검체명"), Text(specimen)) {
        var w := [x] + rest;
        assert Where(rows, "검체명", Text(specimen)) == w;
        assert w[0] == x && w[1..] == rest;
        if PyEq(Get(x, "기준분류"), cls) {
          assert Where(w, "기준분류", cls) == [x] + inner;
          PlotCons(t, x, inner, parse);
        } else {
          assert Where(w, "기준분류", cls) == inner;
        }
      } else {
        assert Where(rows, "검체명", Text(specimen)) == rest;
      }
    }
  }

  /** Numeric extraction keeps a subsequence a subsequence. */
  lemma {:induction false} NumericMono(a: seq<Row>, s: seq<Row>, col: string, parse: string -> Option<real>)
    requires IsSubseq(a, s)
    ensures IsSubseq(Numeric(a, col, parse), Numeric(s, col, parse))
  {
    if a != [] {
      var ns := Numeric(s[1..], col, parse);
      var v := ToFloat(Get(s[0], col), parse);
      assert Numeric(s, col, parse) == (if v.Some? then [v.value] else []) + ns;
      if a[0] == s[0] {
        NumericMono(a[1..], s[1..], col, parse);
        var na := Numeric(a[1..], col, parse);
        assert Numeric(a, col, parse) == (if v.Some? then [v.value] else []) + na;
        if v.Some? {
          assert Numeric(a, col, parse) == [v.value] + na && Numeric(s, col, parse) == [v.value] + ns;
          assert ([v.value] + na)[1..] == na && ([v.value] + ns)[1..] == ns;
        } else {
          assert Numeric(a, col, parse) == na && Numeric(s, col, parse) == ns;
        }
      } else {
        NumericMono(a, s[1..], col, parse);
        if v.Some? {
          SubseqCons(Numeric(a, col, parse), ns, v.value);
          assert Numeric(s, col, parse) == [v.value] + ns;
        } else {
          assert Numeric(s, col, parse) == ns;
        }
      }
    }
  }

  /** What a drawn histogram holds: the class's results are drawn from the
      specimen's results (so `lab_count <= total_count`); every result is from a
      non-outlier row of the specimen; the class is the one on the
      institution's first row, and a class's results are that class's. */
  lemma HistogramFacts(t: Table, specimen: string, lab: Value, parse: string -> Option<real>)
    ensures var r := HistogramInput(t, specimen, lab, parse);
      r.Some? ==>
        && IsSubseq(r.value.lab, r.value.all)
        && |r.value.lab| <= |r.value.all|
        && (forall x :: x in r.value.all ==>
              exists row :: row in t.rows && PyEq(Get(row, "검체명"), Text(specimen)) && NotOutlier(t, row)
                            && ToFloat(Get(row, "검사결과"), parse) == Some(x))
        && (forall x :: x in r.value.lab ==>
              exists row :: row in t.rows && PyEq(Get(row, "검체명"), Text(specimen)) && NotOutlier(t, row)
                            && PyEq(Get(row, "기준분류"), r.value.refClass)
                            && ToFloat(Get(row, "검사결과"), parse) == Some(x))
        && (exists k :: 0 <= k < |t.rows| && PyEq(Get(t.rows[k], "기관코드"), lab)
                        && r.value.refClass == Get(t.rows[k], "기준분류")
                        && forall j :: 0 <= j < k ==> !PyEq(Get(t.rows[j], "기관코드"), lab))
  {
    var r := HistogramInput(t, specimen, lab, parse);
    if r.Some? {
      var specimenRows := Where(t.rows, "검체명", Text(specimen));
      var classRows := Where(specimenRows, "기준분류", r.value.refClass);
      WhereSubseq(specimenRows, "기준분류", r.value.refClass);
      DropOutliersMono(t, classRows, specimenRows);
      NumericMono(DropOutliers(t, classRows), DropOutliers(t, specimenRows), "검사결과", parse);
      SubseqLength(r.value.lab, r.value.all);
      WhereHead(t.rows, "기관코드", lab);
    }
  }

  /** The counts printed under the histogram: `total_count` is the number of
      the specimen's non-outlier rows whose result parses, and `lab_count`
      the number of those in the class, duplicates included. */
  lemma HistogramCounts(t: Table, specimen: string, lab: Value, parse: string -> Option<real>)
    ensures var r := HistogramInput(t, specimen, lab, parse);
      r.Some? ==>
        && |r.value.all| == |Select(t.rows, x => Plotted(t, specimen, parse, x))|
        && |r.value.lab| == |Select(t.rows, x => Plotted(t, specimen, parse, x) && PyEq(Get(x, "기준분류"), r.value.refClass))|
  {
    var r := HistogramInput(t, specimen, lab, parse);
    if r.Some? {
      SpecimenCount(t, t.rows, specimen, parse);
      ClassCount(t, t.rows, specimen, r.value.refClass, parse);
    }
  }

  /** Nothing the histogram should show is lost: every parsing result of a
      non-outlier row of the specimen is among `all`, and every such row of
      the institution's class is among `lab`. */
  lemma HistogramComplete(t: Table, specimen: string, lab: Value, parse: string -> Option<real>)
    ensures var r := HistogramInput(t, specimen, lab, parse);
      r.Some? ==>
        && (forall row :: row in t.rows && PyEq(Get(row, "검체명"), Text(specimen)) && NotOutlier(t, row)
                          && ToFloat(Get(row, "검사결과"), parse).Some? ==>
              ToFloat(Get(row, "검사결과"), parse).value in r.value.all)
        && (forall row :: row in t.rows && PyEq(Get(row, "검체명"), Text(specimen)) && NotOutlier(t, row)
                          && PyEq(Get(row, "기준분류"), r.value.refClass)
                          && ToFloat(Get(row, "검사결과"), parse).Some? ==>
              ToFloat(Get(row, "검사결과"), parse).value in r.value.lab)
  {
  }

  /** The histogram is drawn exactly when the specimen has a non-outlier row
      that parses, the institution has a row, and the specimen has a
      non-outlier row of the class on the institution's first row that
      parses. */
  lemma HistogramPresent(t: Table, specimen: string, lab: Value, parse: string -> Option<real>)
    ensures var labRows := Where(t.rows, "기관코드", lab);
      HistogramInput(t, specimen, lab, parse).Some? <==>
        && (exists row :: row in t.rows && PyEq(Get(row, "검체명"), Text(specimen)) && NotOutlier(t, row)
                          && ToFloat(Get(row, "검사결과"), parse).Some?)
        && labRows != []
        && (exists row :: row in t.rows && PyEq(Get(row, "검체명"), Text(specimen)) && NotOutlier(t, row)
                          && PyEq(Get(row, "기준분류"), Get(labRows[0], "기준분류"))
                          && ToFloat(Get(row, "검사결과"), parse).Some?)
  {
    var specimenRows := Where(t.rows, "검체명", Text(specimen));
    var allRows := DropOutliers(t, specimenRows);
    NumericNonEmpty(allRows, "검사결과", parse);
    var labRows := Where(t.rows, "기관코드", lab);
    if labRows != [] {
      var refClass := Get(labRows[0], "기준분류");
      var classRows := DropOutliers(t, Where(specimenRows, "기준분류", refClass));
      NumericNonEmpty(classRows, "검사결과", parse);
    }
  }

  /** Some cell parses exactly when the numeric extraction is non-empty. */
  lemma NumericNonEmpty(rows: seq<Row>, col: string, parse: string -> Option<real>)
    ensures Numeric(rows, col, parse) != [] <==> exists r :: r in rows && ToFloat(Get(r, col), parse).Some?
  {
    var xs := Numeric(rows, col, parse);
    if xs != [] {
      assert xs[0] in xs;
    }
  }

  /** A class that is NaN selects nothing, so an institution whose first row has
      no reference class gets no histogram. */
  lemma NaNClassNoHistogram(t: Table, specimen: string, lab: Value, parse: string -> Option<real>)
    requires forall k :: 0 <= k < |t.rows| && PyEq(Get(t.rows[k], "기관코드"), lab) ==>
               Get(t.rows[k], "기준분류") == Missing
    ensures HistogramInput(t, specimen, lab, parse) == None
  {
    var labRows := Where(t.rows, "기관코드", lab);
    if labRows != [] {
      WhereHead(t.rows, "기관코드", lab);
      WhereMissing(Where(t.rows, "검체명", Text(specimen)), "기준분류");
    }
  }

  function Lesser(a: real, b: real): real { if a <= b then a else b }
  function Greater(a: real, b: real): real { if a <= b then b else a }

  /** `Series.clip(lower, upper)` on one value. pandas swaps scalar bounds
      given in the wrong order. */
  function ClipOne(x: real, lo: real, hi: real): (y: real)
    ensures Lesser(lo, hi) <= y <= Greater(lo, hi)
    ensures Lesser(lo, hi) <= x <= Greater(lo, hi) ==> y == x
    ensures x < Lesser(lo, hi) ==> y == Lesser(lo, hi)
    ensures x > Greater(lo, hi) ==> y == Greater(lo, hi)
  {
    var l, h := Lesser(lo, hi), Greater(lo, hi);
    if x < l then l else if x > h then h else x
  }

  /** The clipped series: the values outside the percentile range are drawn
      in the first and last bins. */
  function Clip(xs: seq<real>, lo: real, hi: real): (r: seq<real>)
    ensures |r| == |xs|
    ensures forall k :: 0 <= k < |r| ==> r[k] == ClipOne(xs[k], lo, hi)
  {
    seq(|xs|, k requires 0 <= k < |xs| => ClipOne(xs[k], lo, hi))
  }

  /** Clipping keeps every value and puts each one inside the bounds; the
      values already inside are untouched. */
  lemma ClipBounds(xs: seq<real>, lo: real, hi: real)
    requires lo <= hi
    ensures |Clip(xs, lo, hi)| == |xs|
    ensures forall k :: 0 <= k < |xs| ==> lo <= Clip(xs, lo, hi)[k] <= hi
    ensures forall k :: 0 <= k < |xs| && lo <= xs[k] <= hi ==> Clip(xs, lo, hi)[k] == xs[k]
  {
  }

  function CountBelow(xs: seq<real>, lo: real): nat
  {
    if xs == [] then 0 else (if xs[0] < lo then 1 else 0) + CountBelow(xs[1..], lo)
  }

  function CountAbove(xs: seq<real>, hi: real): nat
  {
    if xs == [] then 0 else (if xs[0] > hi then 1 else 0) + CountAbove(xs[1..], hi)
  }

  function CountWithin(xs: seq<real>, lo: real, hi: real): nat
  {
    if xs == [] then 0 else (if lo <= xs[0] <= hi then 1 else 0) + CountWithin(xs[1..], lo, hi)
  }

  /** `in_count`: the total less the values below and above the range. */
  function InCount(xs: seq<real>, lo: real, hi: real): int
  {
    |xs| - CountBelow(xs, lo) - CountAbove(xs, hi)
  }

  /** With `lo <= hi` each value is below, inside or above the range and in
      exactly one of them, so `in_count` counts the values inside. */
  lemma {:induction false} InCountWithin(xs: seq<real>, lo: real, hi: real)
    requires lo <= hi
    ensures CountBelow(xs, lo) + CountWithin(xs, lo, hi) + CountAbove(xs, hi) == |xs|
    ensures InCount(xs, lo, hi) == CountWithin(xs, lo, hi) >= 0
  {
    if xs != [] {
      InCountWithin(xs[1..], lo, hi);
    }
  }

  // ---------------------------------------------------------------------------
  // Youden plot: the inner join of two specimens and the axis limits

  /** `pd.merge` key equality: NaN keys join each other, numbers by value. */
  predicate KeyEq(a: Value, b: Value)
  {
    PyEq(a, b) || (a == Missing && b == Missing)
  }

  predicate Joins(a: Row, b: Row)
  {
    KeyEq(Get(a, "기관코드"), Get(b, "기관코드"))
  }

  /** The pairs one left row forms with the right rows, in right order. */
  function JoinRow(a: Row, ys: seq<Row>): (r: seq<(Row, Row)>)
    ensures forall q :: q in r <==> q.0 == a && q.1 in ys && Joins(a, q.1)
  {
    if ys == [] then []
    else
      assert forall y :: y in ys <==> y == ys[0] || y in ys[1..];
      (if Joins(a, ys[0]) then [(a, ys[0])] else []) + JoinRow(a, ys[1..])
  }

  /** The inner join on `기관코드`: every joining pair, left rows first. */
  function Join(xs: seq<Row>, ys: seq<Row>): (r: seq<(Row, Row)>)
    ensures forall q :: q in r <==> q.0 in xs && q.1 in ys && Joins(q.0, q.1)
  {
    if xs == [] then []
    else
      assert forall x :: x in xs <==> x == xs[0] || x in xs[1..];
      JoinRow(xs[0], ys) + Join(xs[1..], ys)
  }

  /** One plotted institution: its code and its two results. */
  datatype Point = Point(code: Value, x: real, y: real)

  predicate BothNumeric(q: (Row, Row), parse: string -> Option<real>)
  {
    ToFloat(Get(q.0, "검사결과"), parse).Some? && ToFloat(Get(q.1, "검사결과"), parse).Some?
  }

  function PointOf(q: (Row, Row), parse: string -> Option<real>): Point
    requires BothNumeric(q, parse)
  {
    Point(Get(q.0, "기관코드"), ToFloat(Get(q.0, "검사결과"), parse).value, ToFloat(Get(q.1, "검사결과"), parse).value)
  }

  /** The joined rows with both results numeric (`dropna` after `to_numeric`). */
  function Points(js: seq<(Row, Row)>, parse: string -> Option<real>): (ps: seq<Point>)
    ensures |ps| <= |js|
    ensures forall q :: q in js && BothNumeric(q, parse) ==> PointOf(q, parse) in ps
    ensures forall p :: p in ps ==> exists q :: q in js && BothNumeric(q, parse) && p == PointOf(q, parse)
  {
    if js == [] then []
    else
      assert forall q :: q in js <==> q == js[0] || q in js[1..];
      (if BothNumeric(js[0], parse) then [PointOf(js[0], parse)] else []) + Points(js[1..], parse)
  }

  function Xs(ps: seq<Point>): (r: seq<real>)
    ensures |r| == |ps| && forall k :: 0 <= k < |ps| ==> r[k] == ps[k].x
  {
    seq(|ps|, k requires 0 <= k < |ps| => ps[k].x)
  }

  function Ys(ps: seq<Point>): (r: seq<real>)
    ensures |r| == |ps| && forall k :: 0 <= k < |ps| ==> r[k] == ps[k].y
  {
    seq(|ps|, k requires 0 <= k < |ps| => ps[k].y)
  }

  function SeqMin(s: seq<real>): (m: real)
    requires |s| > 0
    ensures m in s && forall x :: x in s ==> m <= x
  {
    if |s| == 1 then s[0]
    else
      assert forall x :: x in s <==> x == s[0] || x in s[1..];
      Lesser(s[0], SeqMin(s[1..]))
  }

  function SeqMax(s: seq<real>): (m: real)
    requires |s| > 0
    ensures m in s && forall x :: x in s ==> x <= m
  {
    if |s| == 1 then s[0]
    else
      assert forall x :: x in s <==> x == s[0] || x in s[1..];
      Greater(s[0], SeqMax(s[1..]))
  }

  /** The axis limits of one direction: the data's minimum and maximum and the
      two edges of the mean ± 3 SD box, widened by a tenth of their range on
      each side (a range of 1.0 when they all coincide). */
  function AxisLimits(vs: seq<real>, mean: real, sd: real): (lim: (real, real))
    requires |vs| > 0
  {
    var candidates := Candidates(SeqMin(vs), SeqMax(vs), mean, sd);
    Padded(SeqMin(candidates), SeqMax(candidates))
  }

  /** The data's minimum and maximum and the box drawn from `mean - 3·sd`
      with width `6·sd`. */
  function Candidates(lo: real, hi: real, mean: real, sd: real): (c: seq<real>)
    ensures |c| == 4
  {
    var boxLow := mean - 3.0 * sd;
    var boxWidth := 6.0 * sd;
    [lo, hi, boxLow, boxLow + boxWidth]
  }

  /** `lo` and `hi` widened by a tenth of their range, or by 0.1 when they coincide. */
  function Padded(lo: real, hi: real): (real, real)
  {
    var range := if hi > lo then hi - lo else 1.0;
    var pad := range * 0.1;
    (lo - pad, hi + pad)
  }

  /** The limits are ordered and strictly contain every data point and both
      box edges; they sit exactly 10% of the span beyond the extreme of those. */
  lemma AxisLimitsContain(vs: seq<real>, mean: real, sd: real)
    requires |vs| > 0
    ensures var lim := AxisLimits(vs, mean, sd);
      && lim.0 < lim.1
      && (forall v :: v in vs ==> lim.0 < v < lim.1)
      && lim.0 < mean - 3.0 * sd < lim.1
      && lim.0 < mean + 3.0 * sd < lim.1
  {
    var candidates := Candidates(SeqMin(vs), SeqMax(vs), mean, sd);
    assert candidates == [SeqMin(vs), SeqMax(vs), mean - 3.0 * sd, mean - 3.0 * sd + 6.0 * sd];
    assert mean - 3.0 * sd in candidates && mean - 3.0 * sd + 6.0 * sd in candidates;
    assert SeqMin(vs) in candidates && SeqMax(vs) in candidates;
  }

  /** `min` and `max` of a four-element list. */
  lemma MinMax4(a: real, b: real, c: real, d: real)
    ensures SeqMin([a, b, c, d]) == Lesser(a, Lesser(b, Lesser(c, d)))
    ensures SeqMax([a, b, c, d]) == Greater(a, Greater(b, Greater(c, d)))
  {
    assert [c, d][1..] == [d];
    assert SeqMin([c, d]) == Lesser(c, d) && SeqMax([c, d]) == Greater(c, d);
    assert [b, c, d][1..] == [c, d];
    assert SeqMin([b, c, d]) == Lesser(b, Lesser(c, d)) && SeqMax([b, c, d]) == Greater(b, Greater(c, d));
    assert [a, b, c, d][1..] == [b, c, d];
  }

  /** The span of the limits: 1.2 times the span of the data and box, or 0.2
      when that span is zero. */
  lemma AxisLimitsPad(vs: seq<real>, mean: real, sd: real)
    requires |vs| > 0
    ensures var lo := Lesser(Lesser(SeqMin(vs), mean - 3.0 * sd), mean + 3.0 * sd);
      var hi := Greater(Greater(SeqMax(vs), mean - 3.0 * sd), mean + 3.0 * sd);
      var lim := AxisLimits(vs, mean, sd);
      && (hi > lo ==> lim.0 == lo - (hi - lo) / 10.0 && lim.1 == hi + (hi - lo) / 10.0)
      && (hi == lo ==> lim.0 == lo - 0.1 && lim.1 == hi + 0.1)
  {
    var lo := Lesser(Lesser(SeqMin(vs), mean - 3.0 * sd), mean + 3.0 * sd);
    var hi := Greater(Greater(SeqMax(vs), mean - 3.0 * sd), mean + 3.0 * sd);
    assert SeqMin(vs) <= SeqMax(vs) by { assert SeqMin(vs) in vs; }
    CandidatesExtremes(SeqMin(vs), SeqMax(vs), mean, sd);
    PaddedShape(lo, hi);
  }

  /** The extremes of the four candidates when the data minimum is at most the maximum. */
  lemma CandidateExtremes(mn: real, mx: real, b: real, e: real)
    requires mn <= mx
    ensures SeqMin([mn, mx, b, e]) == Lesser(Lesser(mn, b), e)
    ensures SeqMax([mn, mx, b, e]) == Greater(Greater(mx, b), e)
    ensures Lesser(Lesser(mn, b), e) <= Greater(Greater(mx, b), e)
  {
    MinMax4(mn, mx, b, e);
    MinSkip(mn, mx, b, e);
    LesserGreater(mn, mx, b, e);
  }

  /** `min(min(a, b), e) <= max(max(m, b), e)` when `a <= m`. */
  lemma LesserGreater(a: real, m: real, b: real, e: real)
    requires a <= m
    ensures Lesser(Lesser(a, b), e) <= Greater(Greater(m, b), e)
  {
  }

  /** The padding: a tenth of the range on each side, or 0.1 for a zero range. */
  lemma PaddedShape(lo: real, hi: real)
    requires lo <= hi
    ensures hi > lo ==> Padded(lo, hi) == (lo - (hi - lo) / 10.0, hi + (hi - lo) / 10.0)
    ensures hi == lo ==> Padded(lo, hi) == (lo - 0.1, hi + 0.1)
  {
    TenthIsDiv(hi - lo);
  }

  lemma TenthIsDiv(d: real)
    ensures d * 0.1 == d / 10.0
  {
  }

  /** The candidates' extremes: the smaller of the data minimum and the box
      edges, and the larger of the data maximum and the box edges. */
  lemma CandidatesExtremes(mn: real, mx: real, mean: real, sd: real)
    requires mn <= mx
    ensures SeqMin(Candidates(mn, mx, mean, sd)) == Lesser(Lesser(mn, mean - 3.0 * sd), mean + 3.0 * sd)
    ensures SeqMax(Candidates(mn, mx, mean, sd)) == Greater(Greater(mx, mean - 3.0 * sd), mean + 3.0 * sd)
    ensures SeqMin(Candidates(mn, mx, mean, sd)) <= SeqMax(Candidates(mn, mx, mean, sd))
  {
    var b, e := mean - 3.0 * sd, mean + 3.0 * sd;
    assert Candidates(mn, mx, mean, sd) == [mn, mx, b, e];
    CandidateExtremes(mn, mx, b, e);
  }

  /** With `a <= m`, `m` does not change the minimum of four, nor `a` the maximum. */
  lemma MinSkip(a: real, m: real, b: real, e: real)
    requires a <= m
    ensures Lesser(a, Lesser(m, Lesser(b, e))) == Lesser(Lesser(a, b), e)
    ensures Greater(a, Greater(m, Greater(b, e))) == Greater(Greater(m, b), e)
  {
  }

  /** What the Youden plot is drawn from: the plotted points, the two axes'
      limits and, when the institution is among the points, its first one. */
  datatype Youden = Youden(points: seq<Point>, xLimits: (real, real), yLimits: (real, real), labPoint: Option<Point>)

  /** The first point of institution `lab`. */
  function FirstPointOf(ps: seq<Point>, lab: Value): (r: Option<Point>)
    ensures r.Some? ==> r.value in ps && PyEq(r.value.code, lab)
    ensures r.None? ==> forall p :: p in ps ==> !PyEq(p.code, lab)
  {
    if ps == [] then None
    else if PyEq(ps[0].code, lab) then Some(ps[0])
    else FirstPointOf(ps[1..], lab)
  }

  /** The group's rows for one specimen: grouped by reference class when
      `groupType` is `'기준분류'`, otherwise by sub-class. */
  function GroupRows(t: Table, specimen: string, groupType: string, group: Value): seq<Row>
  {
    var groupCol := if groupType == "기준분류" then "기준분류" else "세분류";
    Where(Where(t.rows, groupCol, group), "검체명", Text(specimen))
  }

  /** The Youden plot's data rule: None when no institution of the group has a
      numeric result for both specimens; otherwise the points, with limits
      computed from the points' mean and SD (library statistics, given). */
  function YoudenPlot(t: Table, specimenX: string, specimenY: string, groupType: string, group: Value,
                      lab: Value, parse: string -> Option<real>, mean: seq<real> -> real, sd: seq<real> -> real)
    : (r: Option<Youden>)
    ensures r.Some? ==> |r.value.points| > 0
  {
    var merged := Join(GroupRows(t, specimenX, groupType, group), GroupRows(t, specimenY, groupType, group));
    if merged == [] then None
    else
      var ps := Points(merged, parse);
      if |ps| == 0 then None
      else
        var xs, ys := Xs(ps), Ys(ps);
        Some(Youden(ps, AxisLimits(xs, mean(xs), sd(xs)), AxisLimits(ys, mean(ys), sd(ys)), FirstPointOf(ps, lab)))
  }

  /** A point is plotted exactly for a pair of group rows, one per specimen,
      whose codes join and whose results are both numeric; with no such pair
      there is no plot. Every point lies inside both axes' limits. */
  lemma YoudenPoints(t: Table, specimenX: string, specimenY: string, groupType: string, group: Value,
                     lab: Value, parse: string -> Option<real>, mean: seq<real> -> real, sd: seq<real> -> real)
    ensures var r := YoudenPlot(t, specimenX, specimenY, groupType, group, lab, parse, mean, sd);
      var xs := GroupRows(t, specimenX, groupType, group);
      var ys := GroupRows(t, specimenY, groupType, group);
      && (r.None? <==> forall a, b :: a in xs && b in ys && Joins(a, b) ==> !BothNumeric((a, b), parse))
      && (r.Some? ==>
            && (forall a, b :: a in xs && b in ys && Joins(a, b) && BothNumeric((a, b), parse) ==>
                  PointOf((a, b), parse) in r.value.points)
            && (forall p :: p in r.value.points ==>
                  exists q: (Row, Row) :: q.0 in xs && q.1 in ys && Joins(q.0, q.1) && BothNumeric(q, parse) && p == PointOf(q, parse))
            && (forall p :: p in r.value.points ==>
                  r.value.xLimits.0 < p.x < r.value.xLimits.1 && r.value.yLimits.0 < p.y < r.value.yLimits.1))
  {
    var xs := GroupRows(t, specimenX, groupType, group);
    var ys := GroupRows(t, specimenY, groupType, group);
    var merged := Join(xs, ys);
    var ps := Points(merged, parse);
    if |ps| > 0 {
      var xv, yv := Xs(ps), Ys(ps);
      AxisLimitsContain(xv, mean(xv), sd(xv));
      AxisLimitsContain(yv, mean(yv), sd(yv));
      forall p | p in ps
        ensures AxisLimits(xv, mean(xv), sd(xv)).0 < p.x < AxisLimits(xv, mean(xv), sd(xv)).1
        ensures AxisLimits(yv, mean(yv), sd(yv)).0 < p.y < AxisLimits(yv, mean(yv), sd(yv)).1
      {
        var k :| 0 <= k < |ps| && ps[k] == p;
        assert xv[k] in xv && yv[k] in yv;
      }
    } else {
      forall a, b | a in xs && b in ys && Joins(a, b) ensures !BothNumeric((a, b), parse) {
        if BothNumeric((a, b), parse) {
          assert false;
        }
      }
    }
  }

  // ---------------------------------------------------------------------------
  // The institutions that get a report

  /** `df_src['기관코드'].unique().tolist()[:MAX_REPORTS]` */
  function TargetLabs(codes: seq<Value>): (r: seq<Value>)
    ensures NoDup(r) && |r| <= MaxReports
    ensures forall x :: x in r ==> x in codes
  {
    Take(Distinct(codes), MaxReports)
  }

  /** The first five distinct codes, in first-appearance order: there are five
      unless fewer codes exist, and any code that first appears before a chosen
      one is chosen too. */
  lemma TargetLabsFirst(codes: seq<Value>)
    ensures var r := TargetLabs(codes);
      && |r| == (if |Distinct(codes)| < MaxReports then |Distinct(codes)| else MaxReports)
      && (forall i, j :: 0 <= i < j < |r| ==> FirstIndex(codes, r[i]) < FirstIndex(codes, r[j]))
      && (forall x, y :: x in codes && y in r && FirstIndex(codes, x) < FirstIndex(codes, y) ==> x in r)
  {
    var d := Distinct(codes);
    var r := TargetLabs(codes);
    DistinctFirstAppearance(codes);
    forall i, j | 0 <= i < j < |r| ensures FirstIndex(codes, r[i]) < FirstIndex(codes, r[j]) {
      assert r[i] == d[i] && r[j] == d[j];
    }
    forall x, y | x in codes && y in r && FirstIndex(codes, x) < FirstIndex(codes, y) ensures x in r {
      var q :| 0 <= q < |r| && r[q] == y;
      assert d[q] == y;
      var p :| 0 <= p < |d| && d[p] == x;
      assert FirstIndex(codes, d[p]) < FirstIndex(codes, d[q]);
      assert !(q < p) && p != q;
      assert r[p] == x;
    }
  }

  /** Every chosen code other than NaN has a row of its own; a NaN code selects
      no row. */
  lemma TargetLabsHaveRows(rows: seq<Row>, codes: seq<Value>)
    requires codes == seq(|rows|, k requires 0 <= k < |rows| => Get(rows[k], "기관코드"))
    ensures forall x :: x in TargetLabs(codes) && x != Missing ==> Where(rows, "기관코드", x) != []
    ensures Where(rows, "기관코드", Missing) == []
  {
    forall x | x in TargetLabs(codes) && x != Missing ensures Where(rows, "기관코드", x) != [] {
      var k :| 0 <= k < |codes| && codes[k] == x;
      assert rows[k] in rows && PyEq(Get(rows[k], "기관코드"), x);
    }
    WhereMissing(rows, "기관코드");
  }
}
