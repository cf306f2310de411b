/** The decision rules of the cross-institution common report
    (`create_common_report_webpage.py`): which summary rows are overall and
    which are per reference class, the specimen sections and the order of
    their class tables, the participant distribution with its percentages,
    and the per-class CV comparison with its colour bands. Markup and
    drawing are not modelled; each rule yields the values a section or a
    chart is built from, or None where the script omits it. */
module CommonReport {
  import opened Tabular

  const RefName := "기준분류명"
  const SubName := "세분류명"
  const Count := "기관수"
  const Specimen := "검체명"
  const Cv := "변동계수"

  /** A cell of a numeric column (`기관수`, `변동계수`) as a number; NaN adds
      nothing to a pandas sum. */
  function Num(v: Value): real
  {
    match v
    case Integer(i) => i as real
    case Number(x) => x
    case _ => 0.0
  }

  function CountOf(r: Row): real
  {
    Num(Get(r, Count))
  }

  // ---------------------------------------------------------------------------
  // Row classes

  /** `overall_data`: both class names NaN or empty, and a participant count. */
  predicate IsOverall(r: Row)
  {
    IsBlank(Get(r, RefName)) && IsBlank(Get(r, SubName)) && NotNa(Get(r, Count))
  }

  /** `classification_data`: a reference class that is neither NaN nor empty,
      no sub-class, and a participant count. */
  predicate IsClassification(r: Row)
  {
    NotNa(Get(r, RefName)) && Get(r, RefName) != Text("") && IsBlank(Get(r, SubName)) && NotNa(Get(r, Count))
  }

  /** The rows `specimens` is read from: no class names; the count may be NaN. */
  predicate IsSpecimenRow(r: Row)
  {
    IsBlank(Get(r, RefName)) && IsBlank(Get(r, SubName))
  }

  /** The two classes are disjoint and, among rows with a count and no
      sub-class, cover everything; every overall row names a specimen row. */
  lemma RowKinds(r: Row)
    ensures !(IsOverall(r) && IsClassification(r))
    ensures (IsOverall(r) || IsClassification(r)) <==> IsBlank(Get(r, SubName)) && NotNa(Get(r, Count))
    ensures IsOverall(r) ==> IsSpecimenRow(r)
    ensures IsClassification(r) ==> !IsBlank(Get(r, RefName))
  {
  }

  /** `specimens`: the specimen names of the class-free rows, each once, in
      order of first appearance (NaN included, as `unique()` keeps it). */
  function Specimens(rows: seq<Row>): (specs: seq<Value>)
    ensures NoDup(specs)
    ensures forall v :: v in specs <==> exists r :: r in rows && IsSpecimenRow(r) && Get(r, Specimen) == v
  {
    Distinct(Column(Select(rows, IsSpecimenRow), Specimen))
  }

  // ---------------------------------------------------------------------------
  // Specimen sections

  /** What one specimen section is built from: the specimen, the overall row
      its figures come from, and its class table in row order. */
  datatype Section = Section(specimen: Value, summary: Row, classes: seq<Row>)

  predicate OverallOf(spec: Value, r: Row)
  {
    IsOverall(r) && PyEq(Get(r, Specimen), spec)
  }

  predicate ClassOf(spec: Value, r: Row)
  {
    IsClassification(r) && PyEq(Get(r, Specimen), spec)
  }

  /** `classification_data[...== specimen].sort_values('기관수', ascending=False)`:
      exactly the specimen's class rows, each as often as in the frame, the
      largest participant count first. */
  function ClassTable(rows: seq<Row>, spec: Value): (t: seq<Row>)
    ensures NonIncreasing(t, CountOf)
    ensures multiset(t) == multiset(Select(rows, r => ClassOf(spec, r)))
    ensures forall x :: x in t <==> x in rows && ClassOf(spec, x)
  {
    var sel := Select(rows, r => ClassOf(spec, r));
    var t := SortDesc(sel, CountOf);
    forall x ensures x in t <==> x in sel {
      calc {
        x in t;
        x in multiset(t);
        x in multiset(sel);
        x in sel;
      }
    }
    t
  }

  /** The section of one specimen: none when it has no overall row (the loop's
      `continue`), otherwise its first overall row and its class table. */
  function SectionFor(rows: seq<Row>, spec: Value): Option<Section>
  {
    var data := Select(rows, r => OverallOf(spec, r));
    if data == [] then None else Some(Section(spec, data[0], ClassTable(rows, spec)))
  }

  /** The sections emitted for the specimens `specs`, in their order. */
  function Sections(rows: seq<Row>, specs: seq<Value>): seq<Section>
  {
    if specs == [] then []
    else
      Sections(rows, specs[..|specs| - 1])
      + (match SectionFor(rows, specs[|specs| - 1]) case None => [] case Some(s) => [s])
  }

  /** The page's specimen loop: one section per specimen that has an overall row. */
  method BuildSections(rows: seq<Row>) returns (sections: seq<Section>)
    ensures sections == Sections(rows, Specimens(rows))
  {
    var specs := Specimens(rows);
    sections := [];
    var i := 0;
    while i < |specs|
      invariant 0 <= i <= |specs|
      invariant sections == Sections(rows, specs[..i])
    {
      var spec := specs[i];
      assert specs[..i + 1][..i] == specs[..i];
      var data := Select(rows, r => OverallOf(spec, r));
      if data != [] {
        var table := ClassTable(rows, spec);
        sections := sections + [Section(spec, data[0], table)];
      }
      i := i + 1;
    }
    assert specs[..i] == specs;
  }

  /** A specimen's section exists exactly when some overall row carries that
      specimen; its figures come from the earliest such row; its table lists
      the specimen's class rows by non-increasing `기관수`. */
  lemma SectionForFacts(rows: seq<Row>, spec: Value)
    ensures SectionFor(rows, spec).Some? <==> exists r :: r in rows && OverallOf(spec, r)
    ensures SectionFor(rows, spec).Some? ==>
      var s := SectionFor(rows, spec).value;
      && s.specimen == spec
      && (exists i :: 0 <= i < |rows| && rows[i] == s.summary && OverallOf(spec, rows[i])
                      && forall j :: 0 <= j < i ==> !OverallOf(spec, rows[j]))
      && NonIncreasing(s.classes, CountOf)
      && multiset(s.classes) == multiset(Select(rows, r => ClassOf(spec, r)))
  {
    var data := Select(rows, r => OverallOf(spec, r));
    if data != [] {
      SelectHead(rows, r => OverallOf(spec, r));
    } else {
      forall r | r in rows ensures !OverallOf(spec, r) {
      }
    }
  }

  /** The sections come one per specimen of `specs` that has an overall row. */
  lemma {:induction false} SectionsMembers(rows: seq<Row>, specs: seq<Value>)
    ensures forall s :: s in Sections(rows, specs) ==> s.specimen in specs && SectionFor(rows, s.specimen) == Some(s)
    ensures forall v :: v in specs && SectionFor(rows, v).Some? ==> SectionFor(rows, v).value in Sections(rows, specs)
  {
    if specs != [] {
      var init := specs[..|specs| - 1];
      var last := specs[|specs| - 1];
      SectionsMembers(rows, init);
      assert forall v :: v in specs <==> v in init || v == last;
      var prev := Sections(rows, init);
      var ss := Sections(rows, specs);
      assert forall s :: s in ss <==> s in prev || Some(s) == SectionFor(rows, last);
    }
  }

  /** With each specimen listed once, no two sections share a specimen. */
  lemma {:induction false} SectionsDistinct(rows: seq<Row>, specs: seq<Value>)
    requires NoDup(specs)
    ensures forall a, b :: 0 <= a < b < |Sections(rows, specs)| ==>
              Sections(rows, specs)[a].specimen != Sections(rows, specs)[b].specimen
  {
    if specs != [] {
      var init := specs[..|specs| - 1];
      var last := specs[|specs| - 1];
      assert NoDup(init) by {
        forall a, b | 0 <= a < b < |init| ensures init[a] != init[b] { assert init[a] == specs[a] && init[b] == specs[b]; }
      }
      SectionsDistinct(rows, init);
      SectionsMembers(rows, init);
      var prev := Sections(rows, init);
      var ss := Sections(rows, specs);
      assert last !in init;
      forall a, b | 0 <= a < b < |ss| ensures ss[a].specimen != ss[b].specimen {
        assert ss[a] == prev[a] && prev[a] in prev;
        if b < |prev| {
          assert ss[b] == prev[b];
        } else {
          assert ss[b].specimen == last;
        }
      }
    }
  }

  /** Every overall row whose specimen is not NaN gets a section in the page,
      and every section is the section of a specimen that has an overall row. */
  lemma PageSections(rows: seq<Row>)
    ensures forall r :: r in rows && IsOverall(r) && NotNa(Get(r, Specimen)) ==>
              exists s :: s in Sections(rows, Specimens(rows)) && s.specimen == Get(r, Specimen)
    ensures forall s :: s in Sections(rows, Specimens(rows)) ==> exists r :: r in rows && OverallOf(s.specimen, r)
  {
    var specs := Specimens(rows);
    SectionsMembers(rows, specs);
    forall r | r in rows && IsOverall(r) && NotNa(Get(r, Specimen))
      ensures exists s :: s in Sections(rows, specs) && s.specimen == Get(r, Specimen)
    {
      var v := Get(r, Specimen);
      PyEqRefl(v);
      assert OverallOf(v, r);
      SectionForFacts(rows, v);
      assert v in specs;
      assert SectionFor(rows, v).value.specimen == v;
    }
    forall s | s in Sections(rows, specs) ensures exists r :: r in rows && OverallOf(s.specimen, r) {
      SectionForFacts(rows, s.specimen);
    }
  }

  // ---------------------------------------------------------------------------
  // Participant distribution

  /** One wedge, bar or legend entry: a class and its figure. */
  datatype Share = Share(name: Value, amount: real)

  function AmountOf(s: Share): real
  {
    s.amount
  }

  function SumAmounts(d: seq<Share>): real
  {
    if d == [] then 0.0 else d[0].amount + SumAmounts(d[1..])
  }

  function SumReals(xs: seq<real>): real
  {
    if xs == [] then 0.0 else xs[0] + SumReals(xs[1..])
  }

  /** The keys `groupby('기준분류명')` forms: the class names other than NaN, each once. */
  function GroupNames(rows: seq<Row>): (ns: seq<Value>)
    ensures NoDup(ns)
    ensures forall v :: v in ns <==> v != Missing && exists r :: r in rows && Get(r, RefName) == v
  {
    Distinct(Column(Select(rows, r => NotNa(Get(r, RefName))), RefName))
  }

  /** The sum of column `col` over the rows of class `name`. */
  function ClassSum(rows: seq<Row>, name: Value, col: string): real
  {
    if rows == [] then 0.0
    else (if Get(rows[0], RefName) == name then Num(Get(rows[0], col)) else 0.0) + ClassSum(rows[1..], name, col)
  }

  /** `groupby('기준분류명')[col].sum()` over the keys `ns`. */
  function Sums(rows: seq<Row>, ns: seq<Value>, col: string): (d: seq<Share>)
    ensures |d| == |ns|
    ensures forall k :: 0 <= k < |ns| ==> d[k] == Share(ns[k], ClassSum(rows, ns[k], col))
  {
    if ns == [] then [] else [Share(ns[0], ClassSum(rows, ns[0], col))] + Sums(rows, ns[1..], col)
  }

  /** `create_distribution_chart`: None for an empty frame or when no row has a
      class name; otherwise each class with its summed `기관수`, largest first.
      The legend lists exactly these entries. */
  function Distribution(rows: seq<Row>): Option<seq<Share>>
  {
    if rows == [] then None
    else
      var d := ClassCounts(rows);
      if d == [] then None else Some(d)
  }

  /** `groupby('기준분류명')['기관수'].sum().sort_values(ascending=False)` */
  function ClassCounts(rows: seq<Row>): seq<Share>
  {
    SortDesc(Sums(rows, GroupNames(rows), Count), AmountOf)
  }

  /** The sum of column `col` over the rows whose class name is in `ns`. */
  function SumIn(rows: seq<Row>, ns: seq<Value>, col: string): real
  {
    if rows == [] then 0.0
    else (if Get(rows[0], RefName) in ns then Num(Get(rows[0], col)) else 0.0) + SumIn(rows[1..], ns, col)
  }

  /** The sum of column `col` over the rows that have a class name. */
  function NamedTotal(rows: seq<Row>, col: string): real
  {
    if rows == [] then 0.0
    else (if Get(rows[0], RefName) != Missing then Num(Get(rows[0], col)) else 0.0) + NamedTotal(rows[1..], col)
  }

  lemma {:induction false} SumAmountsAppend(a: seq<Share>, b: seq<Share>)
    ensures SumAmounts(a + b) == SumAmounts(a) + SumAmounts(b)
  {
    if a != [] {
      assert (a + b)[1..] == a[1..] + b;
      SumAmountsAppend(a[1..], b);
    } else {
      assert a + b == b;
    }
  }

  /** Reordering the entries does not change their total. */
  lemma {:induction false} SumAmountsPerm(a: seq<Share>, b: seq<Share>)
    requires multiset(a) == multiset(b)
    ensures SumAmounts(a) == SumAmounts(b)
    decreases |a|
  {
    if a != [] {
      var x := a[0];
      assert x in multiset(b);
      var i :| 0 <= i < |b| && b[i] == x;
      var rest := b[..i] + b[i + 1..];
      MultisetRemove(b, i);
      assert a == [x] + a[1..];
      assert multiset(a[1..]) == multiset(a) - multiset{x};
      SumAmountsPerm(a[1..], rest);
      SumAmountsRemove(b, i);
    }
  }

  lemma MultisetRemove(b: seq<Share>, i: nat)
    requires i < |b|
    ensures multiset(b[..i] + b[i + 1..]) == multiset(b) - multiset{b[i]}
  {
    assert b == b[..i] + [b[i]] + b[i + 1..];
  }

  lemma SumAmountsRemove(b: seq<Share>, i: nat)
    requires i < |b|
    ensures SumAmounts(b) == b[i].amount + SumAmounts(b[..i] + b[i + 1..])
  {
    var left, right := b[..i], b[i + 1..];
    var mid := [b[i]] + right;
    assert b == left + mid;
    assert mid[0] == b[i] && mid[1..] == right;
    assert SumAmounts(mid) == b[i].amount + SumAmounts(right);
    SumAmountsAppend(left, mid);
    SumAmountsAppend(left, right);
  }

  /** A row counts towards the sum over `ns` exactly when it counts towards
      the head class or towards the rest, never both. */
  lemma {:induction false} SumInSplit(rows: seq<Row>, ns: seq<Value>, col: string)
    requires ns != [] && ns[0] !in ns[1..]
    ensures SumIn(rows, ns, col) == ClassSum(rows, ns[0], col) + SumIn(rows, ns[1..], col)
  {
    if rows != [] {
      SumInSplit(rows[1..], ns, col);
      assert Get(rows[0], RefName) in ns <==> Get(rows[0], RefName) == ns[0] || Get(rows[0], RefName) in ns[1..];
    }
  }

  /** The class sums over distinct keys add up to the sum over the rows of those classes. */
  lemma {:induction false} SumsTotal(rows: seq<Row>, ns: seq<Value>, col: string)
    requires NoDup(ns)
    ensures SumAmounts(Sums(rows, ns, col)) == SumIn(rows, ns, col)
  {
    if ns == [] {
      SumInNone(rows, col);
    } else {
      assert forall j :: 0 <= j < |ns| - 1 ==> ns[1..][j] == ns[j + 1];
      assert ns[0] !in ns[1..];
      assert NoDup(ns[1..]) by {
        forall a, b | 0 <= a < b < |ns[1..]| ensures ns[1..][a] != ns[1..][b] { assert ns[1..][a] == ns[a + 1]; }
      }
      SumsTotal(rows, ns[1..], col);
      SumInSplit(rows, ns, col);
      assert Sums(rows, ns, col)[1..] == Sums(rows, ns[1..], col);
    }
  }

  lemma {:induction false} SumInNone(rows: seq<Row>, col: string)
    ensures SumIn(rows, [], col) == 0.0
  {
    if rows != [] { SumInNone(rows[1..], col); }
  }

  /** Summing over the keys that cover exactly the named rows is the named total. */
  lemma {:induction false} SumInNamed(rows: seq<Row>, ns: seq<Value>, col: string)
    requires forall r :: r in rows ==> (Get(r, RefName) in ns <==> Get(r, RefName) != Missing)
    ensures SumIn(rows, ns, col) == NamedTotal(rows, col)
  {
    if rows != [] {
      assert rows[0] in rows;
      SumInNamed(rows[1..], ns, col);
    }
  }

  /** The class counts of any frame: one entry per class name with its summed
      `기관수`, largest first. */
  lemma ClassCountsFacts(rows: seq<Row>)
    ensures NonIncreasing(ClassCounts(rows), AmountOf)
    ensures |ClassCounts(rows)| == |GroupNames(rows)|
    ensures forall n :: n in GroupNames(rows) ==> Share(n, ClassSum(rows, n, Count)) in ClassCounts(rows)
    ensures forall e :: e in ClassCounts(rows) ==> e.name in GroupNames(rows) && e.amount == ClassSum(rows, e.name, Count)
  {
    var ns := GroupNames(rows);
    var u := Sums(rows, ns, Count);
    var d := ClassCounts(rows);
    forall x ensures x in d <==> x in u {
      calc {
        x in d;
        x in multiset(d);
        x in multiset(u);
        x in u;
      }
    }
    forall s | s in u ensures s.name in ns && s.amount == ClassSum(rows, s.name, Count) {
      var k :| 0 <= k < |u| && u[k] == s;
    }
    forall n | n in ns ensures Share(n, ClassSum(rows, n, Count)) in u {
      var k :| 0 <= k < |ns| && ns[k] == n;
      assert u[k] == Share(n, ClassSum(rows, n, Count));
    }
  }

  /** The distribution: None exactly when no row has a class name; otherwise
      one entry per class, holding that class's summed `기관수`, in
      non-increasing order, and the entries add up to the total `기관수` of
      the named rows (so the legend's counts add up to the participants). */
  lemma DistributionFacts(rows: seq<Row>)
    ensures Distribution(rows).None? <==> forall r :: r in rows ==> Get(r, RefName) == Missing
    ensures Distribution(rows).Some? ==>
      var d := Distribution(rows).value;
      && NonIncreasing(d, AmountOf)
      && |d| == |GroupNames(rows)|
      && (forall s :: s in d ==> s.name in GroupNames(rows) && s.amount == ClassSum(rows, s.name, Count))
      && (forall n :: n in GroupNames(rows) ==> Share(n, ClassSum(rows, n, Count)) in d)
      && SumAmounts(d) == NamedTotal(rows, Count)
  {
    var ns := GroupNames(rows);
    var u := Sums(rows, ns, Count);
    var d := ClassCounts(rows);
    ClassCountsFacts(rows);
    if rows != [] && d != [] {
      SumAmountsPerm(d, u);
      SumsTotal(rows, ns, Count);
      SumInNamed(rows, ns, Count);
    }
    if d == [] {
      assert ns == [];
      forall r | r in rows ensures Get(r, RefName) == Missing {
      }
    }
    if rows != [] && forall r :: r in rows ==> Get(r, RefName) == Missing {
      assert |ns| == 0;
    }
  }

  /** The distribution's percentage lines, `count / total * 100`; None stands
      for the NaN every line shows when the total is 0. */
  function Percentages(d: seq<Share>): Option<seq<real>>
  {
    var total := SumAmounts(d);
    if total == 0.0 then None else Some(Scaled(d, total))
  }

  function Scaled(d: seq<Share>, total: real): (ps: seq<real>)
    requires total != 0.0
    ensures |ps| == |d|
    ensures forall k :: 0 <= k < |d| ==> ps[k] == d[k].amount / total * 100.0
  {
    if d == [] then [] else [d[0].amount / total * 100.0] + Scaled(d[1..], total)
  }

  /** The percentage loop of the page. */
  method PercentageLines(d: seq<Share>) returns (lines: Option<seq<real>>)
    ensures lines == Percentages(d)
  {
    var total := 0.0;
    var k := |d|;
    while k > 0
      invariant 0 <= k <= |d|
      invariant total == SumAmounts(d[k..])
    {
      k := k - 1;
      assert d[k..][1..] == d[k + 1..];
      total := total + d[k].amount;
    }
    assert d[0..] == d;
    if total == 0.0 {
      return None;
    }
    var ps: seq<real> := [];
    var i := 0;
    while i < |d|
      invariant 0 <= i <= |d|
      invariant |ps| == i
      invariant forall j :: 0 <= j < i ==> ps[j] == d[j].amount / total * 100.0
    {
      var percentage := (d[i].amount / total) * 100.0;
      ps := ps + [percentage];
      i := i + 1;
    }
    assert ps == Scaled(d, total);
    lines := Some(ps);
  }

  lemma DivAdd(a: real, b: real, t: real)
    requires t != 0.0
    ensures a / t * 100.0 + b / t * 100.0 == (a + b) / t * 100.0
  {
  }

  lemma {:induction false} ScaledSum(d: seq<Share>, total: real)
    requires total != 0.0
    ensures SumReals(Scaled(d, total)) == SumAmounts(d) / total * 100.0
  {
    if d != [] {
      ScaledSum(d[1..], total);
      assert Scaled(d, total)[1..] == Scaled(d[1..], total);
      DivAdd(d[0].amount, SumAmounts(d[1..]), total);
    }
  }

  /** Whenever the percentages are defined they add up to 100, and entries
      that are not negative give percentages that are not negative. */
  lemma PercentagesSum(d: seq<Share>)
    ensures Percentages(d).Some? <==> SumAmounts(d) != 0.0
    ensures Percentages(d).Some? ==> |Percentages(d).value| == |d| && SumReals(Percentages(d).value) == 100.0
    ensures Percentages(d).Some? && (forall s :: s in d ==> s.amount >= 0.0) ==>
              forall p :: p in Percentages(d).value ==> p >= 0.0
  {
    var total := SumAmounts(d);
    if total != 0.0 {
      ScaledSum(d, total);
      DivSelf(total);
      if forall s :: s in d ==> s.amount >= 0.0 {
        NonNegativeTotal(d);
        forall p | p in Scaled(d, total) ensures p >= 0.0 {
          var k :| 0 <= k < |d| && Scaled(d, total)[k] == p;
          assert d[k] in d;
          NonNegativeShare(d[k].amount, total);
        }
      }
    }
  }

  lemma DivSelf(t: real)
    requires t != 0.0
    ensures t / t * 100.0 == 100.0
  {
    assert t / t == 1.0 by {
      assert (t / t) * t == t;
    }
  }

  lemma NonNegativeShare(a: real, t: real)
    requires a >= 0.0 && t > 0.0
    ensures a / t * 100.0 >= 0.0
  {
  }

  lemma {:induction false} NonNegativeTotal(d: seq<Share>)
    requires forall s :: s in d ==> s.amount >= 0.0
    ensures SumAmounts(d) >= 0.0
  {
    if d != [] {
      assert d[0] in d;
      assert forall s :: s in d[1..] ==> s in d;
      NonNegativeTotal(d[1..]);
    }
  }

  // ---------------------------------------------------------------------------
  // CV comparison

  predicate HasCv(r: Row)
  {
    NotNa(Get(r, Cv))
  }

  /** The rows the CV loop gathers for the specimens `specs`: specimen by
      specimen, that specimen's rows with a CV. */
  function CvRows(rows: seq<Row>, specs: seq<Value>): seq<Row>
  {
    if specs == [] then []
    else
      var s := specs[|specs| - 1];
      CvRows(rows, specs[..|specs| - 1]) + Select(rows, r => PyEq(Get(r, Specimen), s) && HasCv(r))
  }

  /** The loop over `unique()` specimens that builds `combined_cv`. */
  method CollectCv(rows: seq<Row>) returns (combined: seq<Row>)
    ensures combined == CvRows(rows, Distinct(Column(rows, Specimen)))
  {
    var specs := Distinct(Column(rows, Specimen));
    combined := [];
    var i := 0;
    while i < |specs|
      invariant 0 <= i <= |specs|
      invariant combined == CvRows(rows, specs[..i])
    {
      var spec := specs[i];
      assert specs[..i + 1][..i] == specs[..i];
      var filtered := Select(rows, r => PyEq(Get(r, Specimen), spec) && HasCv(r));
      if filtered != [] {
        combined := combined + filtered;
      }
      i := i + 1;
    }
    assert specs[..i] == specs;
  }

  lemma {:induction false} CvRowsMembers(rows: seq<Row>, specs: seq<Value>)
    ensures forall x :: x in CvRows(rows, specs) <==>
              x in rows && HasCv(x) && exists s :: s in specs && PyEq(Get(x, Specimen), s)
  {
    if specs != [] {
      var init := specs[..|specs| - 1];
      CvRowsMembers(rows, init);
      assert forall v :: v in specs <==> v in init || v == specs[|specs| - 1];
    }
  }

  /** `combined_cv` holds exactly the rows that have a CV and a specimen (a
      NaN specimen selects no rows). */
  lemma CombinedCvMembers(rows: seq<Row>)
    ensures forall x :: x in CvRows(rows, Distinct(Column(rows, Specimen))) <==>
              x in rows && HasCv(x) && NotNa(Get(x, Specimen))
  {
    var specs := Distinct(Column(rows, Specimen));
    CvRowsMembers(rows, specs);
    forall x | x in rows && HasCv(x) && NotNa(Get(x, Specimen))
      ensures exists s :: s in specs && PyEq(Get(x, Specimen), s)
    {
      PyEqRefl(Get(x, Specimen));
      assert Get(x, Specimen) in specs;
    }
  }

  /** The CV values of the rows of class `name`, in row order. */
  function ClassCvs(rows: seq<Row>, name: Value): (xs: seq<real>)
    ensures |xs| == 0 <==> forall r :: r in rows ==> Get(r, RefName) != name
  {
    if rows == [] then []
    else
      assert forall r :: r in rows <==> r == rows[0] || r in rows[1..];
      (if Get(rows[0], RefName) == name then [Num(Get(rows[0], Cv))] else []) + ClassCvs(rows[1..], name)
  }

  function Mean(xs: seq<real>): real
    requires |xs| > 0
  {
    SumReals(xs) / |xs| as real
  }

  /** The mean CV of class `name` (0 for a class without rows, which the
      group keys never are). */
  function ClassMean(rows: seq<Row>, name: Value): real
  {
    var xs := ClassCvs(rows, name);
    if |xs| > 0 then Mean(xs) else 0.0
  }

  /** `groupby('기준분류명')['변동계수'].mean()` over the keys `ns`. */
  function Averages(rows: seq<Row>, ns: seq<Value>): (d: seq<Share>)
    ensures |d| == |ns|
    ensures forall k :: 0 <= k < |ns| ==> d[k] == Share(ns[k], ClassMean(rows, ns[k]))
  {
    if ns == [] then [] else [Share(ns[0], ClassMean(rows, ns[0]))] + Averages(rows, ns[1..])
  }

  /** The sorted averages of a non-empty `combined_cv`. */
  function CvBars(combined: seq<Row>): seq<Share>
  {
    SortDesc(Averages(combined, GroupNames(combined)), AmountOf)
  }

  /** `create_cv_comparison_chart`'s data: None for an empty frame, when no
      row has both a specimen and a CV, or when none of those has a class;
      otherwise each class with its mean CV, largest first. */
  function CvChart(rows: seq<Row>): Option<seq<Share>>
  {
    if rows == [] then None
    else
      var combined := CvRows(rows, Distinct(Column(rows, Specimen)));
      if combined == [] then None
      else
        var avg := CvBars(combined);
        if avg == [] then None else Some(avg)
  }

  /** One bar per class of `combined`, each the mean of that class's CVs, in
      non-increasing order. */
  lemma CvBarsFacts(combined: seq<Row>)
    ensures var d := CvBars(combined);
      && NonIncreasing(d, AmountOf)
      && |d| == |GroupNames(combined)|
      && (forall n :: n in GroupNames(combined) <==> exists s :: s in d && s.name == n)
      && (forall s :: s in d ==>
            |ClassCvs(combined, s.name)| > 0 && s.amount == Mean(ClassCvs(combined, s.name)))
  {
    var ns := GroupNames(combined);
    var u := Averages(combined, ns);
    var d := CvBars(combined);
    forall x ensures x in d <==> x in u {
      calc {
        x in d;
        x in multiset(d);
        x in multiset(u);
        x in u;
      }
    }
    forall s | s in u
      ensures s.name in ns && |ClassCvs(combined, s.name)| > 0 && s.amount == Mean(ClassCvs(combined, s.name))
    {
      var k :| 0 <= k < |u| && u[k] == s;
    }
    forall n | n in ns ensures exists s :: s in d && s.name == n {
      var k :| 0 <= k < |ns| && ns[k] == n;
      assert u[k] in u;
    }
  }

  lemma {:induction false} SumBounds(xs: seq<real>, lo: real, hi: real)
    requires forall x :: x in xs ==> lo <= x <= hi
    ensures |xs| as real * lo <= SumReals(xs) <= |xs| as real * hi
  {
    if xs != [] {
      assert xs[0] in xs;
      assert forall x :: x in xs[1..] ==> x in xs;
      SumBounds(xs[1..], lo, hi);
    }
  }

  /** A mean lies between any bounds of the values it averages. */
  lemma MeanBetween(xs: seq<real>, lo: real, hi: real)
    requires |xs| > 0
    requires forall x :: x in xs ==> lo <= x <= hi
    ensures lo <= Mean(xs) <= hi
  {
    SumBounds(xs, lo, hi);
    var n := |xs| as real;
    var m := Mean(xs);
    assert m * n == SumReals(xs);
    assert n * lo <= m * n <= n * hi;
  }

  /** The CV chart is None exactly when no row has a specimen, a CV and a
      class; otherwise its bars are those of `combined_cv`. */
  lemma CvChartFacts(rows: seq<Row>)
    ensures CvChart(rows).None? <==>
      forall r :: r in rows && HasCv(r) && NotNa(Get(r, Specimen)) ==> Get(r, RefName) == Missing
    ensures CvChart(rows).Some? ==>
      CvChart(rows).value == CvBars(CvRows(rows, Distinct(Column(rows, Specimen))))
  {
    var combined := CvRows(rows, Distinct(Column(rows, Specimen)));
    CombinedCvMembers(rows);
    NoBarsUnnamed(combined);
    assert CvChart(rows).None? <==> rows == [] || combined == [] || CvBars(combined) == [];
  }

  /** No bars exactly when no row has a class name. */
  lemma NoBarsUnnamed(combined: seq<Row>)
    ensures CvBars(combined) == [] <==> forall r :: r in combined ==> Get(r, RefName) == Missing
  {
    var ns := GroupNames(combined);
    assert |CvBars(combined)| == |ns|;
    if ns != [] {
      assert ns[0] in ns;
    }
  }

  /** The page draws the CV chart from `all_classification_data`: it is
      omitted exactly when no class row has both a specimen and a CV. */
  lemma PageCvChart(rows: seq<Row>)
    ensures CvChart(Select(rows, IsClassification)).None? <==>
      forall r :: r in rows && IsClassification(r) && HasCv(r) ==> !NotNa(Get(r, Specimen))
  {
    var cls := Select(rows, IsClassification);
    CvChartFacts(cls);
    forall r | r in cls ensures Get(r, RefName) != Missing {
    }
  }

  /** The bar colours: ≤5 green, ≤10 blue, ≤20 orange, above that red. */
  datatype Colour = Green | Blue | Orange | Red

  function BandOf(cv: real): Colour
  {
    if cv <= 5.0 then Green
    else if cv <= 10.0 then Blue
    else if cv <= 20.0 then Orange
    else Red
  }

  function Severity(c: Colour): nat
  {
    match c
    case Green => 0
    case Blue => 1
    case Orange => 2
    case Red => 3
  }

  /** A larger CV never gets a better colour. */
  lemma BandMonotone(a: real, b: real)
    requires a <= b
    ensures Severity(BandOf(a)) <= Severity(BandOf(b))
  {
  }

  /** The colour loop: one colour per bar, in bar order. */
  method Colours(d: seq<Share>) returns (cs: seq<Colour>)
    ensures |cs| == |d|
    ensures forall k :: 0 <= k < |d| ==> cs[k] == BandOf(d[k].amount)
  {
    cs := [];
    var k := 0;
    while k < |d|
      invariant 0 <= k <= |d|
      invariant |cs| == k
      invariant forall j :: 0 <= j < k ==> cs[j] == BandOf(d[j].amount)
    {
      var cv := d[k].amount;
      if cv <= 5.0 {
        cs := cs + [Green];
      } else if cv <= 10.0 {
        cs := cs + [Blue];
      } else if cv <= 20.0 {
        cs := cs + [Orange];
      } else {
        cs := cs + [Red];
      }
      k := k + 1;
    }
  }

  function MaxAmount(d: seq<Share>): (m: real)
    requires |d| > 0
    ensures forall s :: s in d ==> s.amount <= m
    ensures exists s :: s in d && s.amount == m
  {
    if |d| == 1 then d[0].amount
    else
      assert forall s :: s in d <==> s == d[0] || s in d[1..];
      var m := MaxAmount(d[1..]);
      if d[0].amount >= m then d[0].amount else m
  }

  /** `ax.set_xlim(0, max(cv_avg.values) * 1.2)` */
  function XLimits(d: seq<Share>): (real, real)
    requires |d| > 0
  {
    (0.0, MaxAmount(d) * 1.2)
  }

  /** With CVs that are not negative every bar fits on the axis, and the
      longest leaves a fifth of its length to the right edge. */
  lemma XLimitsContain(d: seq<Share>)
    requires |d| > 0
    requires forall s :: s in d ==> s.amount >= 0.0
    ensures forall s :: s in d ==> XLimits(d).0 <= s.amount <= XLimits(d).1
    ensures XLimits(d).1 - MaxAmount(d) == MaxAmount(d) / 5.0
  {
    var m := MaxAmount(d);
    assert m >= 0.0 by { var s :| s in d && s.amount == m; }
  }
  // ---------------------------------------------------------------------------
  // The distribution block under the specimen sections

  /** A step of the page that either yields a value or stops the script with
      pandas' `IndexError`. */
  datatype Outcome<T> = Done(value: T) | IndexError

  /** The block beside the distribution chart: the chart's legend entries and,
      when there is a first specimen, that specimen's class counts with their
      percentage lines. */
  datatype DistBlock = DistBlock(legend: seq<Share>, info: Option<(seq<Share>, Option<seq<real>>)>)

  /** The rows the distribution chart is drawn from: the class rows whose
      specimen is one of `specimens` (`isin` matches NaN with NaN). */
  function ChartRows(rows: seq<Row>): seq<Row>
  {
    var specs := Specimens(rows);
    Select(rows, r => IsClassification(r) && Get(r, Specimen) in specs)
  }

  /** The first specimen's class counts and their percentage lines. */
  function FirstSpecimenInfo(rows: seq<Row>, first: Value): (seq<Share>, Option<seq<real>>)
  {
    var counts := ClassCounts(Select(rows, r => ClassOf(first, r)));
    (counts, Percentages(counts))
  }

  /** The block as the script computes it: no block without a chart; with a
      chart, the first specimen's overall row is fetched with `.iloc[0]`
      although nothing reads it, which stops the page when that specimen has
      no overall row. */
  function DistributionBlockAsWritten(rows: seq<Row>): Outcome<Option<DistBlock>>
  {
    var specs := Specimens(rows);
    match Distribution(ChartRows(rows))
    case None => Done(None)
    case Some(legend) =>
      if specs == [] then Done(Some(DistBlock(legend, None)))
      else if Select(rows, r => OverallOf(specs[0], r)) == [] then IndexError
      else Done(Some(DistBlock(legend, Some(FirstSpecimenInfo(rows, specs[0])))))
  }

  /** The block without the unused lookup. */
  function DistributionBlock(rows: seq<Row>): Option<DistBlock>
  {
    var specs := Specimens(rows);
    match Distribution(ChartRows(rows))
    case None => None
    case Some(legend) =>
      Some(DistBlock(legend, if specs == [] then None else Some(FirstSpecimenInfo(rows, specs[0]))))
  }

  /** A frame whose first specimen's only class-free row has no participant
      count: it still names a specimen, its class row draws a chart, and the
      lookup of its overall row fails. */
  lemma IndexErrorWitness()
    ensures var r1 := map[Specimen := Text("A"), Count := Missing];
      var r2 := map[Specimen := Text("A"), RefName := Text("X"), Count := Integer(5)];
      DistributionBlockAsWritten([r1, r2]) == IndexError
  {
    var r1 := map[Specimen := Text("A"), Count := Missing];
    var r2 := map[Specimen := Text("A"), RefName := Text("X"), Count := Integer(5)];
    assert Get(r1, Specimen) == Text("A") && Get(r1, RefName) == Missing && Get(r1, SubName) == Missing;
    assert Get(r1, Count) == Missing;
    assert Get(r2, Specimen) == Text("A") && Get(r2, RefName) == Text("X") && Get(r2, SubName) == Missing;
    assert Get(r2, Count) == Integer(5);
    WitnessOutcome(r1, r2);
  }

  /** The shape of the frame above: a class-free row without a count for
      specimen `A`, then a class row for `A`. */
  lemma WitnessOutcome(r1: Row, r2: Row)
    requires IsSpecimenRow(r1) && !IsOverall(r1) && Get(r1, Specimen) == Text("A")
    requires IsClassification(r2) && !IsOverall(r2) && Get(r2, Specimen) == Text("A")
    requires Get(r2, RefName) != Missing
    ensures DistributionBlockAsWritten([r1, r2]) == IndexError
  {
    var rows := [r1, r2];
    WitnessSpecimens(r1, r2);
    var specs := Specimens(rows);
    WitnessChartRows(r1, r2);
    DistributionFacts(ChartRows(rows));
    assert r2 in ChartRows(rows);
    NoOverallNoSection(rows, specs[0]);
  }

  /** Only the class row of that frame draws the chart. */
  lemma WitnessChartRows(r1: Row, r2: Row)
    requires IsSpecimenRow(r1) && Get(r1, Specimen) == Text("A")
    requires IsClassification(r2) && Get(r2, Specimen) == Text("A")
    requires Specimens([r1, r2]) == [Text("A")]
    ensures ChartRows([r1, r2]) == [r2]
  {
    var rows := [r1, r2];
    var keep := r => IsClassification(r) && Get(r, Specimen) in Specimens(rows);
    assert ChartRows(rows) == Select(rows, keep);
    assert !keep(r1) && keep(r2);
    assert rows[1..] == [r2] && rows[1..][1..] == [];
    assert Select(rows[1..], keep) == [r2] + Select(rows[1..][1..], keep);
  }

  /** A frame with one class-free row, for specimen `A`, followed by a class
      row names the one specimen `A`. */
  lemma WitnessSpecimens(r1: Row, r2: Row)
    requires IsSpecimenRow(r1) && !IsSpecimenRow(r2) && Get(r1, Specimen) == Text("A")
    ensures Specimens([r1, r2]) == [Text("A")]
  {
    var rows := [r1, r2];
    var sel := Select(rows, IsSpecimenRow);
    assert sel == [r1] by {
      assert Select(rows[1..], IsSpecimenRow) == [];
    }
    assert Column(sel, Specimen) == [Text("A")];
  }

  /** Without overall rows no specimen has an overall row to look up. */
  lemma NoOverallNoSection(rows: seq<Row>, spec: Value)
    requires forall r :: r in rows ==> !IsOverall(r)
    ensures Select(rows, r => OverallOf(spec, r)) == []
  {
    var sel := Select(rows, r => OverallOf(spec, r));
    if sel != [] {
      assert sel[0] in sel;
    }
  }

  /** Where the script does not stop it agrees with the corrected block, and
      it stops exactly when there is a chart and the first specimen has no
      overall row. */
  lemma DistributionBlockAgrees(rows: seq<Row>)
    ensures DistributionBlockAsWritten(rows).Done? ==>
      DistributionBlockAsWritten(rows).value == DistributionBlock(rows)
    ensures DistributionBlockAsWritten(rows).IndexError? <==>
      && Distribution(ChartRows(rows)).Some?
      && Specimens(rows) != []
      && (forall r :: r in rows ==> !OverallOf(Specimens(rows)[0], r))
  {
    var specs := Specimens(rows);
    if specs != [] {
      var sel := Select(rows, r => OverallOf(specs[0], r));
      assert sel == [] <==> forall r :: r in rows ==> !OverallOf(specs[0], r) by {
        if sel != [] { assert sel[0] in sel; }
      }
    }
  }

  /** The corrected block: present exactly when the chart is; its legend is
      the chart's; with a first specimen its entries are that specimen's
      classes with their summed counts, largest first, and the percentage
      lines add up to 100 unless the counts total 0. */
  lemma DistributionBlockFacts(rows: seq<Row>)
    ensures DistributionBlock(rows).Some? <==> exists r :: r in ChartRows(rows) && Get(r, RefName) != Missing
    ensures DistributionBlock(rows).Some? && Specimens(rows) != [] ==>
      var first := Specimens(rows)[0];
      var cls := Select(rows, r => ClassOf(first, r));
      var (counts, pct) := DistributionBlock(rows).value.info.value;
      && NonIncreasing(counts, AmountOf)
      && (forall n :: n in GroupNames(cls) ==> Share(n, ClassSum(cls, n, Count)) in counts)
      && (forall e :: e in counts ==> e.name in GroupNames(cls) && e.amount == ClassSum(cls, e.name, Count))
      && (pct.Some? ==> SumReals(pct.value) == 100.0)
  {
    DistributionFacts(ChartRows(rows));
    var specs := Specimens(rows);
    if DistributionBlock(rows).Some? && specs != [] {
      var cls := Select(rows, r => ClassOf(specs[0], r));
      var counts := ClassCounts(cls);
      ClassCountsFacts(cls);
      PercentagesSum(counts);
    }
  }
}
