/** The institution dashboard (`create_dashboard.py`): the missing-value
    fill of the descriptor columns, one profile per lab code built from that
    code's first row, the report address, the reference-class filter
    options, and the rules of the page's script that render a card, hide the
    cards outside the chosen class and count the cards still shown. Whether a
    report file exists is a parameter, as is the text a number cell turns
    into. */
module Dashboard {
  import opened Tabular

  const CodeCol := "기관코드"
  const RefClassCol := "기준분류"
  const DeviceCompanyCol := "기기회사명"
  const DeviceNameCol := "기기명"
  const ReagentCompanyCol := "시약회사명"
  const ReagentNameCol := "시약명"

  /** The columns whose missing cells become `''`. */
  const FillCols := [RefClassCol, DeviceCompanyCol, DeviceNameCol, ReagentCompanyCol, ReagentNameCol]

  const PagesUrl := "https://yun7640.github.io/Cardiac_Marker"
  const UsePages := true

  // ---------------------------------------------------------------------------
  // Missing-value fill

  /** `fillna('')` on the descriptor columns of one row. */
  function FillRow(r: Row): (f: Row)
    ensures forall c :: c in FillCols ==> NotNa(Get(f, c))
    ensures forall c :: c in FillCols && NotNa(Get(r, c)) ==> Get(f, c) == Get(r, c)
    ensures forall c :: c in FillCols && !NotNa(Get(r, c)) ==> Get(f, c) == Text("")
    ensures forall c :: c !in FillCols ==> Get(f, c) == Get(r, c)
  {
    var keys := r.Keys + (set c | c in FillCols);
    map c | c in keys :: if c in FillCols && !NotNa(Get(r, c)) then Text("") else Get(r, c)
  }

  /** The fill step, row by row over the frame. */
  method FillMissing(rows: seq<Row>) returns (filled: seq<Row>)
    ensures |filled| == |rows|
    ensures forall k :: 0 <= k < |rows| ==> filled[k] == FillRow(rows[k])
  {
    filled := [];
    var k := 0;
    while k < |rows|
      invariant 0 <= k <= |rows|
      invariant |filled| == k
      invariant forall j :: 0 <= j < k ==> filled[j] == FillRow(rows[j])
    {
      filled := filled + [FillRow(rows[k])];
      k := k + 1;
    }
  }

  /** After the fill no descriptor cell is missing, and every other cell of
      every row is what it was. */
  lemma FillFacts(rows: seq<Row>, filled: seq<Row>)
    requires |filled| == |rows|
    requires forall k :: 0 <= k < |rows| ==> filled[k] == FillRow(rows[k])
    ensures forall r, c :: r in filled && c in FillCols ==> NotNa(Get(r, c))
    ensures forall k, c :: 0 <= k < |rows| && c !in FillCols ==> Get(filled[k], c) == Get(rows[k], c)
  {
    forall r, c | r in filled && c in FillCols ensures NotNa(Get(r, c)) {
      var k :| 0 <= k < |filled| && filled[k] == r;
    }
  }

  // ---------------------------------------------------------------------------
  // Profiles

  /** One entry of `institution_data`. */
  datatype Profile = Profile(
    code: string,
    refClass: string,
    deviceCompany: string,
    deviceName: string,
    reagentCompany: string,
    reagentName: string,
    hasReport: bool,
    reportUrl: string)

  /** `str(v)`: text as it is, NaN as `nan`, a number as `show` writes it. */
  function Str(v: Value, show: Value -> string): string
  {
    match v
    case Text(s) => s
    case Missing => "nan"
    case _ => show(v)
  }

  /** The lab codes of the rows, in row order; a row without a code (or with
      one that is not text) has no group. */
  function Codes(rows: seq<Row>): (cs: seq<string>)
    ensures forall c :: c in cs <==> exists r :: r in rows && Get(r, CodeCol) == Text(c)
  {
    if rows == [] then []
    else
      assert forall r :: r in rows <==> r == rows[0] || r in rows[1..];
      (match Get(rows[0], CodeCol) case Text(c) => [c] case _ => []) + Codes(rows[1..])
  }

  /** The keys of `groupby('기관코드')`: each code once, ascending. */
  function GroupKeys(rows: seq<Row>): (keys: seq<string>)
    ensures StrictlySorted(keys)
    ensures forall c :: c in keys <==> exists r :: r in rows && Get(r, CodeCol) == Text(c)
  {
    SortedDistinct(Codes(rows))
  }

  /** The position of the first row with code `c`. */
  function CodeIndex(rows: seq<Row>, c: string): (i: nat)
    requires c in Codes(rows)
    ensures i < |rows| && Get(rows[i], CodeCol) == Text(c)
    ensures forall j :: 0 <= j < i ==> Get(rows[j], CodeCol) != Text(c)
  {
    if Get(rows[0], CodeCol) == Text(c) then 0
    else
      assert c in Codes(rows[1..]) by {
        var r :| r in rows && Get(r, CodeCol) == Text(c);
        var j :| 0 <= j < |rows| && rows[j] == r;
        assert rows[1..][j - 1] == r;
      }
      var i := CodeIndex(rows[1..], c);
      assert forall j :: 1 <= j <= i ==> rows[j] == rows[1..][j - 1];
      1 + i
  }

  /** `lab_rows.iloc[0]`: the first row with code `c` (the empty row for a
      code no row has, which the group keys never are). */
  function FirstOfCode(rows: seq<Row>, c: string): Row
  {
    if c in Codes(rows) then rows[CodeIndex(rows, c)] else map[]
  }

  /** The report address of a lab: under the published site when pages are
      used, otherwise relative to the dashboard. */
  function ReportUrl(code: string, usePages: bool): string
  {
    (if usePages then PagesUrl + "/" else "") + "reports/institution_reports/" + code + ".html"
  }

  /** Different codes get different addresses, and the code can be read back
      from between the fixed prefix and the `.html` suffix. */
  lemma ReportUrlShape(code: string, usePages: bool)
    ensures var prefix := (if usePages then PagesUrl + "/" else "") + "reports/institution_reports/";
      var u := ReportUrl(code, usePages);
      && |u| == |prefix| + |code| + 5
      && u[..|prefix|] == prefix
      && u[|prefix|..|prefix| + |code|] == code
      && u[|prefix| + |code|..] == ".html"
  {
  }

  lemma ReportUrlInjective(a: string, b: string, usePages: bool)
    requires ReportUrl(a, usePages) == ReportUrl(b, usePages)
    ensures a == b
  {
    ReportUrlShape(a, usePages);
    ReportUrlShape(b, usePages);
  }

  /** The profile of the lab whose first row is `lab`. */
  function ProfileOf(code: string, lab: Row, hasReport: string -> bool, show: Value -> string): Profile
  {
    Profile(code,
      Str(Get(lab, RefClassCol), show),
      Str(Get(lab, DeviceCompanyCol), show),
      Str(Get(lab, DeviceNameCol), show),
      Str(Get(lab, ReagentCompanyCol), show),
      Str(Get(lab, ReagentNameCol), show),
      hasReport(code),
      ReportUrl(code, UsePages))
  }

  /** The profiles for the group keys `keys`, in their order. */
  function ProfilesFor(rows: seq<Row>, keys: seq<string>, hasReport: string -> bool, show: Value -> string): (ps: seq<Profile>)
    ensures |ps| == |keys|
    ensures forall k :: 0 <= k < |keys| ==> ps[k].code == keys[k]
  {
    if keys == [] then []
    else
      var n := |keys| - 1;
      ProfilesFor(rows, keys[..n], hasReport, show) + [ProfileOf(keys[n], FirstOfCode(rows, keys[n]), hasReport, show)]
  }

  lemma {:induction false} ProfilesForAt(rows: seq<Row>, keys: seq<string>, hasReport: string -> bool, show: Value -> string, k: nat)
    requires k < |keys|
    ensures ProfilesFor(rows, keys, hasReport, show)[k] == ProfileOf(keys[k], FirstOfCode(rows, keys[k]), hasReport, show)
  {
    var n := |keys| - 1;
    if k < n {
      ProfilesForAt(rows, keys[..n], hasReport, show, k);
    }
  }

  /** Codes in non-decreasing order. */
  predicate CodesAscending(t: seq<Profile>)
  {
    forall i, j :: 0 <= i < j < |t| ==> !StrLess(t[j].code, t[i].code)
  }

  /** `institution_data.sort(key=code)`: a stable insertion sort by code. */
  function SortByCode(ps: seq<Profile>): (r: seq<Profile>)
    ensures |r| == |ps|
    ensures multiset(r) == multiset(ps)
  {
    if ps == [] then []
    else
      assert ps == [ps[0]] + ps[1..];
      InsertByCode(ps[0], SortByCode(ps[1..]))
  }

  /** Puts `p` before the first profile whose code is not smaller. */
  function InsertByCode(p: Profile, t: seq<Profile>): (r: seq<Profile>)
    ensures |r| == |t| + 1
    ensures multiset(r) == multiset(t) + multiset{p}
  {
    if t == [] || !StrLess(t[0].code, p.code) then [p] + t
    else
      assert t == [t[0]] + t[1..];
      [t[0]] + InsertByCode(p, t[1..])
  }

  lemma NotLessTransitive(a: string, b: string, c: string)
    requires !StrLess(b, a) && !StrLess(c, b)
    ensures !StrLess(c, a)
  {
    if StrLess(c, a) {
      if a != b { StrLessTotal(a, b); StrLessTransitive(c, a, b); }
    }
  }

  lemma AscendingCons(x: Profile, t: seq<Profile>)
    requires CodesAscending(t)
    requires forall y :: y in t ==> !StrLess(y.code, x.code)
    ensures CodesAscending([x] + t)
  {
    var r := [x] + t;
    forall i, j | 0 <= i < j < |r| ensures !StrLess(r[j].code, r[i].code) {
      assert r[j] == t[j - 1];
      if i > 0 { assert r[i] == t[i - 1]; } else { assert t[j - 1] in t; }
    }
  }

  lemma {:induction false} InsertByCodeAscending(p: Profile, t: seq<Profile>)
    requires CodesAscending(t)
    ensures CodesAscending(InsertByCode(p, t))
  {
    if t == [] {
    } else if !StrLess(t[0].code, p.code) {
      forall y | y in t ensures !StrLess(y.code, p.code) {
        var j :| 0 <= j < |t| && t[j] == y;
        if j > 0 { NotLessTransitive(p.code, t[0].code, y.code); }
      }
      AscendingCons(p, t);
    } else {
      var rest := InsertByCode(p, t[1..]);
      InsertByCodeAscending(p, t[1..]);
      forall y | y in rest ensures !StrLess(y.code, t[0].code) {
        assert y in multiset(rest);
        if y == p {
          StrLessAsymmetric(t[0].code, p.code);
        } else {
          assert y in multiset(t[1..]);
          var j :| 0 <= j < |t[1..]| && t[1..][j] == y;
          assert t[j + 1] == y;
        }
      }
      AscendingCons(t[0], rest);
    }
  }

  /** The sort leaves the profiles in code order. */
  lemma {:induction false} SortByCodeAscending(ps: seq<Profile>)
    ensures CodesAscending(SortByCode(ps))
  {
    if ps != [] {
      SortByCodeAscending(ps[1..]);
      InsertByCodeAscending(ps[0], SortByCode(ps[1..]));
    }
  }

  /** Sorting a list already strictly ascending by code changes nothing. */
  lemma {:induction false} SortByCodeSorted(ps: seq<Profile>)
    requires forall i, j :: 0 <= i < j < |ps| ==> StrLess(ps[i].code, ps[j].code)
    ensures SortByCode(ps) == ps
  {
    if ps != [] {
      SortByCodeSorted(ps[1..]);
      assert SortByCode(ps[1..]) == ps[1..];
      if |ps| > 1 {
        StrLessAsymmetric(ps[0].code, ps[1].code);
      }
    }
  }

  /** The profile loop over `groupby('기관코드')` and the sort that follows it. */
  method BuildProfiles(rows: seq<Row>, hasReport: string -> bool, show: Value -> string) returns (profiles: seq<Profile>)
    ensures profiles == ProfilesFor(rows, GroupKeys(rows), hasReport, show)
  {
    var keys := GroupKeys(rows);
    profiles := [];
    var i := 0;
    while i < |keys|
      invariant 0 <= i <= |keys|
      invariant profiles == ProfilesFor(rows, keys[..i], hasReport, show)
    {
      var code := keys[i];
      var lab := FirstOfCode(rows, code);
      assert keys[..i + 1][..i] == keys[..i];
      profiles := profiles + [ProfileOf(code, lab, hasReport, show)];
      i := i + 1;
    }
    assert keys[..i] == keys;
    ProfilesSortedByCode(rows, hasReport, show);
    SortByCodeSorted(profiles);
    profiles := SortByCode(profiles);
  }

  /** The profiles are in strictly ascending code order. */
  lemma ProfilesSortedByCode(rows: seq<Row>, hasReport: string -> bool, show: Value -> string)
    ensures var ps := ProfilesFor(rows, GroupKeys(rows), hasReport, show);
      forall i, j :: 0 <= i < j < |ps| ==> StrLess(ps[i].code, ps[j].code)
  {
  }

  /** No code has two profiles. */
  lemma ProfilesDistinct(rows: seq<Row>, hasReport: string -> bool, show: Value -> string)
    ensures var ps := ProfilesFor(rows, GroupKeys(rows), hasReport, show);
      forall i, j :: 0 <= i < j < |ps| ==> ps[i].code != ps[j].code
  {
    StrictlySortedNoDup(GroupKeys(rows));
  }

  /** Every lab code of the frame has a profile, and every profile a code of
      the frame. */
  lemma ProfilesCover(rows: seq<Row>, hasReport: string -> bool, show: Value -> string)
    ensures var ps := ProfilesFor(rows, GroupKeys(rows), hasReport, show);
      forall c :: (exists r :: r in rows && Get(r, CodeCol) == Text(c)) <==> exists p :: p in ps && p.code == c
  {
    var keys := GroupKeys(rows);
    var ps := ProfilesFor(rows, keys, hasReport, show);
    forall c | exists r :: r in rows && Get(r, CodeCol) == Text(c)
      ensures exists p :: p in ps && p.code == c
    {
      var k :| 0 <= k < |keys| && keys[k] == c;
      assert ps[k] in ps;
    }
    forall c | exists p :: p in ps && p.code == c
      ensures exists r :: r in rows && Get(r, CodeCol) == Text(c)
    {
      var p :| p in ps && p.code == c;
      var k :| 0 <= k < |ps| && ps[k] == p;
      assert keys[k] in keys;
    }
  }

  /** Each profile is built from the first row of its code, addressed by its
      own URL and flagged with whether its report exists. */
  lemma ProfilesFromFirstRow(rows: seq<Row>, hasReport: string -> bool, show: Value -> string)
    ensures forall p :: p in ProfilesFor(rows, GroupKeys(rows), hasReport, show) ==>
      && p.reportUrl == ReportUrl(p.code, UsePages)
      && p.hasReport == hasReport(p.code)
      && p.code in Codes(rows)
      && p == ProfileOf(p.code, rows[CodeIndex(rows, p.code)], hasReport, show)
  {
    var keys := GroupKeys(rows);
    var ps := ProfilesFor(rows, keys, hasReport, show);
    forall p | p in ps
      ensures p.code in Codes(rows) && p == ProfileOf(p.code, rows[CodeIndex(rows, p.code)], hasReport, show)
    {
      var k :| 0 <= k < |ps| && ps[k] == p;
      assert keys[k] in keys;
      ProfilesForAt(rows, keys, hasReport, show, k);
    }
  }

  // ---------------------------------------------------------------------------
  // Filter options

  /** The reference class of every row as text. */
  function RefClassTexts(rows: seq<Row>, show: Value -> string): (ts: seq<string>)
    ensures |ts| == |rows|
    ensures forall k :: 0 <= k < |rows| ==> ts[k] == Str(Get(rows[k], RefClassCol), show)
  {
    if rows == [] then [] else [Str(Get(rows[0], RefClassCol), show)] + RefClassTexts(rows[1..], show)
  }

  /** `ref_classes = sorted(df['기준분류'].unique())` */
  function RefClasses(rows: seq<Row>, show: Value -> string): seq<string>
  {
    SortedDistinct(RefClassTexts(rows, show))
  }

  /** The filter options are ascending and distinct, and they are exactly
      the classes of the frame's rows. */
  lemma RefClassesFacts(rows: seq<Row>, show: Value -> string)
    ensures StrictlySorted(RefClasses(rows, show)) && NoDup(RefClasses(rows, show))
    ensures forall s :: s in RefClasses(rows, show) <==> exists r :: r in rows && Str(Get(r, RefClassCol), show) == s
  {
    var ts := RefClassTexts(rows, show);
    StrictlySortedNoDup(RefClasses(rows, show));
    forall s | exists r :: r in rows && Str(Get(r, RefClassCol), show) == s
      ensures s in ts
    {
      var r :| r in rows && Str(Get(r, RefClassCol), show) == s;
      var k :| 0 <= k < |rows| && rows[k] == r;
      assert ts[k] == s;
    }
    forall s | s in ts ensures exists r :: r in rows && Str(Get(r, RefClassCol), show) == s {
      var k :| 0 <= k < |ts| && ts[k] == s;
      assert rows[k] in rows;
    }
  }

  /** Every profile's class is one of the filter options. */
  lemma ProfileClassesOffered(rows: seq<Row>, hasReport: string -> bool, show: Value -> string)
    ensures forall p :: p in ProfilesFor(rows, GroupKeys(rows), hasReport, show) ==> p.refClass in RefClasses(rows, show)
  {
    var ts := RefClassTexts(rows, show);
    ProfilesFromFirstRow(rows, hasReport, show);
    forall p | p in ProfilesFor(rows, GroupKeys(rows), hasReport, show)
      ensures p.refClass in RefClasses(rows, show)
    {
      var i := CodeIndex(rows, p.code);
      assert ts[i] == p.refClass;
    }
  }

  // ---------------------------------------------------------------------------
  // Cards

  /** What a rendered card shows. */
  datatype Card = Card(
    code: string,
    refClass: string,
    deviceCompany: string,
    deviceName: string,
    reagentCompany: string,
    reagentName: string,
    buttonClass: string,
    buttonLabel: string,
    enabled: bool,
    target: string)

  /** `value || '미입력'` */
  function OrUnset(s: string): string
  {
    if s == "" then "미입력" else s
  }

  /** `renderInstitutions`' card for one profile. */
  function RenderCard(p: Profile): Card
  {
    Card(p.code, p.refClass, p.deviceCompany, p.deviceName,
      OrUnset(p.reagentCompany), OrUnset(p.reagentName),
      if p.hasReport then "card-button" else "card-button disabled",
      if p.hasReport then "📋 보고서 보기" else "보고서 없음",
      p.hasReport,
      if p.hasReport then p.reportUrl else "")
  }

  /** An empty reagent field shows `미입력` and any other shows itself; the
      button opens the report exactly when there is one, and otherwise is
      disabled and says so. */
  lemma RenderCardFacts(p: Profile)
    ensures var c := RenderCard(p);
      && c.code == p.code && c.refClass == p.refClass
      && c.deviceCompany == p.deviceCompany && c.deviceName == p.deviceName
      && (p.reagentCompany == "" ==> c.reagentCompany == "미입력")
      && (p.reagentCompany != "" ==> c.reagentCompany == p.reagentCompany)
      && (p.reagentName == "" ==> c.reagentName == "미입력")
      && (p.reagentName != "" ==> c.reagentName == p.reagentName)
      && (c.enabled <==> p.hasReport)
      && (c.buttonLabel == "보고서 없음" <==> !p.hasReport)
      && (c.buttonClass == "card-button disabled" <==> !p.hasReport)
      && (c.enabled ==> c.target == p.reportUrl)
  {
  }

  // ---------------------------------------------------------------------------
  // Filtering and counts

  /** A card stays shown when no class is chosen or its class is the chosen one. */
  predicate Visible(p: Profile, filter: string)
  {
    filter == "" || p.refClass == filter
  }

  /** `institutions.find(i => i.code === code)`: the first profile with that code. */
  function FindByCode(ps: seq<Profile>, code: string): (k: nat)
    requires exists p :: p in ps && p.code == code
    ensures k < |ps| && ps[k].code == code
    ensures forall j :: 0 <= j < k ==> ps[j].code != code
  {
    if ps[0].code == code then 0
    else
      assert exists p :: p in ps[1..] && p.code == code by {
        var p :| p in ps && p.code == code;
        var i :| 0 <= i < |ps| && ps[i] == p;
        assert ps[1..][i - 1] == p;
      }
      1 + FindByCode(ps[1..], code)
  }

  /** The profile the `k`-th card finds when it looks its own code up. */
  function CardProfile(ps: seq<Profile>, k: nat): (p: Profile)
    requires k < |ps|
    ensures p in ps && p.code == ps[k].code
  {
    assert ps[k] in ps;
    ps[FindByCode(ps, ps[k].code)]
  }

  /** With distinct codes each card finds its own profile. */
  lemma FindOwn(ps: seq<Profile>, k: nat)
    requires k < |ps|
    requires forall i, j :: 0 <= i < j < |ps| ==> ps[i].code != ps[j].code
    ensures CardProfile(ps, k) == ps[k]
  {
    assert ps[k] in ps;
  }

  /** The number of shown cards. */
  function CountShown(hidden: seq<bool>): (n: nat)
    ensures n <= |hidden|
  {
    if hidden == [] then 0 else (if hidden[0] then 0 else 1) + CountShown(hidden[1..])
  }

  /** The number of profiles a filter keeps. */
  function VisibleCount(ps: seq<Profile>, filter: string): (n: nat)
    ensures n <= |ps|
  {
    if ps == [] then 0 else (if Visible(ps[0], filter) then 1 else 0) + VisibleCount(ps[1..], filter)
  }

  /** Without a filter every card counts; with a filter only the cards of
      that class count, so a class no profile has shows none. */
  lemma {:induction false} VisibleCountFacts(ps: seq<Profile>, filter: string)
    ensures filter == "" ==> VisibleCount(ps, filter) == |ps|
    ensures (forall p :: p in ps ==> p.refClass != filter) && filter != "" ==> VisibleCount(ps, filter) == 0
    ensures VisibleCount(ps, filter) == |ps| <==> forall p :: p in ps ==> Visible(p, filter)
  {
    if ps != [] {
      VisibleCountFacts(ps[1..], filter);
      assert forall p :: p in ps <==> p == ps[0] || p in ps[1..];
    }
  }

  lemma {:induction false} CountShownMatches(ps: seq<Profile>, hidden: seq<bool>, filter: string)
    requires |hidden| == |ps|
    requires forall k :: 0 <= k < |ps| ==> (hidden[k] <==> !Visible(ps[k], filter))
    ensures CountShown(hidden) == VisibleCount(ps, filter)
  {
    if ps != [] {
      CountShownMatches(ps[1..], hidden[1..], filter);
    }
  }

  /** The grid of cards of the page: the profiles it was rendered from and
      whether each card carries the `hidden` class. */
  class Grid {
    var institutions: seq<Profile>
    var hidden: seq<bool>

    predicate Valid()
      reads this
    {
      |hidden| == |institutions|
    }

    /** `renderInstitutions`: one shown card per profile. */
    constructor (ps: seq<Profile>)
      ensures Valid()
      ensures institutions == ps
      ensures forall k :: 0 <= k < |ps| ==> !hidden[k]
    {
      institutions := ps;
      hidden := seq(|ps|, _ => false);
    }

    /** `displayCount` */
    function Displayed(): nat
      reads this
    {
      CountShown(hidden)
    }

    /** `totalCount` */
    function Total(): nat
      reads this
    {
      |institutions|
    }

    /** `filterInstitutions`: each card looks up its profile by code and is
        hidden unless that profile passes the filter. */
    method Filter(filter: string)
      requires Valid()
      modifies this
      ensures Valid()
      ensures institutions == old(institutions)
      ensures forall k :: 0 <= k < |institutions| ==>
        (hidden[k] <==> !Visible(CardProfile(institutions, k), filter))
    {
      var ps := institutions;
      var h: seq<bool> := [];
      var k := 0;
      while k < |ps|
        invariant 0 <= k <= |ps|
        invariant |h| == k
        invariant forall j :: 0 <= j < k ==> (h[j] <==> !Visible(CardProfile(ps, j), filter))
      {
        var inst := CardProfile(ps, k);
        if filter == "" || inst.refClass == filter {
          h := h + [false];
        } else {
          h := h + [true];
        }
        k := k + 1;
      }
      hidden := h;
    }

    /** `resetFilter` */
    method Reset()
      requires Valid()
      modifies this
      ensures Valid()
      ensures institutions == old(institutions)
      ensures forall k :: 0 <= k < |institutions| ==> !hidden[k]
    {
      Filter("");
    }
  }

  /** After a filter over profiles with distinct codes the page counts
      exactly the profiles of the chosen class (all of them when none is
      chosen), never more than the total. */
  lemma FilterCounts(g: Grid, filter: string)
    requires g.Valid()
    requires forall i, j :: 0 <= i < j < |g.institutions| ==> g.institutions[i].code != g.institutions[j].code
    requires forall k :: 0 <= k < |g.institutions| ==>
      (g.hidden[k] <==> !Visible(CardProfile(g.institutions, k), filter))
    ensures g.Displayed() == VisibleCount(g.institutions, filter) <= g.Total()
    ensures filter == "" ==> g.Displayed() == g.Total()
  {
    var ps := g.institutions;
    forall k | 0 <= k < |ps| ensures g.hidden[k] <==> !Visible(ps[k], filter) {
      FindOwn(ps, k);
    }
    CountShownMatches(ps, g.hidden, filter);
    VisibleCountFacts(ps, filter);
  }
}
