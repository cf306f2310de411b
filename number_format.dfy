/** `format_number` of the common report (create_common_report_webpage.py):
    a dash for a missing cell, an integral number with comma thousands grouping
    and no decimal point, any other number with comma grouping and exactly two
    decimals, and the raw text of a cell that is not a number. */
module NumberFormat {
  import opened Tabular

  predicate IsDigit(c: char)
  {
    '0' <= c <= '9'
  }

  predicate AllDigits(s: string)
  {
    forall i :: 0 <= i < |s| ==> IsDigit(s[i])
  }

  function DigitChar(d: nat): (c: char)
    requires d < 10
    ensures IsDigit(c) && (c - '0') as int == d
  {
    "0123456789"[d]
  }

  /** The decimal digits of `n`, without leading zeros ("0" for zero). */
  function Digits(n: nat): (r: string)
    ensures |r| >= 1 && AllDigits(r)
    ensures |r| > 1 ==> r[0] != '0'
    decreases n
  {
    if n < 10 then [DigitChar(n)] else Digits(n / 10) + [DigitChar(n % 10)]
  }

  /** The number a string of decimal digits denotes. */
  function DigitsValue(s: string): nat
    requires AllDigits(s)
  {
    if s == [] then 0 else DigitsValue(s[..|s| - 1]) * 10 + (s[|s| - 1] - '0') as int
  }

  lemma {:induction false} DigitsRoundTrip(n: nat)
    ensures DigitsValue(Digits(n)) == n
    decreases n
  {
    if n >= 10 {
      DigitsRoundTrip(n / 10);
      var d := Digits(n / 10) + [DigitChar(n % 10)];
      assert d[..|d| - 1] == Digits(n / 10);
    }
  }

  /** Puts a comma in front of every third digit, counted from the right. */
  function Group(ds: string): (r: string)
    decreases |ds|
  {
    if |ds| <= 3 then ds else Group(ds[..|ds| - 3]) + "," + ds[|ds| - 3..]
  }

  /** `Group` puts commas exactly at every fourth position counted from the
      right end, digits everywhere else, and adds one comma per full group of three. */
  lemma {:induction false} GroupShape(ds: string)
    requires AllDigits(ds) && |ds| >= 1
    ensures |Group(ds)| == |ds| + (|ds| - 1) / 3
    ensures forall i :: 0 <= i < |Group(ds)| ==> GroupedAt(Group(ds), i)
    decreases |ds|
  {
    var r := Group(ds);
    if |ds| > 3 {
      var p := ds[..|ds| - 3];
      var tail := ds[|ds| - 3..];
      GroupShape(p);
      var g := Group(p);
      assert r == g + "," + tail;
      assert |r| == |g| + 4;
      forall i | 0 <= i < |r|
        ensures GroupedAt(r, i)
      {
        if i < |g| {
          assert r[i] == g[i];
          assert GroupedAt(g, i);
          Mod4Shift(|g| - i);
        } else if i > |g| {
          assert r[i] == tail[i - |g| - 1];
        }
      }
    } else {
      assert r == ds;
    }
  }

  /** At position `i` of `r`: a comma exactly when `i` is a multiple of four
      positions from the right end, a digit otherwise. */
  predicate GroupedAt(r: string, i: int)
    requires 0 <= i < |r|
  {
    (r[i] == ',' <==> (|r| - i) % 4 == 0) && (r[i] != ',' ==> IsDigit(r[i]))
  }

  lemma Mod4Shift(k: int)
    ensures (k + 4) % 4 == k % 4
  {
  }

  /** Drops the commas. */
  function Ungroup(s: string): (r: string)
  {
    if s == [] then [] else Ungroup(s[..|s| - 1]) + (if s[|s| - 1] == ',' then [] else [s[|s| - 1]])
  }

  lemma {:induction false} UngroupAppend(a: string, b: string)
    ensures Ungroup(a + b) == Ungroup(a) + Ungroup(b)
    decreases |b|
  {
    if b != [] {
      var ab := a + b;
      assert ab[..|ab| - 1] == a + b[..|b| - 1];
      UngroupAppend(a, b[..|b| - 1]);
    } else {
      assert a + b == a;
    }
  }

  lemma {:induction false} UngroupDigits(ds: string)
    requires AllDigits(ds)
    ensures Ungroup(ds) == ds
  {
    if ds != [] {
      UngroupDigits(ds[..|ds| - 1]);
      assert ds == ds[..|ds| - 1] + [ds[|ds| - 1]];
    }
  }

  /** Removing the commas gives back the digits. */
  lemma {:induction false} UngroupGroup(ds: string)
    requires AllDigits(ds)
    ensures Ungroup(Group(ds)) == ds
    decreases |ds|
  {
    if |ds| <= 3 {
      UngroupDigits(ds);
    } else {
      var p, tail := ds[..|ds| - 3], ds[|ds| - 3..];
      var g := Group(p);
      assert Group(ds) == (g + ",") + tail;
      UngroupGroup(p);
      UngroupAppend(g + ",", tail);
      UngroupAppend(g, ",");
      UngroupDigits(tail);
      UngroupComma();
      calc {
        Ungroup(Group(ds));
        Ungroup(g + ",") + Ungroup(tail);
        (Ungroup(g) + Ungroup(",")) + tail;
        p + tail;
      }
      assert ds == p + tail;
    }
  }

  lemma UngroupComma()
    ensures Ungroup(",") == []
  {
    assert ","[..0] == [];
  }

  /** `f"{n:,}"` */
  function Grouped(n: int): string
  {
    (if n < 0 then "-" else "") + Group(Digits(if n < 0 then -n else n))
  }

  /** Round to the nearest integer, ties to the even one (Python's rounding
      of an exactly representable tie). */
  function RoundHalfEven(x: real): (r: int)
    ensures -1.0 / 2.0 <= r as real - x <= 1.0 / 2.0
    ensures x >= 0.0 ==> r >= 0
  {
    var f := x.Floor;
    var d := x - f as real;
    if d > 1.0 / 2.0 || (d == 1.0 / 2.0 && f % 2 == 1) then f + 1 else f
  }

  /** `f"{x:,.2f}"` on the exact value: sign, grouped whole part, point, two digits. */
  function Fixed2(x: real): string
  {
    var q := RoundHalfEven(if x < 0.0 then -x * 100.0 else x * 100.0);
    (if x < 0.0 then "-" else "") + CentsText(q)
  }

  predicate IsIntegral(x: real)
  {
    x == x.Floor as real
  }

  /** The numeric branch of `format_number`: `val == int(val)` holds exactly for an integral value. */
  function FormatReal(x: real): string
  {
    if IsIntegral(x) then Grouped(x.Floor) else Fixed2(x)
  }

  /** `format_number(value)`; `parse` is Python's `float()` on text. A NaN or
      infinite float, whose `int()` raises, is not a `real` and is out of this model. */
  function FormatNumber(v: Value, parse: string -> Option<real>): (r: string)
    ensures v.Missing? ==> r == "-"
    ensures v.Text? && parse(v.s).None? ==> r == v.s
    ensures forall x :: ToFloat(v, parse) == Some(x) ==> r == FormatReal(x)
  {
    match v
    case Missing => "-"
    case Text(s) => (match parse(s) case None => s case Some(x) => FormatReal(x))
    case Integer(i) => FormatReal(i as real)
    case Number(x) => FormatReal(x)
  }

  /** Reads a formatted number back: optional sign, comma-grouped whole part,
      optional point with two digits. */
  function ParseFormatted(s: string): Option<real>
  {
    if |s| > 0 && s[0] == '-' then
      match ParseUnsigned(s[1..]) case None => None case Some(m) => Some(-m)
    else ParseUnsigned(s)
  }

  function ParseUnsigned(b: string): Option<real>
  {
    if |b| >= 3 && b[|b| - 3] == '.' then ParseParts(b[..|b| - 3], b[|b| - 2..]) else ParseParts(b, "")
  }

  function ParseParts(whole: string, cents: string): Option<real>
  {
    var w := Ungroup(whole);
    if |w| == 0 || !AllDigits(w) || !AllDigits(cents) then None
    else Some(DigitsValue(w) as real + DigitsValue(cents) as real / 100.0)
  }

  lemma GroupedNoPoint(n: nat)
    ensures '.' !in Group(Digits(n))
  {
    var g := Group(Digits(n));
    GroupShape(Digits(n));
    forall i | 0 <= i < |g| ensures g[i] != '.' { assert GroupedAt(g, i); }
  }

  lemma GroupedStart(n: nat)
    ensures |Group(Digits(n))| >= 1 && Group(Digits(n))[0] != '-'
  {
    var d := Digits(n);
    var g := Group(d);
    GroupShape(d);
    GroupLength(|d|);
    assert GroupedAt(g, 0);
  }

  lemma GroupLength(n: int)
    requires n >= 1
    ensures (n + (n - 1) / 3) % 4 != 0
  {
    var k, j := (n - 1) / 3, (n - 1) % 3;
    assert n + k == 4 * k + j + 1;
  }

  lemma ParseWholeParts(m: nat)
    ensures ParseParts(Group(Digits(m)), "") == Some(m as real)
  {
    UngroupGroup(Digits(m));
    DigitsRoundTrip(m);
    assert DigitsValue("") == 0;
  }

  lemma ParseWholeUnsigned(m: nat)
    ensures ParseUnsigned(Group(Digits(m))) == Some(m as real)
  {
    var g := Group(Digits(m));
    GroupedNoPoint(m);
    if |g| >= 3 { assert g[|g| - 3] in g; }
    ParseWholeParts(m);
  }

  /** A signed, grouped whole number reads back as itself. */
  lemma ParseGroupedWhole(neg: bool, m: nat)
    ensures ParseFormatted((if neg then "-" else "") + Group(Digits(m))) == Some(if neg then -(m as real) else m as real)
  {
    var g := Group(Digits(m));
    var s := (if neg then "-" else "") + g;
    GroupedStart(m);
    ParseWholeUnsigned(m);
    if neg {
      assert s[1..] == g;
    } else {
      assert s == g;
    }
  }

  /** An integral value prints without a decimal point and reads back exactly. */
  lemma FormatIntegral(x: real)
    requires IsIntegral(x)
    ensures var m: nat := if x.Floor < 0 then -x.Floor else x.Floor;
      && FormatReal(x) == (if x < 0.0 then "-" else "") + Group(Digits(m))
      && forall i :: 0 <= i < |Group(Digits(m))| ==> GroupedAt(Group(Digits(m)), i)
    ensures '.' !in FormatReal(x)
    ensures ParseFormatted(FormatReal(x)) == Some(x)
  {
    var n := x.Floor;
    var m: nat := if n < 0 then -n else n;
    assert FormatReal(x) == (if n < 0 then "-" else "") + Group(Digits(m));
    assert n < 0 <==> x < 0.0;
    GroupShape(Digits(m));
    GroupedNoPoint(m);
    ParseGroupedWhole(n < 0, m);
  }

  lemma CentsValue(q: nat)
    ensures DigitsValue([DigitChar(q % 100 / 10), DigitChar(q % 10)]) == q % 100
  {
    var c := [DigitChar(q % 100 / 10), DigitChar(q % 10)];
    assert c[..1] == [c[0]];
    assert [c[0]][..0] == [];
    assert DigitsValue(c) == DigitsValue([c[0]]) * 10 + (c[1] - '0') as int;
    assert DigitsValue([c[0]]) == (c[0] - '0') as int;
    var t, a := q % 100, q / 100;
    assert q == 100 * a + t;
    assert q % 10 == t % 10;
    assert t / 10 * 10 + t % 10 == t;
  }

  lemma SplitCents(g: string, c: string)
    requires |c| == 2
    ensures ParseUnsigned(g + "." + c) == ParseParts(g, c)
  {
    var b := g + "." + c;
    assert b[|b| - 3] == '.';
    assert b[..|b| - 3] == g;
    assert b[|b| - 2..] == c;
  }

  lemma PartsWithCents(w: nat, c: string)
    requires AllDigits(c)
    ensures ParseParts(Group(Digits(w)), c) == Some(w as real + DigitsValue(c) as real / 100.0)
  {
    UngroupGroup(Digits(w));
    DigitsRoundTrip(w);
  }

  /** The digits `Fixed2` prints for a value denote an amount within half a cent of it. */
  lemma Fixed2Close(x: real)
    ensures var q := RoundHalfEven(if x < 0.0 then -x * 100.0 else x * 100.0);
      var m := (q / 100) as real + (q % 100) as real / 100.0;
      -1.0 / 200.0 <= (if x < 0.0 then -m else m) - x <= 1.0 / 200.0
  {
    var a := if x < 0.0 then -x * 100.0 else x * 100.0;
    var q := RoundHalfEven(a);
    assert (q / 100) * 100 + q % 100 == q;
    var m := (q / 100) as real + (q % 100) as real / 100.0;
    assert m == q as real / 100.0;
  }

  lemma PointShape(s: string, sign: string, g: string, c: string)
    requires s == sign + g + "." + c
    requires |g| >= 1 && '.' !in g && '.' !in sign && |c| == 2 && AllDigits(c)
    ensures && |s| >= 4 && s[|s| - 3] == '.' && IsDigit(s[|s| - 2]) && IsDigit(s[|s| - 1])
      && '.' !in s[..|s| - 3]
  {
    assert s[..|s| - 3] == sign + g;
    assert s[|s| - 2] == c[0] && s[|s| - 1] == c[1];
  }

  lemma ParseSigned(s: string, neg: bool, u: string, m: real)
    requires s == (if neg then "-" else "") + u
    requires |u| >= 1 && u[0] != '-' && ParseUnsigned(u) == Some(m)
    ensures ParseFormatted(s) == Some(if neg then -m else m)
  {
    if neg {
      assert ("-" + u)[1..] == u;
    } else {
      assert "" + u == u;
    }
  }

  lemma CloseWitness(x: real, s: string, m: real)
    requires ParseFormatted(s) == Some(if x < 0.0 then -m else m)
    requires -1.0 / 200.0 <= (if x < 0.0 then -m else m) - x <= 1.0 / 200.0
    ensures exists y :: ParseFormatted(s) == Some(y) && -1.0 / 200.0 <= y - x <= 1.0 / 200.0
  {
    var y := if x < 0.0 then -m else m;
    assert ParseFormatted(s) == Some(y);
  }

  function CentsText(q: nat): string
  {
    Group(Digits(q / 100)) + "." + [DigitChar(q % 100 / 10), DigitChar(q % 10)]
  }

  /** The unsigned text for an amount of `q` cents reads back as that amount. */
  lemma CentsTextReads(q: nat)
    ensures var u := CentsText(q);
      && |u| >= 1 && u[0] != '-'
      && ParseUnsigned(u) == Some((q / 100) as real + (q % 100) as real / 100.0)
  {
    var w: nat := q / 100;
    var g := Group(Digits(w));
    var c := [DigitChar(q % 100 / 10), DigitChar(q % 10)];
    var u := CentsText(q);
    GroupedStart(w);
    assert u[0] == g[0];
    CentsValue(q);
    SplitCents(g, c);
    PartsWithCents(w, c);
  }

  lemma CentsTextShape(sign: string, q: nat)
    requires '.' !in sign
    ensures var s := sign + CentsText(q);
      && |s| >= 4 && s[|s| - 3] == '.' && IsDigit(s[|s| - 2]) && IsDigit(s[|s| - 1])
      && '.' !in s[..|s| - 3]
  {
    var w: nat := q / 100;
    var g := Group(Digits(w));
    var c := [DigitChar(q % 100 / 10), DigitChar(q % 10)];
    GroupedNoPoint(w);
    GroupedStart(w);
    PointShape(sign + CentsText(q), sign, g, c);
  }

  /** The two-decimal text of any value has one point followed by exactly two
      digits, and reads back as the value to within half a cent. */
  lemma Fixed2Reads(x: real)
    ensures var s := Fixed2(x);
      && |s| >= 4 && s[|s| - 3] == '.' && IsDigit(s[|s| - 2]) && IsDigit(s[|s| - 1])
      && '.' !in s[..|s| - 3]
      && exists y :: ParseFormatted(s) == Some(y) && -1.0 / 200.0 <= y - x <= 1.0 / 200.0
  {
    var s := Fixed2(x);
    var a := if x < 0.0 then -x * 100.0 else x * 100.0;
    var q: nat := RoundHalfEven(a);
    var sign := if x < 0.0 then "-" else "";
    assert s == sign + CentsText(q);
    CentsTextShape(sign, q);
    CentsTextReads(q);
    var m := (q / 100) as real + (q % 100) as real / 100.0;
    ParseSigned(s, x < 0.0, CentsText(q), m);
    Fixed2Close(x);
    CloseWitness(x, s, m);
  }

  /** A non-integral value prints with one point followed by exactly two digits,
      and what it reads back as lies within half a cent of the value. */
  lemma FormatFractional(x: real)
    requires !IsIntegral(x)
    ensures var s := FormatReal(x);
      && |s| >= 4 && s[|s| - 3] == '.' && IsDigit(s[|s| - 2]) && IsDigit(s[|s| - 1])
      && '.' !in s[..|s| - 3]
      && exists y :: ParseFormatted(s) == Some(y) && -1.0 / 200.0 <= y - x <= 1.0 / 200.0
  {
    assert FormatReal(x) == Fixed2(x);
    Fixed2Reads(x);
  }

  /** The `format_number` cases, on the exact value of the cell. */
  lemma FormatNumberCases(v: Value, parse: string -> Option<real>)
    ensures v.Missing? ==> FormatNumber(v, parse) == "-"
    ensures v.Text? && parse(v.s).None? ==> FormatNumber(v, parse) == v.s
    ensures forall x :: ToFloat(v, parse) == Some(x) && IsIntegral(x) ==>
              '.' !in FormatNumber(v, parse) && ParseFormatted(FormatNumber(v, parse)) == Some(x)
    ensures forall x :: ToFloat(v, parse) == Some(x) && !IsIntegral(x) ==>
              var s := FormatNumber(v, parse);
              |s| >= 4 && s[|s| - 3] == '.' && IsDigit(s[|s| - 2]) && IsDigit(s[|s| - 1])
  {
    forall x | ToFloat(v, parse) == Some(x)
      ensures IsIntegral(x) ==> '.' !in FormatNumber(v, parse) && ParseFormatted(FormatNumber(v, parse)) == Some(x)
      ensures !IsIntegral(x) ==> var s := FormatNumber(v, parse);
                |s| >= 4 && s[|s| - 3] == '.' && IsDigit(s[|s| - 2]) && IsDigit(s[|s| - 1])
    {
      if IsIntegral(x) { FormatIntegral(x); } else { FormatFractional(x); }
    }
  }
}
