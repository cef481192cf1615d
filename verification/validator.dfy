/** Validation of the consolidated expense rows: a CNPJ check, a non-blank
    company name and a positive amount, with the rows split into the kept
    rows and the report of rows whose CNPJ failed. */
module Validator {
  import opened Wrappers
  import opened Text
  import opened Numbers
  import opened Cnpj
  import opened Rows
  import opened Seqs

  // ---------------------------------------------------------------------------
  // Amounts
  // ---------------------------------------------------------------------------

  /** A Brazilian-format amount with `.` thousands and `,` decimal separators:
      the text is stripped, every `.` removed, every `,` turned into `.`, and
      the result read as a number; blank, unreadable and non-positive amounts
      give `None`. */
  function ParsePositiveFloat(value: string): (r: Option<real>)
    ensures r.Some? ==> r.value > 0.0
    ensures Strip(value) == [] ==> r == None
  {
    var raw := Strip(value);
    if raw == [] then None else Positive(ParseNumber(Normalise(raw)))
  }

  /** Thousands points dropped, the decimal comma made a point. */
  function Normalise(raw: string): string {
    Replace(Remove(raw, '.'), ',', '.')
  }

  /** A parsed amount counts only when it is greater than zero. */
  function Positive(n: Option<real>): (r: Option<real>)
    ensures r.Some? <==> n.Some? && n.value > 0.0
    ensures r.Some? ==> r == n
  {
    if n.Some? && n.value > 0.0 then n else None
  }

  /** An already stripped, non-blank amount is normalised and read as it is. */
  lemma ParseStripped(s: string)
    requires s != [] && IsStripped(s)
    ensures ParsePositiveFloat(s) == Positive(ParseNumber(Normalise(s)))
  {
    StripFixpoint(s);
  }

  /** Groups a digit string in threes from the right with `.`, as amounts are
      printed in Brazil. */
  function GroupThousands(ds: string): (r: string)
    ensures |ds| > 0 ==> |r| > 0 && r[0] == ds[0] && r[|r| - 1] == ds[|ds| - 1]
    decreases |ds|
  {
    if |ds| <= 3 then ds else GroupThousands(ds[..|ds| - 3]) + "." + ds[|ds| - 3..]
  }

  /** Removing the dots undoes the grouping. */
  lemma {:induction false} GroupThousandsRemove(ds: string)
    ensures Remove(GroupThousands(ds), '.') == Remove(ds, '.')
    decreases |ds|
  {
    if |ds| > 3 {
      var init := ds[..|ds| - 3];
      var tail := ds[|ds| - 3..];
      var head := GroupThousands(init);
      var dot := ['.'];
      assert Remove(dot, '.') == [] by {
        assert dot[1..] == [];
      }
      calc {
        Remove(GroupThousands(ds), '.');
        Remove(head + dot + tail, '.');
        { RemoveAppend(head + dot, tail, '.'); }
        Remove(head + dot, '.') + Remove(tail, '.');
        { RemoveAppend(head, dot, '.'); }
        Remove(head, '.') + Remove(tail, '.');
        { GroupThousandsRemove(init); }
        Remove(init, '.') + Remove(tail, '.');
        { RemoveAppend(init, tail, '.'); assert init + tail == ds; }
        Remove(ds, '.');
      }
    }
  }

  function TwoDigits(c: nat): (r: string)
    requires c < 100
    ensures |r| == 2 && AllDigits(r) && DigitsValue(r) == c
  {
    var hi := DigitChar(c / 10);
    var lo := DigitChar(c % 10);
    var r := [hi, lo];
    assert r[..1] == [hi] && [hi][..0] == [];
    assert DigitsValue([hi]) == c / 10;
    r
  }

  /** An amount of `units` reais and `cents` centavos written the Brazilian
      way, e.g. `1.234,56`: the text the parser is built to read. */
  function FormatBrl(units: nat, cents: nat): string
    requires cents < 100
  {
    GroupThousands(NatToString(units)) + "," + TwoDigits(cents)
  }

  lemma ReplaceAppend(a: string, b: string, x: char, y: char)
    ensures Replace(a + b, x, y) == Replace(a, x, y) + Replace(b, x, y)
  {
  }

  lemma RemoveFromDigits(ds: string)
    requires AllDigits(ds)
    ensures Remove(ds, '.') == ds
  {
    assert '.' !in ds by {
      assert forall i :: 0 <= i < |ds| ==> IsDigit(ds[i]);
    }
    RemoveAbsent(ds, '.');
  }

  /** Dropping the dots of a formatted amount leaves the plain digits and the comma. */
  lemma RemoveGrouping(units: nat, cents: nat)
    requires cents < 100
    ensures Remove(FormatBrl(units, cents), '.') == NatToString(units) + "," + TwoDigits(cents)
  {
    var ds := NatToString(units);
    var cc := TwoDigits(cents);
    var g := GroupThousands(ds);
    assert Remove(",", '.') == "," by {
      assert ","[1..] == [];
    }
    calc {
      Remove(g + "," + cc, '.');
      { RemoveAppend(g + ",", cc, '.'); }
      Remove(g + ",", '.') + Remove(cc, '.');
      { RemoveAppend(g, ",", '.'); }
      Remove(g, '.') + "," + Remove(cc, '.');
      { GroupThousandsRemove(ds); }
      Remove(ds, '.') + "," + Remove(cc, '.');
      { RemoveFromDigits(ds); RemoveFromDigits(cc); }
      ds + "," + cc;
    }
  }

  /** Turning the comma into a point gives the numeral `float()` reads. */
  lemma CommaToPoint(ds: string, cc: string)
    requires AllDigits(ds) && AllDigits(cc)
    ensures Replace(ds + "," + cc, ',', '.') == ds + "." + cc
  {
    var s := ds + "," + cc;
    var t := ds + "." + cc;
    var r := Replace(s, ',', '.');
    assert |r| == |t|;
    forall i | 0 <= i < |t|
      ensures r[i] == t[i]
    {
      if i < |ds| {
        assert s[i] == ds[i] && t[i] == ds[i];
      } else if i == |ds| {
        assert s[i] == ',' && t[i] == '.';
      } else {
        assert s[i] == cc[i - |ds| - 1] && t[i] == cc[i - |ds| - 1];
      }
    }
  }

  lemma NormalisedBrl(units: nat, cents: nat)
    requires cents < 100
    ensures Replace(Remove(FormatBrl(units, cents), '.'), ',', '.')
         == NatToString(units) + "." + TwoDigits(cents)
  {
    RemoveGrouping(units, cents);
    CommaToPoint(NatToString(units), TwoDigits(cents));
  }

  /** The parser reads back exactly what `FormatBrl` writes: `units + cents / 100`,
      or `None` when that is zero. */
  lemma BrlRoundTrip(units: nat, cents: nat)
    requires cents < 100
    ensures ParsePositiveFloat(FormatBrl(units, cents))
         == if units > 0 || cents > 0 then Some(units as real + cents as real / 100.0) else None
  {
    var s := FormatBrl(units, cents);
    var ds := NatToString(units);
    var cc := TwoDigits(cents);
    assert s[0] == GroupThousands(ds)[0] && s[|s| - 1] == cc[1];
    ParseStripped(s);
    NormalisedBrl(units, cents);
    ParseDecimal(ds, cc);
    BrlValue(units, cents);
  }

  lemma BrlValue(units: nat, cents: nat)
    requires cents < 100
    ensures DecimalValue(NatToString(units), TwoDigits(cents)) == units as real + cents as real / 100.0
  {
    assert Pow10(2) == 100;
  }

  lemma FormatExample()
    ensures FormatBrl(1234, 56) == "1.234,56"
  {
    assert NatToString(1234) == "1234";
    assert GroupThousands("1234") == "1.234" by {
      assert "1234"[..1] == "1" && "1234"[1..] == "234";
    }
    assert TwoDigits(56) == "56";
  }

  /** `1.234,56` is read as 1234.56. */
  lemma GroupedAmountExample()
    ensures ParsePositiveFloat("1.234,56") == Some(1234.56)
  {
    FormatExample();
    BrlRoundTrip(1234, 56);
  }

  /** A point written as a decimal point is taken for a thousands separator and dropped. */
  lemma PointDropped(whole: string, frac: string)
    requires AllDigits(whole) && AllDigits(frac)
    ensures Remove(whole + "." + frac, '.') == whole + frac
  {
    assert Remove(".", '.') == [] by {
      assert "."[1..] == [];
    }
    RemoveAppend(whole, ".", '.');
    RemoveFromDigits(whole);
    assert Remove(whole + ".", '.') == whole;
    RemoveAppend(whole + ".", frac, '.');
    RemoveFromDigits(frac);
  }

  /** A point meant as a decimal point is taken for a thousands separator:
      `whole.frac` is read as the integer written by the digits of both parts,
      so `1234.56` becomes 123456. */
  lemma PointAmount(whole: string, frac: string)
    requires AllDigits(whole) && AllDigits(frac) && |whole| > 0
    ensures var n := DigitsValue(whole + frac);
      ParsePositiveFloat(whole + "." + frac) == if n > 0 then Some(n as real) else None
  {
    var s := whole + "." + frac;
    var digits := whole + frac;
    assert s[0] == whole[0] && s[|s| - 1] == (if frac == [] then '.' else frac[|frac| - 1]);
    ParseStripped(s);
    PointDropped(whole, frac);
    assert AllDigits(digits);
    assert Normalise(s) == digits;
    NoExponent(digits);
    ParsePlainMantissa(digits);
    MantissaOfDigits(digits);
  }

  /** Zero and blank amounts are rejected. */
  lemma RejectedAmountExamples()
    ensures ParsePositiveFloat("0,00") == None
    ensures ParsePositiveFloat("") == None
  {
    assert FormatBrl(0, 0) == "0,00" by {
      assert TwoDigits(0) == "00";
    }
    BrlRoundTrip(0, 0);
  }

  // ---------------------------------------------------------------------------
  // Row validation
  // ---------------------------------------------------------------------------

  /** The reasons a row can fail, in the order they are checked. */
  datatype Reason = CnpjInvalido | RazaoSocialVazia | ValorInvalidoOuNaoPositivo {

    /** The code written to the report. */
    function Code(): string {
      match this
      case CnpjInvalido => "CNPJ_INVALIDO"
      case RazaoSocialVazia => "RAZAO_SOCIAL_VAZIA"
      case ValorInvalidoOuNaoPositivo => "VALOR_INVALIDO_OU_NAO_POSITIVO"
    }

    /** Position in the fixed order of the checks. */
    function Rank(): nat {
      match this
      case CnpjInvalido => 0
      case RazaoSocialVazia => 1
      case ValorInvalidoOuNaoPositivo => 2
    }
  }

  /** Reasons listed in check order, each at most once. */
  predicate InCheckOrder(reasons: seq<Reason>) {
    forall i, j :: 0 <= i < j < |reasons| ==> reasons[i].Rank() < reasons[j].Rank()
  }

  datatype Outcome = Outcome(isValid: bool, reasons: seq<Reason>)

  /** The reasons for the given failed checks, in check order. */
  function ReasonsFor(cnpjFails: bool, razaoBlank: bool, valorFails: bool): (rs: seq<Reason>)
    ensures CnpjInvalido in rs <==> cnpjFails
    ensures RazaoSocialVazia in rs <==> razaoBlank
    ensures ValorInvalidoOuNaoPositivo in rs <==> valorFails
    ensures InCheckOrder(rs)
  {
    (if cnpjFails then [CnpjInvalido] else [])
    + (if razaoBlank then [RazaoSocialVazia] else [])
    + (if valorFails then [ValorInvalidoOuNaoPositivo] else [])
  }

  /** All three checks run on every row, none short-circuiting; the row is
      valid exactly when none fails. */
  function ValidateRow(row: Row): (o: Outcome)
    ensures o.isValid <==> o.reasons == []
    ensures CnpjInvalido in o.reasons <==> !IsValidCnpj(Get(row, "CNPJ"))
    ensures RazaoSocialVazia in o.reasons <==> Strip(Get(row, "RazaoSocial")) == []
    ensures ValorInvalidoOuNaoPositivo in o.reasons <==> ParsePositiveFloat(Get(row, "ValorDespesas")).None?
    ensures InCheckOrder(o.reasons)
  {
    var reasons := ReasonsFor(
      !IsValidCnpj(Get(row, "CNPJ")),
      Strip(Get(row, "RazaoSocial")) == [],
      ParsePositiveFloat(Get(row, "ValorDespesas")).None?);
    Outcome(|reasons| == 0, reasons)
  }

  /** Check order and membership leave no freedom: two reason lists in check
      order with the same members are the same list. */
  lemma {:induction false} CheckOrderDetermines(a: seq<Reason>, b: seq<Reason>)
    requires InCheckOrder(a) && InCheckOrder(b)
    requires forall r :: r in a <==> r in b
    ensures a == b
    decreases |a| + |b|
  {
    if a != [] {
      assert a[0] in b;
    }
    if b != [] {
      assert b[0] in a;
    }
    if a != [] && b != [] {
      HeadsAgree(a, b);
      TailMembers(a, b);
      TailMembers(b, a);
      CheckOrderDetermines(a[1..], b[1..]);
      assert a == [a[0]] + a[1..] && b == [b[0]] + b[1..];
    }
  }

  /** The first reason is the one of least rank, so equal members give equal heads. */
  lemma HeadsAgree(a: seq<Reason>, b: seq<Reason>)
    requires InCheckOrder(a) && InCheckOrder(b) && a != [] && b != []
    requires forall r :: r in a <==> r in b
    ensures a[0] == b[0]
  {
    assert a[0] in b && b[0] in a;
    var j :| 0 <= j < |b| && b[j] == a[0];
    var k :| 0 <= k < |a| && a[k] == b[0];
  }

  lemma TailMembers(a: seq<Reason>, b: seq<Reason>)
    requires InCheckOrder(a) && InCheckOrder(b) && a != [] && b != [] && a[0] == b[0]
    requires forall r :: r in a <==> r in b
    ensures forall r :: r in a[1..] ==> r in b[1..]
  {
    forall r | r in a[1..]
      ensures r in b[1..]
    {
      var x :| 1 <= x < |a| && a[x] == r;
      assert a[0].Rank() < a[x].Rank();
      assert r in b;
      var y :| 0 <= y < |b| && b[y] == r;
      assert b[1..][y - 1] == r;
    }
  }

  /** The codes joined by `,` as the report's `Motivos` column. */
  function Motivos(reasons: seq<Reason>): string {
    Join(Map(reasons, (r: Reason) => r.Code()), ",")
  }

  /** The report's column can be split back into the reasons' codes. */
  lemma MotivosSplit(reasons: seq<Reason>)
    requires reasons != []
    ensures Split(Motivos(reasons), ',') == Map(reasons, (r: Reason) => r.Code())
  {
    var codes := Map(reasons, (r: Reason) => r.Code());
    forall k | 0 <= k < |codes|
      ensures ',' !in codes[k]
    {
      match reasons[k]
      case CnpjInvalido =>
      case RazaoSocialVazia =>
      case ValorInvalidoOuNaoPositivo =>
    }
    SplitJoin(codes, ',');
  }

  /** A row whose CNPJ failed, as written to the invalid-CNPJ report, with
      the reasons it failed for. */
  function ReportRow(row: Row, reasons: seq<Reason>): (r: Row)
    ensures Get(r, "Motivos") == Motivos(reasons)
    ensures forall k :: k in ReportColumns[..5] ==> Get(r, k) == Get(row, k)
    ensures r.Keys == set k | k in ReportColumns
  {
    map[
      "CNPJ" := Get(row, "CNPJ"),
      "RazaoSocial" := Get(row, "RazaoSocial"),
      "Ano" := Get(row, "Ano"),
      "Trimestre" := Get(row, "Trimestre"),
      "ValorDespesas" := Get(row, "ValorDespesas"),
      "Motivos" := Motivos(reasons)
    ]
  }

  /** The report's columns, in the order they are written. */
  const ReportColumns: seq<string> := ["CNPJ", "RazaoSocial", "Ano", "Trimestre", "ValorDespesas", "Motivos"]

  function InvalidCnpjRow(row: Row): Row {
    ReportRow(row, ValidateRow(row).reasons)
  }

  predicate IsValidRow(row: Row) {
    ValidateRow(row).isValid
  }

  predicate FailsCnpj(row: Row) {
    CnpjInvalido in ValidateRow(row).reasons
  }

  /** Rows that fail, but not on their CNPJ: they reach neither output. */
  predicate FailsOtherwise(row: Row) {
    !IsValidRow(row) && !FailsCnpj(row)
  }

  /** The rows a row check keeps, in order. */
  function KeptBy(rows: seq<Row>, validate: Row -> Outcome): (kept: seq<Row>)
    ensures |kept| <= |rows|
    decreases |rows|
  {
    if rows == [] then []
    else
      var n := |rows| - 1;
      KeptBy(rows[..n], validate) + (if validate(rows[n]).isValid then [rows[n]] else [])
  }

  /** The invalid-CNPJ report a row check produces, in row order. */
  function ReportBy(rows: seq<Row>, validate: Row -> Outcome): (report: seq<Row>)
    ensures |report| <= |rows|
    decreases |rows|
  {
    if rows == [] then []
    else
      var n := |rows| - 1;
      var o := validate(rows[n]);
      ReportBy(rows[..n], validate)
      + (if !o.isValid && CnpjInvalido in o.reasons then [ReportRow(rows[n], o.reasons)] else [])
  }

  /** The loop of the validation step, for a given row check: valid rows are
      kept unchanged and in order; a failing row is reported only when its
      CNPJ is among its failures. */
  method PartitionRows(rows: seq<Row>, validate: Row -> Outcome)
    returns (valid: seq<Row>, invalidCnpj: seq<Row>)
    ensures valid == KeptBy(rows, validate)
    ensures invalidCnpj == ReportBy(rows, validate)
  {
    valid := [];
    invalidCnpj := [];
    for i := 0 to |rows|
      invariant valid == KeptBy(rows[..i], validate)
      invariant invalidCnpj == ReportBy(rows[..i], validate)
    {
      var row := rows[i];
      var outcome := validate(row);
      var prefix := rows[..i + 1];
      assert prefix[..i] == rows[..i] && prefix[i] == row;
      if outcome.isValid {
        valid := valid + [row];
      } else if CnpjInvalido in outcome.reasons {
        invalidCnpj := invalidCnpj + [ReportRow(row, outcome.reasons)];
      }
    }
    assert rows[..|rows|] == rows;
  }

  /** The validation step: the kept rows are exactly the valid ones, in
      order, and the report holds exactly the rows whose CNPJ failed, each
      with every reason it failed for. */
  method ValidateRows(rows: seq<Row>) returns (valid: seq<Row>, invalidCnpj: seq<Row>)
    ensures valid == Filter(rows, IsValidRow)
    ensures invalidCnpj == Map(Filter(rows, FailsCnpj), InvalidCnpjRow)
  {
    valid, invalidCnpj := PartitionRows(rows, ValidateRow);
    PartitionAsFilters(rows, ValidateRow, IsValidRow, FailsCnpj, InvalidCnpjRow);
  }

  /** The loop's outputs are two filters: by the check's verdict, and by a
      CNPJ failure among its reasons. */
  lemma {:induction false} PartitionAsFilters(rows: seq<Row>, validate: Row -> Outcome,
      ok: Row -> bool, failsCnpj: Row -> bool, report: Row -> Row)
    requires forall r :: ok(r) == validate(r).isValid
    requires forall r :: failsCnpj(r) == (!validate(r).isValid && CnpjInvalido in validate(r).reasons)
    requires forall r :: report(r) == ReportRow(r, validate(r).reasons)
    ensures KeptBy(rows, validate) == Filter(rows, ok)
    ensures ReportBy(rows, validate) == Map(Filter(rows, failsCnpj), report)
    decreases |rows|
  {
    if rows != [] {
      var n := |rows| - 1;
      PartitionAsFilters(rows[..n], validate, ok, failsCnpj, report);
      assert rows[..n + 1] == rows;
      FilterSnoc(rows, n, ok);
      FilterSnoc(rows, n, failsCnpj);
      if failsCnpj(rows[n]) {
        MapSnoc(Filter(rows[..n], failsCnpj), rows[n], report);
      }
    }
  }

  /** Every input row lands in exactly one of three places: the valid rows,
      the invalid-CNPJ report, or nowhere (it failed only on name or amount). */
  lemma PartitionCounts(rows: seq<Row>)
    ensures |Filter(rows, IsValidRow)| + |Filter(rows, FailsCnpj)| + |Filter(rows, FailsOtherwise)| == |rows|
  {
    var notValid := (row: Row) => !IsValidRow(row);
    FilterComplement(rows, IsValidRow, notValid);
    FilterSplitsFailures(rows);
  }

  lemma {:induction false} FilterSplitsFailures(rows: seq<Row>)
    ensures |Filter(rows, FailsCnpj)| + |Filter(rows, FailsOtherwise)|
         == |Filter(rows, (row: Row) => !IsValidRow(row))|
  {
    if rows != [] {
      FilterSplitsFailures(rows[1..]);
    }
  }

  /** Every report row names the CNPJ failure first. */
  lemma ReportLeadsWithCnpj(row: Row)
    requires FailsCnpj(row)
    ensures ValidateRow(row).reasons[0] == CnpjInvalido
  {
  }
}
