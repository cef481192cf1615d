/** Teste 1's selection step: of the accounting lines of one quarter, only
    the claims-expense account ("Despesas com Eventos / Sinistros") with a
    positive closing balance is kept, reduced to the consolidated columns. */
module ExpenseFilter {
  import opened Wrappers
  import opened Text
  import opened Numbers
  import opened Rows
  import opened Seqs
  import opened Validator

  const TargetDescription: string := "DESPESAS COM EVENTOS / SINISTROS"

  /** A Brazilian-formatted amount read as a float: `None` for an empty
      text, for text `float()` rejects, and for amounts not above zero. The
      thousands points go, the decimal comma becomes a point, and only then
      is the surrounding whitespace stripped. */
  function ParseMonetaryValue(raw: string): (r: Option<real>)
    ensures r.Some? ==> r.value > 0.0
    ensures raw == [] ==> r == None
  {
    if raw == [] then None else Positive(ParseNumber(Strip(Normalise(raw))))
  }

  /** Normalising works character by character. */
  lemma NormaliseAppend(a: string, b: string)
    ensures Normalise(a + b) == Normalise(a) + Normalise(b)
  {
    RemoveAppend(a, b, '.');
    var ra, rb := Remove(a, '.'), Remove(b, '.');
    assert Replace(ra + rb, ',', '.') == Replace(ra, ',', '.') + Replace(rb, ',', '.');
  }

  /** Whitespace holds neither a point nor a comma, so normalising leaves it alone. */
  lemma NormaliseSpace(w: string)
    requires AllSpace(w)
    ensures Normalise(w) == w
  {
    forall i | 0 <= i < |w|
      ensures w[i] != '.' && w[i] != ','
    {
      assert IsSpace(w[i]);
    }
    assert '.' !in w;
    RemoveAbsent(w, '.');
    assert Replace(w, ',', '.') == w;
  }

  /** `float()` strips its argument itself, so stripping first changes nothing. */
  lemma ParseNumberStrips(s: string)
    ensures ParseNumber(Strip(s)) == ParseNumber(s)
  {
    StripIdempotent(s);
  }

  /** Whitespace around the amount survives normalising unchanged. */
  lemma NormalisePadded(w1: string, x: string, w2: string)
    requires AllSpace(w1) && AllSpace(w2)
    ensures Normalise(w1 + x + w2) == w1 + Normalise(x) + w2
  {
    NormaliseAppend(w1 + x, w2);
    NormaliseAppend(w1, x);
    NormaliseSpace(w1);
    NormaliseSpace(w2);
  }

  /** Whitespace around an amount does not change what `float()` reads after normalising. */
  lemma ParseNormalisedPadded(w1: string, x: string, w2: string)
    requires AllSpace(w1) && AllSpace(w2)
    ensures ParseNumber(Normalise(w1 + x + w2)) == ParseNumber(Normalise(x))
  {
    var padded := w1 + Normalise(x) + w2;
    calc {
      ParseNumber(Normalise(w1 + x + w2));
      { NormalisePadded(w1, x, w2); }
      ParseNumber(padded);
      { ParseNumberStrips(padded); }
      ParseNumber(Strip(padded));
      { StripPadded(w1, Normalise(x), w2); }
      ParseNumber(Strip(Normalise(x)));
      { ParseNumberStrips(Normalise(x)); }
      ParseNumber(Normalise(x));
    }
  }

  /** Normalising commutes with stripping, as far as `float()` can tell. */
  lemma ParseNormalisedStripped(raw: string)
    ensures ParseNumber(Normalise(raw)) == ParseNumber(Normalise(Strip(raw)))
  {
    var x := Strip(raw);
    StripDecompose(raw);
    var k :| 0 <= k <= |raw| - |x| && raw[k..k + |x|] == x
      && AllSpace(raw[..k]) && AllSpace(raw[k + |x|..]);
    var w1, w2 := raw[..k], raw[k + |x|..];
    assert raw == w1 + x + w2;
    ParseNormalisedPadded(w1, x, w2);
  }

  /** Teste 1 and the validator read amounts alike: stripping before or after
      normalising gives the same verdict and the same value. */
  lemma SameAsValidatorAmount(raw: string)
    ensures ParseMonetaryValue(raw) == ParsePositiveFloat(raw)
  {
    if raw != [] {
      ParseNumberStrips(Normalise(raw));
      ParseNormalisedStripped(raw);
      if Strip(raw) == [] {
        assert Normalise([]) == [];
        assert Strip([]) == [];
      }
    }
  }

  /** One line of the consolidated expenses file. */
  datatype ExpenseRecord = ExpenseRecord(
    cnpj: string,
    razaoSocial: string,
    ano: int,
    trimestre: int,
    valorDespesas: real)

  /** Whether an accounting line is the claims-expense account with a
      positive closing balance. The description is upper-cased but not
      stripped. */
  predicate IsExpenseRow(row: Row) {
    Upper(Get(row, "DESCRICAO")) == TargetDescription
    && ParseMonetaryValue(Get(row, "VL_SALDO_FINAL")).Some?
  }

  /** The closing balance of a kept line (zero stands in on lines the filter drops). */
  function Amount(row: Row): real {
    ParseMonetaryValue(Get(row, "VL_SALDO_FINAL")).GetOr(0.0)
  }

  /** The consolidated line for a kept accounting line of quarter `quarter` of `year`. */
  function RecordOf(row: Row, year: int, quarter: int): (e: ExpenseRecord)
    ensures e.ano == year && e.trimestre == quarter
    ensures e.cnpj == Strip(Get(row, "CNPJ")) && e.razaoSocial == Strip(Get(row, "RAZAO_SOCIAL"))
    ensures IsExpenseRow(row) ==> Some(e.valorDespesas) == ParseMonetaryValue(Get(row, "VL_SALDO_FINAL"))
  {
    ExpenseRecord(Strip(Get(row, "CNPJ")), Strip(Get(row, "RAZAO_SOCIAL")), year, quarter, Amount(row))
  }

  /** The per-line decision of the loop: the record, or nothing. */
  function Select(row: Row, year: int, quarter: int): (r: Option<ExpenseRecord>)
    ensures r.Some? <==> IsExpenseRow(row)
    ensures r.Some? ==> r.value.valorDespesas == Amount(row)
  {
    if Upper(Get(row, "DESCRICAO")) != TargetDescription then None
    else
      match ParseMonetaryValue(Get(row, "VL_SALDO_FINAL"))
      case None => None
      case Some(v) => Some(ExpenseRecord(Strip(Get(row, "CNPJ")), Strip(Get(row, "RAZAO_SOCIAL")), year, quarter, v))
  }

  /** The loop over the lines, appending what `pick` yields and skipping the rest. */
  method PickRows(rows: seq<Row>, pick: Row -> Option<ExpenseRecord>) returns (out: seq<ExpenseRecord>)
    ensures out == FilterMap(rows, pick)
  {
    out := [];
    for i := 0 to |rows|
      invariant out == FilterMap(rows[..i], pick)
    {
      assert rows[..i + 1][..i] == rows[..i];
      match pick(rows[i])
      case Some(e) => out := out + [e];
      case None =>
    }
    assert rows[..|rows|] == rows;
  }

  /** The selection step: exactly the claims-expense lines with a positive
      balance, in input order, each reduced to its record for the quarter. */
  method FilterExpenseRows(rows: seq<Row>, year: int, quarter: int) returns (out: seq<ExpenseRecord>)
    ensures out == Map(Filter(rows, IsExpenseRow), (r: Row) => RecordOf(r, year, quarter))
  {
    var pick := (r: Row) => Select(r, year, quarter);
    out := PickRows(rows, pick);
    var rec := (r: Row) => RecordOf(r, year, quarter);
    forall r: Row
      ensures pick(r) == if IsExpenseRow(r) then Some(rec(r)) else None
    {
      SelectIsRecord(r, year, quarter);
    }
    FilterMapAsFilter(rows, pick, IsExpenseRow, rec);
  }

  lemma SelectIsRecord(row: Row, year: int, quarter: int)
    ensures Select(row, year, quarter) == if IsExpenseRow(row) then Some(RecordOf(row, year, quarter)) else None
  {
  }

  /** Every record the step writes carries the quarter it was asked for, a
      positive amount read from its line, and stripped identifiers. */
  lemma FilteredRecords(rows: seq<Row>, year: int, quarter: int)
    ensures var kept := Filter(rows, IsExpenseRow);
      var out := Map(kept, (r: Row) => RecordOf(r, year, quarter));
      |out| <= |rows|
      && forall i :: 0 <= i < |out| ==>
           out[i].ano == year && out[i].trimestre == quarter
           && Some(out[i].valorDespesas) == ParseMonetaryValue(Get(kept[i], "VL_SALDO_FINAL"))
           && out[i].valorDespesas > 0.0
           && IsStripped(out[i].cnpj) && IsStripped(out[i].razaoSocial)
  {
    var kept := Filter(rows, IsExpenseRow);
    var out := Map(kept, (r: Row) => RecordOf(r, year, quarter));
    forall i | 0 <= i < |out|
      ensures Some(out[i].valorDespesas) == ParseMonetaryValue(Get(kept[i], "VL_SALDO_FINAL"))
      ensures out[i].valorDespesas > 0.0
      ensures IsStripped(out[i].cnpj) && IsStripped(out[i].razaoSocial)
    {
      assert IsExpenseRow(kept[i]);
      StripSpec(Get(kept[i], "CNPJ"));
      StripSpec(Get(kept[i], "RAZAO_SOCIAL"));
    }
  }

  /** The description must match the account name exactly apart from letter
      case: surrounding spaces make a line miss. */
  lemma PaddedDescriptionMisses(row: Row)
    requires |Get(row, "DESCRICAO")| > 0 && IsSpace(Get(row, "DESCRICAO")[0])
    ensures !IsExpenseRow(row)
  {
    var d := Get(row, "DESCRICAO");
    assert Upper(d)[0] == d[0];
  }

  /** A description that spells the account name in any mix of letter
      cases, and nothing else, matches; every other description misses. */
  lemma DescriptionMatchIgnoresCase(d: string)
    ensures Upper(d) == TargetDescription
        <==> |d| == |TargetDescription|
             && forall i :: 0 <= i < |d| ==>
                  d[i] == TargetDescription[i]
                  || (IsLower(d[i]) && d[i] as int - 'a' as int == TargetDescription[i] as int - 'A' as int)
  {
    var t := TargetDescription;
    assert forall i :: 0 <= i < |t| ==> !IsLower(t[i]);
    if Upper(d) == t {
      forall i | 0 <= i < |d|
        ensures d[i] == t[i] || (IsLower(d[i]) && d[i] as int - 'a' as int == t[i] as int - 'A' as int)
      {
        assert Upper(d)[i] == t[i];
      }
    }
  }
}
