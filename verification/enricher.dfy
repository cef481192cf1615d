/** The registry (CADOP) index and the left-outer join that enriches the
    consolidated expenses with each operator's registration data. */
module Enricher {
  import opened Wrappers
  import opened Text
  import opened Numbers
  import opened Rows
  import opened Seqs

  /** Placeholder written when the registry has nothing to offer. */
  const Unknown: string := "Desconhecido"

  // ---------------------------------------------------------------------------
  // Headers and registry rows
  // ---------------------------------------------------------------------------

  /** Column names compare trimmed and upper-cased; a missing name is "". */
  function NormalizeHeader(text: string): (r: string)
    ensures |r| <= |text|
    ensures forall i :: 0 <= i < |r| ==> !IsLower(r[i])
    ensures r == [] <==> AllSpace(text)
    ensures IsStripped(r)
    ensures |r| == |Strip(text)|
    ensures forall i :: 0 <= i < |r| && !IsLower(Strip(text)[i]) ==> r[i] == Strip(text)[i]
    ensures forall i :: 0 <= i < |r| && IsLower(Strip(text)[i]) ==>
      r[i] as int - 'A' as int == Strip(text)[i] as int - 'a' as int
  {
    StripSpec(text);
    Upper(Strip(text))
  }

  /** Upper-casing touches neither end's whitespace status, so normalising twice changes nothing. */
  lemma NormalizeHeaderIdempotent(text: string)
    ensures NormalizeHeader(NormalizeHeader(text)) == NormalizeHeader(text)
  {
    var r := NormalizeHeader(text);
    StripFixpoint(r);
    UpperIdempotent(Strip(text));
  }

  /** The stripped values of the first `width` columns; a short line leaves
      its missing cells empty, and cells beyond the header are ignored. */
  function StrippedCells(width: nat, values: seq<string>): (cells: seq<string>)
    ensures |cells| == width
    ensures forall i :: 0 <= i < width ==> cells[i] == Strip(if i < |values| then values[i] else "")
    ensures forall i :: 0 <= i < width ==> IsStripped(cells[i])
  {
    var cells := seq(width, i requires 0 <= i < width => StripCell(if i < |values| then values[i] else ""));
    assert forall i :: 0 <= i < width ==> cells[i] == StripCell(if i < |values| then values[i] else "");
    cells
  }

  function StripCell(value: string): (r: string)
    ensures r == Strip(value) && IsStripped(r)
  {
    StripSpec(value);
    Strip(value)
  }

  /** Column `i`'s cell under column `i`'s name, left to right, so that the
      later of two equal names wins. */
  function BuildRow(names: seq<string>, cells: seq<string>): (row: Row)
    requires |names| <= |cells|
    ensures row.Keys == set k | k in names
    ensures forall k :: k in row ==> exists i :: 0 <= i < |names| && row[k] == cells[i]
    decreases |names|
  {
    if names == [] then map[]
    else
      var n := |names| - 1;
      var front := BuildRow(names[..n], cells);
      assert names == names[..n] + [names[n]];
      front[names[n] := cells[n]]
  }

  /** A cell lands under its name unless a later column has the same name. */
  lemma {:induction false} BuildRowLastWins(names: seq<string>, cells: seq<string>, i: nat)
    requires |names| <= |cells| && i < |names|
    requires forall j :: i < j < |names| ==> names[j] != names[i]
    ensures BuildRow(names, cells)[names[i]] == cells[i]
    decreases |names|
  {
    var n := |names| - 1;
    if i < n {
      var prefix := names[..n];
      assert prefix[i] == names[i];
      BuildRowLastWins(prefix, cells, i);
    }
  }

  /** One registry line as a row keyed by the normalised header names, every
      value stripped. */
  function NormalizeRow(names: seq<string>, values: seq<string>): (row: Row)
    ensures row.Keys == set k | k in names
    ensures forall k :: k in row ==> IsStripped(row[k])
  {
    BuildRow(names, StrippedCells(|names|, values))
  }

  // ---------------------------------------------------------------------------
  // CNPJ canonicalisation
  // ---------------------------------------------------------------------------

  /** The registry's CNPJ text as 14 digits. Text that already holds exactly
      14 digits gives them; otherwise the text, with `,` read as a decimal
      point, is taken as a number (the registry exports some CNPJs as
      `1,95419E+13`), rounded half-up and zero-filled to 14 places; text that
      is not a number gives its digits zero-filled, and blank text "". */
  function ParseCnpj(raw: string): (r: string)
    ensures Strip(raw) == [] ==> r == ""
    ensures |OnlyDigits(Strip(raw))| == 14 ==> r == OnlyDigits(Strip(raw))
    ensures r == [] || |r| >= 14
    ensures Strip(raw) != [] && |OnlyDigits(Strip(raw))| != 14 ==>
      match ParseNumber(Replace(Strip(raw), ',', '.'))
      case Some(v) =>
        (v >= 0.0 && !ExceedsStrDigits(RoundHalfUp(v)) ==>
           AllDigits(r) && DigitsValue(r) == RoundHalfUp(v)
           && (RoundHalfUp(v) < Pow10(14) ==> |r| == 14)
           && (|r| > 14 ==> r[0] != '0'))
        && (ExceedsStrDigits(RoundHalfUp(v)) ==> r == DigitsOrBlank(Strip(raw)))
      case None => r == DigitsOrBlank(Strip(raw))
  {
    var text := Strip(raw);
    if text == [] then ""
    else
      var digits := OnlyDigits(text);
      if |digits| == 14 then digits
      else
        match ParseNumber(Replace(text, ',', '.'))
        case Some(v) =>
          var n := RoundHalfUp(v);
          if ExceedsStrDigits(n) then DigitsOrBlank(text)
          else if n >= 0 && n < Pow10(14) then NatToStringShort(n, 14); ZFill(IntToString(n), 14)
          else ZFill(IntToString(n), 14)
        case None => DigitsOrBlank(text)
  }

  /** The fallback when the text is not a number `str()` can write: its
      digits zero-filled to 14 places, or "" when it has none. */
  function DigitsOrBlank(text: string): (r: string)
    ensures r == [] <==> OnlyDigits(text) == []
    ensures r != [] ==> |r| >= 14 && AllDigits(r) && DigitsValue(r) == DigitsValue(OnlyDigits(text))
  {
    if OnlyDigits(text) == [] then "" else ZFill(OnlyDigits(text), 14)
  }

  /** A canonical CNPJ reads back as itself. */
  lemma ParseCnpjCanonical(digits: string)
    requires AllDigits(digits) && |digits| == 14
    ensures ParseCnpj(digits) == digits
  {
    StripFixpoint(digits);
    OnlyDigitsOfDigits(digits);
  }

  // ---------------------------------------------------------------------------
  // The registry index
  // ---------------------------------------------------------------------------

  /** What the index keeps of a registry line. */
  datatype Registration = Registration(
    cnpj: string,
    razaoSocial: string,
    modalidade: string,
    uf: string,
    registroAns: string)

  /** The line's registration number, stripped. */
  function Registro(row: Row): string {
    Strip(Get(row, "REGISTRO_OPERADORA"))
  }

  function Entry(row: Row): (e: Registration)
    ensures e.registroAns == Registro(row)
    ensures e.cnpj == ParseCnpj(Get(row, "CNPJ"))
    ensures e.razaoSocial == Strip(Get(row, "RAZAO_SOCIAL"))
    ensures e.modalidade == Strip(Get(row, "MODALIDADE"))
    ensures e.uf == Strip(Get(row, "UF"))
  {
    Registration(
      ParseCnpj(Get(row, "CNPJ")),
      Strip(Get(row, "RAZAO_SOCIAL")),
      Strip(Get(row, "MODALIDADE")),
      Strip(Get(row, "UF")),
      Registro(row))
  }

  /** A map from the keyed values in order, skipping blank keys; the first
      value under a key wins and later ones are ignored. */
  function FirstWinsMap<V>(keys: seq<string>, vals: seq<V>): (m: map<string, V>)
    requires |keys| == |vals|
    ensures forall k :: k in m <==> k != [] && k in keys
    decreases |keys|
  {
    if keys == [] then map[]
    else
      var n := |keys| - 1;
      var m := FirstWinsMap(keys[..n], vals[..n]);
      assert keys == keys[..n] + [keys[n]];
      assert forall i :: 0 <= i < n ==> keys[..n][i] == keys[i] && vals[..n][i] == vals[i];
      if keys[n] == [] || keys[n] in m then m else m[keys[n] := vals[n]]
  }

  /** One more keyed value: the step of the loading loop. */
  lemma FirstWinsMapSnoc<V>(keys: seq<string>, vals: seq<V>, i: nat)
    requires |keys| == |vals| && i < |keys|
    ensures var m := FirstWinsMap(keys[..i], vals[..i]);
      FirstWinsMap(keys[..i + 1], vals[..i + 1])
      == if keys[i] == [] || keys[i] in m then m else m[keys[i] := vals[i]]
  {
    assert keys[..i + 1][..i] == keys[..i] && vals[..i + 1][..i] == vals[..i];
  }

  /** Every value in the map came with its key. */
  lemma {:induction false} FirstWinsMapSource<V>(keys: seq<string>, vals: seq<V>, k: string)
    requires |keys| == |vals| && k in FirstWinsMap(keys, vals)
    ensures exists i :: 0 <= i < |keys| && keys[i] == k && FirstWinsMap(keys, vals)[k] == vals[i]
    decreases |keys|
  {
    var n := |keys| - 1;
    var front := FirstWinsMap(keys[..n], vals[..n]);
    if k in front {
      FirstWinsMapSource(keys[..n], vals[..n], k);
      var i :| 0 <= i < n && keys[..n][i] == k && front[k] == vals[..n][i];
      assert keys[i] == k && vals[i] == vals[..n][i];
    } else {
      assert keys[n] == k;
    }
  }

  /** The value under a key is the one that came with its first occurrence. */
  lemma {:induction false} FirstOccurrenceWins<V>(keys: seq<string>, vals: seq<V>, i: nat)
    requires |keys| == |vals| && i < |keys| && keys[i] != []
    requires forall j :: 0 <= j < i ==> keys[j] != keys[i]
    ensures FirstWinsMap(keys, vals)[keys[i]] == vals[i]
    decreases |keys|
  {
    var n := |keys| - 1;
    var front := FirstWinsMap(keys[..n], vals[..n]);
    if i == n {
      assert keys[n] !in keys[..n];
    } else {
      assert forall j :: 0 <= j <= i ==> keys[..n][j] == keys[j];
      assert vals[..n][i] == vals[i];
      FirstOccurrenceWins(keys[..n], vals[..n], i);
    }
  }

  /** Appending more keyed values never changes an entry already present. */
  lemma {:induction false} LaterValuesIgnored<V>(keys: seq<string>, vals: seq<V>, moreKeys: seq<string>, moreVals: seq<V>, k: string)
    requires |keys| == |vals| && |moreKeys| == |moreVals|
    requires k in FirstWinsMap(keys, vals)
    ensures k in FirstWinsMap(keys + moreKeys, vals + moreVals)
    ensures FirstWinsMap(keys + moreKeys, vals + moreVals)[k] == FirstWinsMap(keys, vals)[k]
    decreases |moreKeys|
  {
    if moreKeys == [] {
      assert keys + moreKeys == keys && vals + moreVals == vals;
    } else {
      var n := |moreKeys| - 1;
      var allKeys, allVals := keys + moreKeys, vals + moreVals;
      var last := |allKeys| - 1;
      LaterValuesIgnored(keys, vals, moreKeys[..n], moreVals[..n], k);
      assert allKeys[..last] == keys + moreKeys[..n];
      assert allVals[..last] == vals + moreVals[..n];
      FirstWinsMapSnoc(allKeys, allVals, last);
      assert allKeys[..last + 1] == allKeys && allVals[..last + 1] == allVals;
    }
  }

  /** The registration numbers of `rows`, in order. */
  function Registros(rows: seq<Row>): (regs: seq<string>)
    ensures |regs| == |rows|
    ensures forall i :: 0 <= i < |rows| ==> regs[i] == Registro(rows[i])
  {
    Map(rows, Registro)
  }

  function Entries(rows: seq<Row>): (es: seq<Registration>)
    ensures |es| == |rows|
    ensures forall i :: 0 <= i < |rows| ==> es[i] == Entry(rows[i])
  {
    Map(rows, Entry)
  }

  /** The index over normalised registry rows: lines without a registration
      number are skipped, the first line with a given number wins, and every
      entry records the number it is filed under. */
  function CadopMap(rows: seq<Row>): (m: map<string, Registration>)
    ensures forall k :: k in m <==> k != [] && k in Registros(rows)
    ensures forall k :: k in m ==> m[k].registroAns == k
  {
    var keys := Registros(rows);
    var m := FirstWinsMap(keys, Entries(rows));
    assert forall k :: k in m ==> m[k].registroAns == k by {
      forall k | k in m
        ensures m[k].registroAns == k
      {
        FirstWinsMapSource(keys, Entries(rows), k);
        var i :| 0 <= i < |keys| && keys[i] == k && m[k] == Entries(rows)[i];
      }
    }
    m
  }

  /** First wins: the entry for a number is built from the first line carrying it. */
  lemma FirstWins(rows: seq<Row>, i: nat)
    requires i < |rows| && Registro(rows[i]) != []
    requires forall j :: 0 <= j < i ==> Registro(rows[j]) != Registro(rows[i])
    ensures CadopMap(rows)[Registro(rows[i])] == Entry(rows[i])
  {
    FirstOccurrenceWins(Registros(rows), Entries(rows), i);
  }

  /** Later lines never change an entry already in the index. */
  lemma LaterRowsKeepEntries(rows: seq<Row>, more: seq<Row>, k: string)
    requires k in CadopMap(rows)
    ensures k in CadopMap(rows + more) && CadopMap(rows + more)[k] == CadopMap(rows)[k]
  {
    MapAppend(rows, more, Registro);
    MapAppend(rows, more, Entry);
    LaterValuesIgnored(Registros(rows), Entries(rows), Registros(more), Entries(more), k);
  }

  function NormalizeHeaders(headers: seq<string>): (names: seq<string>)
    ensures |names| == |headers|
    ensures forall i :: 0 <= i < |headers| ==> names[i] == NormalizeHeader(headers[i])
  {
    seq(|headers|, i requires 0 <= i < |headers| => NormalizeHeader(headers[i]))
  }

  function NormalizeLines(names: seq<string>, lines: seq<seq<string>>): (rows: seq<Row>)
    ensures |rows| == |lines|
    ensures forall i :: 0 <= i < |lines| ==> rows[i] == NormalizeRow(names, lines[i])
  {
    seq(|lines|, i requires 0 <= i < |lines| => NormalizeRow(names, lines[i]))
  }

  /** The loading loop over the registry file: each line is normalised
      against the header, then indexed. */
  method LoadCadopMap(headers: seq<string>, lines: seq<seq<string>>) returns (m: map<string, Registration>)
    ensures m == CadopMap(NormalizeLines(NormalizeHeaders(headers), lines))
  {
    var names := NormalizeHeaders(headers);
    var rows := NormalizeLines(names, lines);
    var keys := Registros(rows);
    var vals := Entries(rows);
    m := map[];
    for i := 0 to |lines|
      invariant m == FirstWinsMap(keys[..i], vals[..i])
    {
      var row := NormalizeRow(names, lines[i]);
      var registro := Registro(row);
      assert keys[i] == registro && vals[i] == Entry(row);
      FirstWinsMapSnoc(keys, vals, i);
      if registro == [] {
        continue;
      }
      if registro in m {
        continue;
      }
      m := m[registro := Entry(row)];
    }
    assert keys[..|lines|] == keys && vals[..|lines|] == vals;
  }

  // ---------------------------------------------------------------------------
  // The join
  // ---------------------------------------------------------------------------

  function OrUnknown(value: string): (r: string)
    ensures r != []
    ensures value != [] ==> r == value
    ensures value == [] ==> r == "Desconhecido"
  {
    if value == [] then Unknown else value
  }

  /** A row of the no-match report. */
  datatype NoMatch = NoMatch(regAns: string, ano: string, trimestre: string)

  datatype Joined = Joined(row: Row, miss: Option<NoMatch>)

  /** The columns the join adds, and those it may write. */
  const Added: set<string> := {"RegistroANS", "Modalidade", "UF"}
  const Touched: set<string> := {"CNPJ", "RazaoSocial", "RegistroANS", "Modalidade", "UF"}

  /** The stripped `REG_ANS` a consolidated row is joined on. */
  function RegAns(row: Row): string {
    Strip(Get(row, "REG_ANS"))
  }

  /** A blank column (`not value.strip()`) takes `value`; anything else is kept. */
  function Backfill(row: Row, key: string, value: string): (r: Row)
    ensures Get(r, key) == if AllSpace(Get(row, key)) then value else Get(row, key)
    ensures forall k :: k != key ==> (k in r <==> k in row)
    ensures forall k :: k in row && k != key ==> r[k] == row[k]
    ensures row.Keys <= r.Keys <= row.Keys + {key}
  {
    if AllSpace(Get(row, key)) then row[key := value] else row
  }

  function HitRow(row: Row, e: Registration): (r: Row)
    ensures forall k :: k in row && k !in Touched ==> k in r && r[k] == row[k]
    ensures row.Keys + Added <= r.Keys <= row.Keys + Touched
  {
    var filled := Backfill(Backfill(row, "CNPJ", e.cnpj), "RazaoSocial", e.razaoSocial);
    filled["RegistroANS" := OrUnknown(e.registroAns)]
          ["Modalidade" := OrUnknown(e.modalidade)]
          ["UF" := OrUnknown(e.uf)]
  }

  function MissRow(row: Row): (r: Row)
    ensures forall k :: k in row && k !in Added ==> k in r && r[k] == row[k]
    ensures r.Keys == row.Keys + Added
  {
    row["RegistroANS" := Unknown]["Modalidade" := Unknown]["UF" := Unknown]
  }

  function MissOf(row: Row): NoMatch {
    NoMatch(RegAns(row), Strip(Get(row, "Ano")), Strip(Get(row, "Trimestre")))
  }

  /** Enriches one consolidated row: a hit when its stripped `REG_ANS` is in
      the index, a miss (reported) otherwise. Only the five join columns can
      change, and the three added ones always end up non-empty. */
  function EnrichRow(row: Row, index: map<string, Registration>): (j: Joined)
    ensures j.miss.None? <==> RegAns(row) in index
    ensures j.miss.Some? ==> j.miss.value == MissOf(row)
  {
    if RegAns(row) in index then Joined(HitRow(row, index[RegAns(row)]), None)
    else Joined(MissRow(row), Some(MissOf(row)))
  }

  /** Only the five join columns can change, and the three added ones are
      always present afterwards. */
  lemma EnrichKeepsOtherColumns(row: Row, index: map<string, Registration>)
    ensures var out := EnrichRow(row, index).row;
      (forall k :: k in row && k !in Touched ==> k in out && out[k] == row[k])
      && row.Keys + Added <= out.Keys <= row.Keys + Touched
  {
  }

  /** On a hit: a non-blank CNPJ or RazaoSocial is kept, a blank one takes the
      registry's value, and the three added columns take the registry's values
      or the placeholder. */
  lemma EnrichHit(row: Row, index: map<string, Registration>)
    requires RegAns(row) in index
    ensures var e := index[RegAns(row)];
      var out := EnrichRow(row, index).row;
      Get(out, "CNPJ") == (if AllSpace(Get(row, "CNPJ")) then e.cnpj else Get(row, "CNPJ"))
      && Get(out, "RazaoSocial") == (if AllSpace(Get(row, "RazaoSocial")) then e.razaoSocial else Get(row, "RazaoSocial"))
      && Get(out, "RegistroANS") == OrUnknown(e.registroAns)
      && Get(out, "Modalidade") == OrUnknown(e.modalidade)
      && Get(out, "UF") == OrUnknown(e.uf)
  {
    var e := index[RegAns(row)];
    var once := Backfill(row, "CNPJ", e.cnpj);
    assert Get(once, "RazaoSocial") == Get(row, "RazaoSocial");
  }

  /** On a miss: CNPJ and RazaoSocial are untouched and the three added
      columns all read "Desconhecido". */
  lemma EnrichMiss(row: Row, index: map<string, Registration>)
    requires RegAns(row) !in index
    ensures var out := EnrichRow(row, index).row;
      Get(out, "CNPJ") == Get(row, "CNPJ")
      && Get(out, "RazaoSocial") == Get(row, "RazaoSocial")
      && Get(out, "RegistroANS") == Unknown
      && Get(out, "Modalidade") == Unknown
      && Get(out, "UF") == Unknown
  {
  }

  /** A row without a `REG_ANS` value never finds a registration in an index
      built by `CadopMap`, whose keys are never blank. The consolidated file
      of the first stage has no such column, so there every row misses. */
  lemma BlankKeyMisses(row: Row, rows: seq<Row>)
    requires AllSpace(Get(row, "REG_ANS"))
    ensures EnrichRow(row, CadopMap(rows)).miss == Some(MissOf(row))
  {
    StripSpec(Get(row, "REG_ANS"));
    assert RegAns(row) == [];
  }

  /** The no-match report for `rows`, in row order. */
  function Misses(rows: seq<Row>, index: map<string, Registration>): (ms: seq<NoMatch>)
    ensures |ms| <= |rows|
    decreases |rows|
  {
    if rows == [] then []
    else
      var n := |rows| - 1;
      Misses(rows[..n], index) + (if RegAns(rows[n]) in index then [] else [MissOf(rows[n])])
  }

  /** How many of `rows` find their registration. */
  function HitCount(rows: seq<Row>, index: map<string, Registration>): (c: nat)
    ensures c <= |rows|
    decreases |rows|
  {
    if rows == [] then 0
    else
      var n := |rows| - 1;
      HitCount(rows[..n], index) + (if RegAns(rows[n]) in index then 1 else 0)
  }

  /** Every row is counted as a hit or reported as a miss, never both. */
  lemma {:induction false} HitsAndMissesCover(rows: seq<Row>, index: map<string, Registration>)
    ensures HitCount(rows, index) + |Misses(rows, index)| == |rows|
    decreases |rows|
  {
    if rows != [] {
      HitsAndMissesCover(rows[..|rows| - 1], index);
    }
  }

  /** The misses a per-row join reports, in row order. */
  function MissesBy(rows: seq<Row>, enrich: Row -> Joined): (ms: seq<NoMatch>)
    ensures |ms| <= |rows|
    decreases |rows|
  {
    if rows == [] then []
    else
      var n := |rows| - 1;
      var j := enrich(rows[n]);
      MissesBy(rows[..n], enrich) + (if j.miss.Some? then [j.miss.value] else [])
  }

  /** How many rows a per-row join finds. */
  function HitsBy(rows: seq<Row>, enrich: Row -> Joined): (c: nat)
    ensures c <= |rows|
    decreases |rows|
  {
    if rows == [] then 0
    else
      var n := |rows| - 1;
      HitsBy(rows[..n], enrich) + (if enrich(rows[n]).miss.None? then 1 else 0)
  }

  /** The join loop, for a given per-row join: one output row per input row,
      in order; the misses reported in order; a hit or a miss counted for
      every row. */
  method JoinRows(rows: seq<Row>, enrich: Row -> Joined)
    returns (out: seq<Row>, noMatch: seq<NoMatch>, matchCount: nat, noMatchCount: nat)
    ensures |out| == |rows|
    ensures forall i :: 0 <= i < |rows| ==> out[i] == enrich(rows[i]).row
    ensures noMatch == MissesBy(rows, enrich)
    ensures matchCount == HitsBy(rows, enrich)
    ensures noMatchCount == |noMatch|
  {
    out := [];
    noMatch := [];
    matchCount := 0;
    noMatchCount := 0;
    for i := 0 to |rows|
      invariant |out| == i
      invariant forall k :: 0 <= k < i ==> out[k] == enrich(rows[k]).row
      invariant noMatch == MissesBy(rows[..i], enrich)
      invariant matchCount == HitsBy(rows[..i], enrich)
      invariant noMatchCount == |noMatch|
    {
      var prefix := rows[..i + 1];
      assert prefix[..i] == rows[..i] && prefix[i] == rows[i];
      var joined := enrich(rows[i]);
      if joined.miss.None? {
        matchCount := matchCount + 1;
      } else {
        noMatch := noMatch + [joined.miss.value];
        noMatchCount := noMatchCount + 1;
      }
      out := out + [joined.row];
    }
    assert rows[..|rows|] == rows;
  }

  /** With the registry join, the generic counts are the hits and misses on `REG_ANS`. */
  lemma {:induction false} JoinByIndex(rows: seq<Row>, index: map<string, Registration>, enrich: Row -> Joined)
    requires forall r :: enrich(r) == EnrichRow(r, index)
    ensures MissesBy(rows, enrich) == Misses(rows, index)
    ensures HitsBy(rows, enrich) == HitCount(rows, index)
    decreases |rows|
  {
    if rows != [] {
      JoinByIndex(rows[..|rows| - 1], index, enrich);
    }
  }

  /** `enrich_consolidated`: one enriched row per consolidated row, in order;
      the no-match report lists the misses in order; hits and misses add up
      to the number of rows. */
  method EnrichConsolidated(rows: seq<Row>, index: map<string, Registration>)
    returns (out: seq<Row>, noMatch: seq<NoMatch>, matchCount: nat, noMatchCount: nat)
    ensures |out| == |rows|
    ensures forall i :: 0 <= i < |rows| ==> out[i] == EnrichRow(rows[i], index).row
    ensures noMatch == Misses(rows, index)
    ensures matchCount == HitCount(rows, index)
    ensures noMatchCount == |noMatch|
    ensures matchCount + noMatchCount == |rows|
  {
    var enrich := (r: Row) => EnrichRow(r, index);
    out, noMatch, matchCount, noMatchCount := JoinRows(rows, enrich);
    JoinByIndex(rows, index, enrich);
    HitsAndMissesCover(rows, index);
  }

  /** The output header: the input's columns, then whichever of RegistroANS,
      Modalidade and UF it lacks, in that order. */
  function OutputFields(inputFields: seq<string>): (fields: seq<string>)
    ensures |inputFields| <= |fields| <= |inputFields| + 3
    ensures fields[..|inputFields|] == inputFields
    ensures forall c :: c in ["RegistroANS", "Modalidade", "UF"] ==> c in fields
    ensures forall c :: c in fields ==> c in inputFields || c in ["RegistroANS", "Modalidade", "UF"]
    ensures Distinct(inputFields) ==> Distinct(fields)
    ensures fields == inputFields + Lacking(inputFields, ["RegistroANS", "Modalidade", "UF"])
  {
    AppendMissingOrder(inputFields, ["RegistroANS", "Modalidade", "UF"]);
    AppendMissing(inputFields, ["RegistroANS", "Modalidade", "UF"])
  }

  /** The members of `extra` that `fields` lacks, in `extra`'s order. */
  function Lacking(fields: seq<string>, extra: seq<string>): seq<string> {
    if extra == [] then []
    else (if extra[0] in fields then [] else [extra[0]]) + Lacking(fields, extra[1..])
  }

  /** Adding a name that `extra` does not hold changes nothing it lacks. */
  lemma {:induction false} LackingExtend(fields: seq<string>, x: string, extra: seq<string>)
    requires x !in extra
    ensures Lacking(fields + [x], extra) == Lacking(fields, extra)
  {
    if extra != [] {
      assert extra[0] in fields + [x] <==> extra[0] in fields;
      LackingExtend(fields, x, extra[1..]);
    }
  }

  /** Appending the missing columns one by one keeps their order. */
  lemma {:induction false} AppendMissingOrder(fields: seq<string>, extra: seq<string>)
    requires Distinct(extra)
    ensures AppendMissing(fields, extra) == fields + Lacking(fields, extra)
    decreases |extra|
  {
    if extra != [] {
      var x := extra[0];
      assert Distinct(extra[1..]) by {
        forall i, j | 0 <= i < j < |extra[1..]| ensures extra[1..][i] != extra[1..][j] {
          assert extra[1..][i] == extra[i + 1] && extra[1..][j] == extra[j + 1];
        }
      }
      if x in fields {
        AppendMissingOrder(fields, extra[1..]);
      } else {
        assert x !in extra[1..] by {
          forall i | 0 <= i < |extra[1..]| ensures extra[1..][i] != x {
            assert extra[1..][i] == extra[i + 1];
          }
        }
        AppendMissingOrder(fields + [x], extra[1..]);
        LackingExtend(fields, x, extra[1..]);
      }
    }
  }

  /** Appends each of `extra` not yet present, left to right. */
  function AppendMissing(fields: seq<string>, extra: seq<string>): (r: seq<string>)
    ensures |fields| <= |r| <= |fields| + |extra|
    ensures r[..|fields|] == fields
    ensures forall c :: c in extra ==> c in r
    ensures forall c :: c in r ==> c in fields || c in extra
    ensures Distinct(fields) ==> Distinct(r)
    decreases |extra|
  {
    if extra == [] then fields
    else
      var next := if extra[0] in fields then fields else fields + [extra[0]];
      var r := AppendMissing(next, extra[1..]);
      assert r[..|fields|] == next[..|fields|];
      assert extra[0] in r by {
        assert r[..|next|] == next;
        assert extra[0] in next;
      }
      assert forall c :: c in extra ==> c == extra[0] || c in extra[1..];
      r
  }
}
