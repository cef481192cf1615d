/** Teste 2's aggregation: validated expense rows are grouped by operator
    (RazaoSocial, UF), summed per quarter (Ano, Trimestre), summarised by
    total, mean and spread over the quarters, and ranked by total. */
module Aggregator {
  import opened Wrappers
  import opened Text
  import opened Rows
  import opened Seqs
  import opened Dicts
  import opened Sorting
  import opened Numbers
  import opened Statistics
  import opened Validator

  /** The UF written for a row whose UF is missing or blank. */
  const Unknown: string := "Desconhecido"

  datatype GroupKey = GroupKey(razaoSocial: string, uf: string)
  datatype QuarterKey = QuarterKey(ano: string, trimestre: string)

  /** An accepted row: its group, its quarter and its positive amount. */
  datatype Entry = Entry(group: GroupKey, quarter: QuarterKey, valor: real)

  // ---------------------------------------------------------------------------
  // Reading rows
  // ---------------------------------------------------------------------------

  /** The row's UF, stripped, with `Desconhecido` in place of a missing or blank one. */
  function UfOf(row: Row): (uf: string)
    ensures uf != []
  {
    var u := Strip(Rows.GetOr(row, "UF", Unknown));
    if u == [] then Unknown else u
  }

  /** A missing UF and a present but blank one are treated alike. */
  lemma UfDefault(row: Row)
    ensures UfOf(row) == if Strip(Get(row, "UF")) == [] then Unknown else Strip(Get(row, "UF"))
  {
    assert IsStripped(Unknown);
    StripFixpoint(Unknown);
  }

  /** A row counts when its RazaoSocial, Ano and Trimestre are not blank and
      its amount is positive; every key part is stripped. */
  function EntryOf(row: Row): (r: Option<Entry>)
    ensures r.Some? <==>
      Strip(Get(row, "RazaoSocial")) != [] && Strip(Get(row, "Ano")) != []
      && Strip(Get(row, "Trimestre")) != [] && ParsePositiveFloat(Get(row, "ValorDespesas")).Some?
    ensures r.Some? ==> (r.value.valor > 0.0
      && r.value.valor == ParsePositiveFloat(Get(row, "ValorDespesas")).value
      && r.value.group == GroupKey(Strip(Get(row, "RazaoSocial")), UfOf(row))
      && r.value.quarter == QuarterKey(Strip(Get(row, "Ano")), Strip(Get(row, "Trimestre"))))
  {
    var razao := Strip(Get(row, "RazaoSocial"));
    var ano := Strip(Get(row, "Ano"));
    var trimestre := Strip(Get(row, "Trimestre"));
    if razao == [] || ano == [] || trimestre == [] then None
    else
      match ParsePositiveFloat(Get(row, "ValorDespesas"))
      case None => None
      case Some(v) => Some(Entry(GroupKey(razao, UfOf(row)), QuarterKey(ano, trimestre), v))
  }

  // ---------------------------------------------------------------------------
  // Grouping
  // ---------------------------------------------------------------------------

  /** Per group, per quarter, the summed amount, both in first-seen order. */
  type Groups = Dict<GroupKey, Dict<QuarterKey, real>>

  /** Every group and quarter map is a proper dict and no group is empty. */
  predicate WellFormed(groups: Groups) {
    Valid(groups)
    && forall g :: g in groups.entries ==> Valid(groups.entries[g]) && groups.entries[g].keys != []
  }

  /** `groups.setdefault(g, {})` followed by `groups[g][q] = groups[g].get(q, 0.0) + valor`. */
  function AddEntry(groups: Groups, e: Entry): (r: Groups)
    requires WellFormed(groups)
    ensures WellFormed(r)
    ensures r.entries.Keys == groups.entries.Keys + {e.group}
    ensures e.group in groups.entries ==> r.keys == groups.keys
    ensures e.group !in groups.entries ==> r.keys == groups.keys + [e.group]
  {
    var inner := Dicts.GetOr(groups, e.group, Empty());
    assert Valid(inner);
    var updated := Put(inner, e.quarter, Dicts.GetOr(inner, e.quarter, 0.0) + e.valor);
    Put(groups, e.group, updated)
  }

  /** The groups built from `es`, added one after another. */
  function Group(es: seq<Entry>): (r: Groups)
    ensures WellFormed(r)
    decreases |es|
  {
    if es == [] then Empty()
    else AddEntry(Group(es[..|es| - 1]), es[|es| - 1])
  }

  /** The loop over the rows: every accepted row is added to its group. */
  method GroupBy(rows: seq<Row>, accept: Row -> Option<Entry>) returns (groups: Groups)
    ensures groups == Group(FilterMap(rows, accept))
  {
    groups := Empty();
    for i := 0 to |rows|
      invariant groups == Group(FilterMap(rows[..i], accept))
    {
      FilterMapSnoc(rows, i, accept);
      var es := FilterMap(rows[..i], accept);
      match accept(rows[i])
      case Some(e) =>
        assert FilterMap(rows[..i + 1], accept) == es + [e];
        GroupSnoc(es, e);
        groups := AddEntry(groups, e);
      case None =>
        assert FilterMap(rows[..i + 1], accept) == es + [];
        assert es + [] == es;
    }
    assert rows[..|rows|] == rows;
  }

  lemma GroupSnoc(es: seq<Entry>, e: Entry)
    ensures Group(es + [e]) == AddEntry(Group(es), e)
  {
    assert (es + [e])[..|es|] == es;
  }

  // Reference definitions, independent of the dict representation.

  /** The groups that occur among the entries. */
  function GroupsOf(es: seq<Entry>): set<GroupKey> {
    set e | e in es :: e.group
  }

  /** The group of every entry, in entry order, repeats included. */
  function GroupSeq(es: seq<Entry>): (gs: seq<GroupKey>)
    ensures |gs| == |es|
    decreases |es|
  {
    if es == [] then [] else GroupSeq(es[..|es| - 1]) + [es[|es| - 1].group]
  }

  /** The quarters in which group `g` has an entry. */
  function QuartersOf(es: seq<Entry>, g: GroupKey): set<QuarterKey> {
    set e | e in es && e.group == g :: e.quarter
  }

  /** The amounts of group `g` in quarter `q`, summed. */
  function QuarterTotal(es: seq<Entry>, g: GroupKey, q: QuarterKey): real
    decreases |es|
  {
    if es == [] then 0.0
    else
      var e := es[|es| - 1];
      QuarterTotal(es[..|es| - 1], g, q) + (if e.group == g && e.quarter == q then e.valor else 0.0)
  }

  /** All amounts of group `g`, summed. */
  function GroupTotal(es: seq<Entry>, g: GroupKey): real
    decreases |es|
  {
    if es == [] then 0.0
    else
      var e := es[|es| - 1];
      GroupTotal(es[..|es| - 1], g) + (if e.group == g then e.valor else 0.0)
  }

  lemma LastSplit(es: seq<Entry>)
    requires es != []
    ensures es == es[..|es| - 1] + [es[|es| - 1]]
    ensures forall x :: x in es <==> x in es[..|es| - 1] || x == es[|es| - 1]
  {
  }

  /** The quarter sums of group `g`, or none when it has no group yet. */
  function QuartersIn(groups: Groups, g: GroupKey): (d: Dict<QuarterKey, real>)
    requires WellFormed(groups)
    ensures Valid(d)
  {
    Dicts.GetOr(groups, g, Empty())
  }

  /** Adding an entry touches only its own group, and there only its own quarter. */
  lemma AddEntryStep(groups: Groups, e: Entry, g: GroupKey)
    requires WellFormed(groups)
    ensures var r := AddEntry(groups, e);
      var before := QuartersIn(groups, g);
      var after := QuartersIn(r, g);
      (g != e.group ==> after == before)
      && (g == e.group ==> after == Put(before, e.quarter, Dicts.GetOr(before, e.quarter, 0.0) + e.valor))
  {
    if g == e.group {
      AddEntryOwn(groups, e);
    } else {
      AddEntryOther(groups, e, g);
    }
  }

  lemma AddEntryOwn(groups: Groups, e: Entry)
    requires WellFormed(groups)
    ensures var before := QuartersIn(groups, e.group);
      QuartersIn(AddEntry(groups, e), e.group)
      == Put(before, e.quarter, Dicts.GetOr(before, e.quarter, 0.0) + e.valor)
  {
  }

  lemma AddEntryOther(groups: Groups, e: Entry, g: GroupKey)
    requires WellFormed(groups) && g != e.group
    ensures QuartersIn(AddEntry(groups, e), g) == QuartersIn(groups, g)
  {
  }

  /** The groups are exactly those with an entry. */
  lemma {:induction false} GroupKeys(es: seq<Entry>)
    ensures Group(es).entries.Keys == GroupsOf(es)
    decreases |es|
  {
    if es != [] {
      GroupKeys(es[..|es| - 1]);
      LastSplit(es);
    }
  }

  /** The groups of `groups` appear in `s`, in the order of their first positions there. */
  ghost predicate ListedInOrder(groups: Groups, s: seq<GroupKey>)
    requires Valid(groups)
  {
    (forall g :: g in groups.entries <==> g in s)
    && forall i, j :: 0 <= i < j < |groups.keys| ==> Find(s, groups.keys[i]) < Find(s, groups.keys[j])
  }

  /** Adding one entry keeps the groups in first-appearance order. */
  lemma GroupOrderStep(prev: Groups, s: seq<GroupKey>, e: Entry)
    requires WellFormed(prev) && ListedInOrder(prev, s)
    ensures ListedInOrder(AddEntry(prev, e), s + [e.group])
  {
    var r := AddEntry(prev, e);
    forall x | x in r.keys
      ensures x in s + [e.group]
      ensures Find(s + [e.group], x) == if x in s then Find(s, x) else |s|
    {
      FindSnoc(s, e.group, x);
    }
    if e.group !in prev.entries {
      forall i | 0 <= i < |prev.keys|
        ensures Find(s, prev.keys[i]) < |s|
      {
      }
    }
  }

  /** The groups are listed in the order in which their first entry appears. */
  lemma {:induction false} GroupOrder(es: seq<Entry>)
    ensures forall g :: g in Group(es).entries <==> g in GroupSeq(es)
    ensures forall i, j :: 0 <= i < j < |Group(es).keys| ==>
      Find(GroupSeq(es), Group(es).keys[i]) < Find(GroupSeq(es), Group(es).keys[j])
    decreases |es|
  {
    if es != [] {
      var n := |es| - 1;
      GroupOrder(es[..n]);
      assert Group(es) == AddEntry(Group(es[..n]), es[n]);
      assert GroupSeq(es) == GroupSeq(es[..n]) + [es[n].group];
      GroupOrderStep(Group(es[..n]), GroupSeq(es[..n]), es[n]);
      assert ListedInOrder(Group(es), GroupSeq(es));
    }
  }

  /** A group's quarters are exactly those in which it has an entry (none
      for a group that does not occur). */
  lemma {:induction false} GroupQuarters(es: seq<Entry>, g: GroupKey)
    ensures QuartersIn(Group(es), g).entries.Keys == QuartersOf(es, g)
    decreases |es|
  {
    if es != [] {
      var n := |es| - 1;
      GroupQuarters(es[..n], g);
      AddEntryStep(Group(es[..n]), es[n], g);
      QuartersOfSnoc(es, g);
    }
  }

  lemma QuartersOfSnoc(es: seq<Entry>, g: GroupKey)
    requires es != []
    ensures var e := es[|es| - 1];
      QuartersOf(es, g) == QuartersOf(es[..|es| - 1], g) + (if e.group == g then {e.quarter} else {})
  {
    LastSplit(es);
  }

  /** Each quarter holds the sum of the group's amounts in that quarter. */
  lemma {:induction false} QuarterSums(es: seq<Entry>, g: GroupKey, q: QuarterKey)
    ensures Dicts.GetOr(QuartersIn(Group(es), g), q, 0.0) == QuarterTotal(es, g, q)
    decreases |es|
  {
    if es != [] {
      var n := |es| - 1;
      QuarterSums(es[..n], g, q);
      QuarterSumsStep(Group(es[..n]), Group(es), es[n], g, q);
    }
  }

  lemma QuarterSumsStep(before: Groups, after: Groups, e: Entry, g: GroupKey, q: QuarterKey)
    requires WellFormed(before) && after == AddEntry(before, e)
    ensures Dicts.GetOr(QuartersIn(after, g), q, 0.0)
         == Dicts.GetOr(QuartersIn(before, g), q, 0.0) + (if e.group == g && e.quarter == q then e.valor else 0.0)
  {
    AddEntryStep(before, e, g);
  }

  /** The quarter sums of a group add up to all of the group's amounts. */
  lemma {:induction false} GroupSums(es: seq<Entry>, g: GroupKey)
    ensures Sum(Values(QuartersIn(Group(es), g))) == GroupTotal(es, g)
    decreases |es|
  {
    if es != [] {
      var n := |es| - 1;
      var e := es[n];
      GroupSums(es[..n], g);
      GroupSumsStep(Group(es[..n]), Group(es), e, g);
    }
  }

  lemma GroupSumsStep(before: Groups, after: Groups, e: Entry, g: GroupKey)
    requires WellFormed(before) && after == AddEntry(before, e)
    ensures Sum(Values(QuartersIn(after, g)))
         == Sum(Values(QuartersIn(before, g))) + (if e.group == g then e.valor else 0.0)
  {
    AddEntryStep(before, e, g);
    QuarterMapSum(QuartersIn(before, g), QuartersIn(after, g), e, g);
  }

  /** Adding an entry adds its amount to its own group's total and to no other. */
  lemma QuarterMapSum(before: Dict<QuarterKey, real>, after: Dict<QuarterKey, real>, e: Entry, g: GroupKey)
    requires Valid(before)
    requires g != e.group ==> after == before
    requires g == e.group ==> after == Put(before, e.quarter, Dicts.GetOr(before, e.quarter, 0.0) + e.valor)
    ensures Sum(Values(after)) == Sum(Values(before)) + (if e.group == g then e.valor else 0.0)
  {
    if e.group == g {
      PutAddsToSum(before, e.quarter, e.valor);
    }
  }

  /** Adding `v` to one quarter's sum adds `v` to the sum of all quarters. */
  lemma PutAddsToSum(d: Dict<QuarterKey, real>, q: QuarterKey, v: real)
    requires Valid(d)
    ensures Sum(Values(Put(d, q, Dicts.GetOr(d, q, 0.0) + v))) == Sum(Values(d)) + v
  {
    if q in d.entries {
      ValuesPutExisting(d, q, d.entries[q] + v);
      SumIncrease(Values(d), Find(d.keys, q), v);
    } else {
      ValuesPutNew(d, q, v);
      SumAppend(Values(d), [v]);
    }
  }

  // ---------------------------------------------------------------------------
  // Summaries and ranking
  // ---------------------------------------------------------------------------

  /** One line of the aggregated file. `variancia` is the population
      variance of the quarter sums (0 with fewer than two quarters); the file
      holds its square root rounded to cents. */
  datatype Summary = Summary(
    razaoSocial: string,
    uf: string,
    totalDespesas: real,
    mediaDespesasPorTrimestre: real,
    variancia: real,
    qtdTrimestres: nat)

  /** The line for group `g` with quarter sums `quarters`. */
  function Summarise(g: GroupKey, quarters: Dict<QuarterKey, real>): (s: Summary)
    requires Valid(quarters)
    ensures s.razaoSocial == g.razaoSocial && s.uf == g.uf
    ensures s.qtdTrimestres == |quarters.keys|
  {
    var values := Values(quarters);
    var total := Sum(values);
    var media := if |values| > 0 then Mean(values) else 0.0;
    var spread := if |values| >= 2 then PVariance(values) else 0.0;
    Summary(g.razaoSocial, g.uf, Round2(total), Round2(media), spread, |values|)
  }

  /** One line per group, in group order. */
  function Summaries(groups: Groups): (r: seq<Summary>)
    requires WellFormed(groups)
    ensures |r| == |groups.keys|
  {
    seq(|groups.keys|, i requires 0 <= i < |groups.keys| =>
      Summarise(groups.keys[i], groups.entries[groups.keys[i]]))
  }

  /** The ranking order: by rounded total, largest first. */
  function ByTotal(a: Summary, b: Summary): bool {
    a.totalDespesas >= b.totalDespesas
  }

  lemma ByTotalIsPreorder()
    ensures Total(ByTotal) && Transitive(ByTotal)
  {
  }

  /** The whole stage on rows that were already read: accepted rows grouped,
      one line per group, ranked by rounded total with ties in group order. */
  method Aggregate(rows: seq<Row>) returns (results: seq<Summary>)
    ensures multiset(results) == multiset(Summaries(Group(FilterMap(rows, EntryOf))))
    ensures SortedBy(results, ByTotal)
    ensures forall v :: Filter(results, EquivTo(ByTotal, v))
                     == Filter(Summaries(Group(FilterMap(rows, EntryOf))), EquivTo(ByTotal, v))
  {
    var groups := GroupBy(rows, EntryOf);
    var lines := Summaries(groups);
    results := Sort(lines, ByTotal);
    ByTotalIsPreorder();
    SortSorted(lines, ByTotal);
    forall v
      ensures Filter(results, EquivTo(ByTotal, v)) == Filter(lines, EquivTo(ByTotal, v))
    {
      SortStable(lines, ByTotal, v);
    }
  }

  /** What each line says about its group, in terms of the accepted entries:
      the rounded sum of all its amounts, the number of distinct quarters it
      has amounts in, the rounded mean per quarter, and no spread with fewer
      than two quarters. */
  lemma SummaryOfGroup(es: seq<Entry>, i: nat)
    requires i < |Group(es).keys|
    ensures var g := Group(es).keys[i];
      var s := Summaries(Group(es))[i];
      s.razaoSocial == g.razaoSocial && s.uf == g.uf
      && s.totalDespesas == Round2(GroupTotal(es, g))
      && s.qtdTrimestres == |QuartersOf(es, g)|
      && s.qtdTrimestres >= 1
      && s.mediaDespesasPorTrimestre == Round2(GroupTotal(es, g) / s.qtdTrimestres as real)
      && (s.qtdTrimestres < 2 ==> s.variancia == 0.0)
      && (s.qtdTrimestres >= 2 ==> s.variancia == PVariance(Values(QuartersIn(Group(es), g))))
      && s.variancia >= 0.0
  {
    var groups := Group(es);
    var g := groups.keys[i];
    assert g in groups.entries;
    var quarters := groups.entries[g];
    assert quarters == QuartersIn(groups, g);
    GroupSums(es, g);
    GroupQuarters(es, g);
    DistinctCount(quarters.keys);
    if |quarters.keys| >= 2 {
      PVarianceNonnegative(Values(quarters));
    }
  }

  /** The values the statistics are taken over are the per-quarter sums of
      the group, in the order the quarters first appeared. */
  lemma QuarterValues(es: seq<Entry>, g: GroupKey)
    ensures var d := QuartersIn(Group(es), g);
      forall j :: 0 <= j < |d.keys| ==> Values(d)[j] == QuarterTotal(es, g, d.keys[j])
  {
    var d := QuartersIn(Group(es), g);
    forall j | 0 <= j < |d.keys|
      ensures Values(d)[j] == QuarterTotal(es, g, d.keys[j])
    {
      QuarterSums(es, g, d.keys[j]);
      assert d.keys[j] in d.entries;
    }
  }

  /** A list without repeats has as many elements as its set. */
  lemma {:induction false} DistinctCount<T>(s: seq<T>)
    requires Distinct(s)
    ensures |set x | x in s| == |s|
    decreases |s|
  {
    if s != [] {
      var n := |s| - 1;
      assert Distinct(s[..n]);
      DistinctCount(s[..n]);
      assert (set x | x in s) == (set x | x in s[..n]) + {s[n]};
      assert s[n] !in (set x | x in s[..n]);
    }
  }
}
