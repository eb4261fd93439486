/** The combined DELVE dataset: government policies with mask policies, forward-filled per
    country, left-joined in turn with cases, mobility, median age, reference indicators and
    excess mortality; the excess mortality table itself reconciles two sources that must
    not cover the same country. */
module Combined {
  import opened Tables

  // ---------------------------------------------------------------------------------------------
  // Excess mortality from two sources
  // ---------------------------------------------------------------------------------------------

  /** A country-level daily row of the Economist excess mortality source. */
  datatype EconomistRow = EconomistRow(iso: string, date: Date, dailyAvg: Option<real>, weekly: Option<real>)

  /** A daily row of the EuroStats excess mortality source, split by sex and age group. */
  datatype EuroStatsRow = EuroStatsRow(iso: string, date: Date, sex: string, age: string,
                                       excessMortality: Option<real>, excessMortalityDailyAverage: Option<real>)

  /** A row of the reconciled excess table: ISO, DATE, excess_death_daily_avg, weekly_excess_deaths. */
  datatype ExcessRow = ExcessRow(iso: string, date: Date, dailyAvg: Option<real>, weekly: Option<real>)

  /** Why a build of the combined table aborts. */
  datatype BuildError =
    | SourceFailure                        // an upstream adapter could not deliver its table
    | DuplicatedIsos(isos: set<string>)    // both excess sources cover these countries
    | MessageTypeError                     // building the error message itself failed

  /** Countries taken from EuroStats rather than the Economist. */
  const ECONOMIST_EXCLUDE: set<string> := {"AUT", "BEL", "CHE", "DNK", "NOR"}
  /** Countries taken from the Economist rather than EuroStats. */
  const EUROSTATS_EXCLUDE: set<string> := {"ESP", "PRT", "SWE"}
  /** The label EuroStats uses for "all sexes" and "all ages". */
  const TOTAL_LABEL: string := "Total"

  predicate KeepEconomist(r: EconomistRow)
  {
    r.iso !in ECONOMIST_EXCLUDE
  }

  predicate KeepEuroStats(r: EuroStatsRow)
  {
    r.sex == TOTAL_LABEL && r.age == TOTAL_LABEL && r.iso !in EUROSTATS_EXCLUDE
  }

  /** The Economist rows that remain: exactly those whose country is not excluded, in order. */
  function EconomistFiltered(rows: seq<EconomistRow>): (r: seq<EconomistRow>)
    ensures forall x :: x in r <==> x in rows && x.iso !in ECONOMIST_EXCLUDE
  {
    Filter(rows, KeepEconomist)
  }

  /** The EuroStats rows that remain: exactly the all-sexes, all-ages rows of countries that are not
      excluded, in order. */
  function EuroStatsFiltered(rows: seq<EuroStatsRow>): (r: seq<EuroStatsRow>)
    ensures forall x :: x in r <==>
      x in rows && x.sex == TOTAL_LABEL && x.age == TOTAL_LABEL && x.iso !in EUROSTATS_EXCLUDE
  {
    Filter(rows, KeepEuroStats)
  }

  function FromEconomist(r: EconomistRow): ExcessRow
  {
    ExcessRow(r.iso, r.date, r.dailyAvg, r.weekly)
  }

  /** EuroStats' two value columns are renamed into the shared schema. */
  function FromEuroStats(r: EuroStatsRow): ExcessRow
  {
    ExcessRow(r.iso, r.date, r.excessMortalityDailyAverage, r.excessMortality)
  }

  function ProjectEconomist(s: seq<EconomistRow>): seq<ExcessRow>
  {
    seq(|s|, i requires 0 <= i < |s| => FromEconomist(s[i]))
  }

  function ProjectEuroStats(s: seq<EuroStatsRow>): seq<ExcessRow>
  {
    seq(|s|, i requires 0 <= i < |s| => FromEuroStats(s[i]))
  }

  function EconomistIsos(s: seq<EconomistRow>): set<string>
  {
    set r | r in s :: r.iso
  }

  function EuroStatsIsos(s: seq<EuroStatsRow>): set<string>
  {
    set r | r in s :: r.iso
  }

  /** Two filtered sources overlap exactly when some country has rows in both. */
  lemma OverlapWitness(ec: seq<EconomistRow>, eu: seq<EuroStatsRow>)
    ensures EuroStatsIsos(eu) * EconomistIsos(ec) != {} <==> exists a, b :: a in ec && b in eu && a.iso == b.iso
  {
    if EuroStatsIsos(eu) * EconomistIsos(ec) != {} {
      var v :| v in EuroStatsIsos(eu) * EconomistIsos(ec);
      var a :| a in ec && a.iso == v;
      var b :| b in eu && b.iso == v;
    }
    if exists a, b :: a in ec && b in eu && a.iso == b.iso {
      var a, b :| a in ec && b in eu && a.iso == b.iso;
      assert a.iso in EconomistIsos(ec) && b.iso in EuroStatsIsos(eu);
      assert a.iso in EuroStatsIsos(eu) * EconomistIsos(ec);
    }
  }

  /** `_excess_mortality_data` as intended: the build aborts, naming the countries, exactly when a
      country survives both filters; otherwise all remaining Economist rows, then all remaining
      EuroStats rows, each in its original order and projected to the shared schema. */
  function ExcessMortalityData(economist: seq<EconomistRow>, eurostats: seq<EuroStatsRow>): (r: Result<seq<ExcessRow>, BuildError>)
    ensures r.Err? <==> exists a, b :: a in EconomistFiltered(economist) && b in EuroStatsFiltered(eurostats) && a.iso == b.iso
    ensures r.Err? ==> r.error.DuplicatedIsos? && r.error.isos != {}
    ensures r.Err? ==> forall v :: v in r.error.isos <==>
      (exists a :: a in EconomistFiltered(economist) && a.iso == v) &&
      (exists b :: b in EuroStatsFiltered(eurostats) && b.iso == v)
    ensures r.Ok? ==> |r.value| == |EconomistFiltered(economist)| + |EuroStatsFiltered(eurostats)|
    ensures r.Ok? ==> forall i :: 0 <= i < |EconomistFiltered(economist)| ==>
      r.value[i] == FromEconomist(EconomistFiltered(economist)[i])
    ensures r.Ok? ==> forall i :: 0 <= i < |EuroStatsFiltered(eurostats)| ==>
      r.value[|EconomistFiltered(economist)| + i] == FromEuroStats(EuroStatsFiltered(eurostats)[i])
  {
    var ec := EconomistFiltered(economist);
    var eu := EuroStatsFiltered(eurostats);
    var intersection := EuroStatsIsos(eu) * EconomistIsos(ec);
    OverlapWitness(ec, eu);
    if intersection != {} then
      Err(DuplicatedIsos(intersection))
    else
      Ok(ProjectEconomist(ec) + ProjectEuroStats(eu))
  }

  /** `_excess_mortality_data` as written: the message is built by adding a set to a string, which
      fails before the intended error is raised. The build still aborts exactly when the sources
      overlap, and otherwise yields the same table. */
  function ExcessMortalityDataAsWritten(economist: seq<EconomistRow>, eurostats: seq<EuroStatsRow>): (r: Result<seq<ExcessRow>, BuildError>)
    ensures r.Err? <==> ExcessMortalityData(economist, eurostats).Err?
    ensures r.Ok? ==> r == ExcessMortalityData(economist, eurostats)
  {
    var ec := EconomistFiltered(economist);
    var eu := EuroStatsFiltered(eurostats);
    var intersection := EuroStatsIsos(eu) * EconomistIsos(ec);
    if intersection != {} then
      Err(MessageTypeError)
    else
      Ok(ProjectEconomist(ec) + ProjectEuroStats(eu))
  }

  /** A country present in both sources: the code as written never reports which one. */
  lemma ExcessOverlapReportsTypeError()
    ensures var economist := [EconomistRow("XYZ", 0, Some(1.0), Some(7.0))];
            var eurostats := [EuroStatsRow("XYZ", 0, TOTAL_LABEL, TOTAL_LABEL, Some(7.0), Some(1.0))];
      ExcessMortalityDataAsWritten(economist, eurostats) == Err(MessageTypeError) &&
      ExcessMortalityData(economist, eurostats) == Err(DuplicatedIsos({"XYZ"}))
  {
    var economist := [EconomistRow("XYZ", 0, Some(1.0), Some(7.0))];
    var eurostats := [EuroStatsRow("XYZ", 0, TOTAL_LABEL, TOTAL_LABEL, Some(7.0), Some(1.0))];
    assert KeepEconomist(economist[0]) && KeepEuroStats(eurostats[0]);
    assert EconomistFiltered(economist) == economist by {
      assert economist[1..] == [];
    }
    assert EuroStatsFiltered(eurostats) == eurostats by {
      assert eurostats[1..] == [];
    }
    assert EconomistIsos(EconomistFiltered(economist)) == {"XYZ"};
    assert EuroStatsIsos(EuroStatsFiltered(eurostats)) == {"XYZ"};
    assert EuroStatsIsos(EuroStatsFiltered(eurostats)) * EconomistIsos(EconomistFiltered(economist)) == {"XYZ"};
    assert ExcessMortalityDataAsWritten(economist, eurostats) == Err(MessageTypeError);
    assert ExcessMortalityData(economist, eurostats) == Err(DuplicatedIsos({"XYZ"}));
  }

  /** No country of the reconciled table comes from both sources, and no country appears that
      its source excludes. */
  lemma ExcessSourcesDisjoint(economist: seq<EconomistRow>, eurostats: seq<EuroStatsRow>)
    requires ExcessMortalityData(economist, eurostats).Ok?
    ensures var rows := ExcessMortalityData(economist, eurostats).value;
            var n := |EconomistFiltered(economist)|;
      (forall i, j :: 0 <= i < n <= j < |rows| ==> rows[i].iso != rows[j].iso) &&
      (forall i :: 0 <= i < n ==> rows[i].iso !in ECONOMIST_EXCLUDE) &&
      (forall j :: n <= j < |rows| ==> rows[j].iso !in EUROSTATS_EXCLUDE)
  {
    var ec := EconomistFiltered(economist);
    var eu := EuroStatsFiltered(eurostats);
    var rows := ExcessMortalityData(economist, eurostats).value;
    var n := |ec|;
    forall i | 0 <= i < n ensures rows[i].iso !in ECONOMIST_EXCLUDE {
      assert ec[i] in ec;
    }
    forall j | n <= j < |rows| ensures rows[j].iso !in EUROSTATS_EXCLUDE {
      assert eu[j - n] in eu;
    }
    forall i, j | 0 <= i < n <= j < |rows| ensures rows[i].iso != rows[j].iso {
      assert ec[i] in ec && eu[j - n] in eu;
    }
  }

  function EconomistKey(r: EconomistRow): (string, Date)
  {
    (r.iso, r.date)
  }

  /** EuroStats rows are identified by country, date, sex and age group. */
  function EuroStatsKey(r: EuroStatsRow): (string, Date, string, string)
  {
    (r.iso, r.date, r.sex, r.age)
  }

  function ExcessKey(r: ExcessRow): (string, Date)
  {
    (r.iso, r.date)
  }

  /** Economist rows with one row per (ISO, DATE) project to excess rows with one row per (ISO, DATE). */
  lemma ProjectEconomistUnique(ec: seq<EconomistRow>)
    requires UniqueBy(ec, EconomistKey)
    ensures UniqueBy(ProjectEconomist(ec), ExcessKey)
  {
    var a := ProjectEconomist(ec);
    forall i, j | 0 <= i < j < |a| ensures ExcessKey(a[i]) != ExcessKey(a[j]) {
      assert EconomistKey(ec[i]) != EconomistKey(ec[j]);
    }
  }

  /** All-sexes, all-ages EuroStats rows with one row per key project to excess rows with one row
      per (ISO, DATE). */
  lemma ProjectEuroStatsUnique(eu: seq<EuroStatsRow>)
    requires UniqueBy(eu, EuroStatsKey)
    requires forall r :: r in eu ==> r.sex == TOTAL_LABEL && r.age == TOTAL_LABEL
    ensures UniqueBy(ProjectEuroStats(eu), ExcessKey)
  {
    var b := ProjectEuroStats(eu);
    forall i, j | 0 <= i < j < |b| ensures ExcessKey(b[i]) != ExcessKey(b[j]) {
      assert eu[i] in eu && eu[j] in eu;
      assert EuroStatsKey(eu[i]) != EuroStatsKey(eu[j]);
    }
  }

  /** When each source has one row per key, the reconciled table has one row per (ISO, DATE). */
  lemma ExcessUnique(economist: seq<EconomistRow>, eurostats: seq<EuroStatsRow>)
    requires UniqueBy(economist, EconomistKey)
    requires UniqueBy(eurostats, EuroStatsKey)
    requires ExcessMortalityData(economist, eurostats).Ok?
    ensures UniqueBy(ExcessMortalityData(economist, eurostats).value, ExcessKey)
  {
    var ec := EconomistFiltered(economist);
    var eu := EuroStatsFiltered(eurostats);
    FilterUnique(economist, KeepEconomist, EconomistKey);
    FilterUnique(eurostats, KeepEuroStats, EuroStatsKey);
    ProjectEconomistUnique(ec);
    ProjectEuroStatsUnique(eu);
    var a := ProjectEconomist(ec);
    var b := ProjectEuroStats(eu);
    ExcessSourcesDisjoint(economist, eurostats);
    assert ExcessMortalityData(economist, eurostats).value == a + b;
    forall i, j | 0 <= i < |a| && 0 <= j < |b| ensures ExcessKey(a[i]) != ExcessKey(b[j]) {
      AppendAt(a, b, i);
      AppendAt(a, b, |a| + j);
    }
    UniqueByAppend(a, b, ExcessKey);
  }

  // ---------------------------------------------------------------------------------------------
  // Interventions: policies with mask policies, forward-filled per country
  // ---------------------------------------------------------------------------------------------

  /** A row of the government policy table: country, date, country name and the policy indicators. */
  datatype PolicyRow = PolicyRow(iso: string, date: Date, countryName: string, values: seq<Option<real>>)

  /** The policy table with its number of indicator columns. */
  datatype Policies = Policies(width: nat, rows: seq<PolicyRow>)

  /** A row of the mask policy table; its stringency becomes the `Masks` column. */
  datatype MaskRow = MaskRow(iso: string, date: Date, masks: Option<real>)

  /** A policy row after the mask merge: the indicators followed by `Masks`. */
  datatype MergedRow = MergedRow(iso: string, date: Date, countryName: string, cells: seq<Option<real>>)

  /** A row of the interventions table: every indicator filled. */
  datatype InterventionRow = InterventionRow(iso: string, date: Date, countryName: string, values: seq<real>)

  function PolicyKey(p: PolicyRow): (string, Date)
  {
    (p.iso, p.date)
  }

  function MaskKey(m: MaskRow): (string, Date)
  {
    (m.iso, m.date)
  }

  function MergedOf(p: (PolicyRow, Option<MaskRow>), width: nat): MergedRow
  {
    MergedRow(p.0.iso, p.0.date, p.0.countryName,
      seq(width, c requires 0 <= c < width => Cell(p.0.values, c)) + [if p.1.Some? then p.1.value.masks else None])
  }

  /** The policies left-merged with the mask policies on (ISO, DATE). */
  function MergeMasks(policies: Policies, masks: seq<MaskRow>): (r: seq<MergedRow>)
    ensures forall i :: 0 <= i < |r| ==> |r[i].cells| == policies.width + 1
  {
    var j := LeftJoin(policies.rows, masks, PolicyKey, MaskKey);
    seq(|j|, i requires 0 <= i < |j| => MergedOf(j[i], policies.width))
  }

  /** With at most one mask row per (ISO, DATE) every policy row yields one merged row, in order,
      with the same country, date and name and the same indicators. */
  lemma MergeMasksOneForOne(policies: Policies, masks: seq<MaskRow>)
    requires UniqueBy(masks, MaskKey)
    ensures var m := MergeMasks(policies, masks);
      |m| == |policies.rows| &&
      forall i :: 0 <= i < |m| ==>
        m[i].iso == policies.rows[i].iso && m[i].date == policies.rows[i].date &&
        m[i].countryName == policies.rows[i].countryName &&
        forall c :: 0 <= c < policies.width ==> m[i].cells[c] == Cell(policies.rows[i].values, c)
  {
    LeftJoinUnique(policies.rows, masks, PolicyKey, MaskKey);
  }

  /** The `Masks` cell of a merged row is the matching mask row's stringency, or missing when no mask
      row has the policy row's (ISO, DATE). */
  lemma MergeMasksCell(policies: Policies, masks: seq<MaskRow>)
    requires UniqueBy(masks, MaskKey)
    ensures var m := MergeMasks(policies, masks);
      |m| == |policies.rows| &&
      (forall i, x :: 0 <= i < |m| && x in masks && MaskKey(x) == PolicyKey(policies.rows[i]) ==>
        m[i].cells[policies.width] == x.masks) &&
      (forall i :: 0 <= i < |m| && (forall x :: x in masks ==> MaskKey(x) != PolicyKey(policies.rows[i])) ==>
        m[i].cells[policies.width].None?)
  {
    LeftJoinUnique(policies.rows, masks, PolicyKey, MaskKey);
    var m := MergeMasks(policies, masks);
    forall i, x | 0 <= i < |m| && x in masks && MaskKey(x) == PolicyKey(policies.rows[i])
      ensures m[i].cells[policies.width] == x.masks
    {
      LookupFinds(masks, MaskKey, PolicyKey(policies.rows[i]), x);
    }
  }

  /** The most recent present value among positions before `i` whose key is `k`. */
  function LastSeen(keys: seq<string>, col: seq<Option<real>>, i: nat, k: string): (r: Option<real>)
    requires i <= |keys| == |col|
    ensures r.Some? ==> exists j :: 0 <= j < i && keys[j] == k && col[j] == r &&
                          forall l :: j < l < i && keys[l] == k ==> col[l].None?
    ensures r.None? ==> forall j :: 0 <= j < i && keys[j] == k ==> col[j].None?
  {
    if i == 0 then None
    else if keys[i - 1] == k && col[i - 1].Some? then col[i - 1]
    else LastSeen(keys, col, i - 1, k)
  }

  /** `groupby(key).ffill()` on one column: a missing cell takes the most recent present value of
      the same group, and stays missing if there is none. */
  function GroupFFill(keys: seq<string>, col: seq<Option<real>>): (r: seq<Option<real>>)
    requires |keys| == |col|
    ensures |r| == |col|
  {
    seq(|col|, i requires 0 <= i < |col| => if col[i].Some? then col[i] else LastSeen(keys, col, i, keys[i]))
  }

  /** Row `j` is the latest row before row `i` of the same group with a value in `col`. */
  predicate LatestPresent(keys: seq<string>, col: seq<Option<real>>, i: nat, j: int)
    requires |keys| == |col| && i < |col|
  {
    0 <= j < i && keys[j] == keys[i] && col[j].Some? &&
    forall l :: j < l < i && keys[l] == keys[i] ==> col[l].None?
  }

  /** The fill a cell receives is the value of the latest earlier row of its own group that has one;
      a present cell is kept, and a cell with no such row stays missing. */
  lemma {:induction false} GroupFFillAt(keys: seq<string>, col: seq<Option<real>>, i: nat)
    requires |keys| == |col| && i < |col|
    ensures col[i].Some? ==> GroupFFill(keys, col)[i] == col[i]
    ensures col[i].None? ==> forall j :: LatestPresent(keys, col, i, j) ==> GroupFFill(keys, col)[i] == col[j]
    ensures col[i].None? && (forall j :: 0 <= j < i && keys[j] == keys[i] ==> col[j].None?) ==> GroupFFill(keys, col)[i].None?
  {
    if col[i].None? {
      var r := LastSeen(keys, col, i, keys[i]);
      forall j | LatestPresent(keys, col, i, j)
        ensures GroupFFill(keys, col)[i] == col[j]
      {
        var j' :| 0 <= j' < i && keys[j'] == keys[i] && col[j'] == r &&
                 forall l :: j' < l < i && keys[l] == keys[i] ==> col[l].None?;
        if j < j' {
          assert col[j'].None?;
        } else if j' < j {
          assert col[j].None?;
        }
      }
    }
  }

  /** The forward fill as a single pass that remembers, per group, the last value seen. */
  method FFillColumn(keys: seq<string>, col: seq<Option<real>>) returns (out: seq<Option<real>>)
    requires |keys| == |col|
    ensures out == GroupFFill(keys, col)
  {
    var last: map<string, real> := map[];
    out := [];
    var i := 0;
    while i < |col|
      invariant 0 <= i <= |col|
      invariant out == GroupFFill(keys, col)[..i]
      invariant forall k :: LastSeen(keys, col, i, k) == if k in last then Some(last[k]) else None
    {
      var cell := col[i];
      FFillStep(keys, col, i, last);
      if cell.Some? {
        out := out + [cell];
        last := last[keys[i] := cell.value];
      } else {
        var prev := if keys[i] in last then Some(last[keys[i]]) else None;
        out := out + [prev];
      }
      i := i + 1;
    }
  }

  /** One step of the single pass: the cell it emits is the forward-filled one, and the values it
      remembers are the most recent ones once the row is seen. */
  lemma FFillStep(keys: seq<string>, col: seq<Option<real>>, i: nat, last: map<string, real>)
    requires |keys| == |col| && i < |col|
    requires forall k :: LastSeen(keys, col, i, k) == if k in last then Some(last[k]) else None
    ensures var filled := GroupFFill(keys, col);
      filled[..i + 1] == filled[..i] + [if col[i].Some? then col[i] else if keys[i] in last then Some(last[keys[i]]) else None]
    ensures var next := if col[i].Some? then last[keys[i] := col[i].value] else last;
      forall k :: LastSeen(keys, col, i + 1, k) == if k in next then Some(next[k]) else None
  {
    var filled := GroupFFill(keys, col);
    assert filled[..i + 1] == filled[..i] + [filled[i]];
  }

  function IsoColumn(rows: seq<MergedRow>): (r: seq<string>)
    ensures |r| == |rows|
  {
    seq(|rows|, i requires 0 <= i < |rows| => rows[i].iso)
  }

  function Column(rows: seq<MergedRow>, c: nat): (r: seq<Option<real>>)
    ensures |r| == |rows|
  {
    seq(|rows|, i requires 0 <= i < |rows| => Cell(rows[i].cells, c))
  }

  /** Cell `c` of row `i` after the per-country forward fill and the zero fill. */
  function FilledCell(m: seq<MergedRow>, c: nat, i: nat): real
    requires i < |m|
  {
    OrZero(GroupFFill(IsoColumn(m), Column(m, c))[i])
  }

  function FilledRow(m: seq<MergedRow>, width: nat, i: nat): InterventionRow
    requires i < |m|
  {
    InterventionRow(m[i].iso, m[i].date, m[i].countryName, seq(width, c requires 0 <= c < width => FilledCell(m, c, i)))
  }

  /** `_create_interventions_data`: policies merged with masks, every indicator forward-filled within
      its country, then the remaining gaps set to 0. One row per merged row, in order. */
  function InterventionsData(policies: Policies, masks: seq<MaskRow>): (r: seq<InterventionRow>)
    ensures var m := MergeMasks(policies, masks);
      |r| == |m| &&
      forall i :: 0 <= i < |r| ==>
        r[i].iso == m[i].iso && r[i].date == m[i].date && r[i].countryName == m[i].countryName &&
        |r[i].values| == policies.width + 1
  {
    var m := MergeMasks(policies, masks);
    seq(|m|, i requires 0 <= i < |m| => FilledRow(m, policies.width + 1, i))
  }

  /** What each interventions cell holds: the merged value when present; otherwise the value of the
      latest earlier row of the same country that has one, never another country's; otherwise 0. */
  lemma InterventionsFill(policies: Policies, masks: seq<MaskRow>, i: nat, c: nat)
    requires i < |MergeMasks(policies, masks)| && c < policies.width + 1
    ensures var m := MergeMasks(policies, masks);
            var v := InterventionsData(policies, masks)[i].values[c];
      (m[i].cells[c].Some? ==> v == m[i].cells[c].value) &&
      (m[i].cells[c].None? ==> forall j :: LatestPresent(IsoColumn(m), Column(m, c), i, j) ==>
        m[j].iso == m[i].iso && v == m[j].cells[c].value) &&
      (m[i].cells[c].None? && (forall j :: 0 <= j < i && m[j].iso == m[i].iso ==> m[j].cells[c].None?) ==> v == 0.0)
  {
    var m := MergeMasks(policies, masks);
    var keys := IsoColumn(m);
    var col := Column(m, c);
    GroupFFillAt(keys, col, i);
    assert forall j :: 0 <= j < |m| ==> col[j] == m[j].cells[c] && keys[j] == m[j].iso;
    assert InterventionsData(policies, masks)[i].values[c] == OrZero(GroupFFill(keys, col)[i]);
  }

  // ---------------------------------------------------------------------------------------------
  // The left-join chain
  // ---------------------------------------------------------------------------------------------

  /** A row of a table keyed by (ISO, DATE): cases or mobility. */
  datatype KeyedRow = KeyedRow(iso: string, date: Date, values: seq<Option<real>>)
  datatype KeyedTable = KeyedTable(width: nat, rows: seq<KeyedRow>)

  /** A row of a table keyed by ISO alone: median age or reference indicators. */
  datatype StaticRow = StaticRow(iso: string, values: seq<Option<real>>)
  datatype StaticTable = StaticTable(width: nat, rows: seq<StaticRow>)

  /** An interventions row with its case columns, zero-filled. */
  datatype CasesRow = CasesRow(anchor: InterventionRow, cases: seq<real>)

  /** A row of the combined table, indexed by (ISO, DATE). */
  datatype CombinedRow = CombinedRow(
    iso: string, date: Date, countryName: string,
    interventions: seq<real>, cases: seq<real>,
    mobility: seq<Option<real>>, age: seq<Option<real>>, reference: seq<Option<real>>,
    dailyAvg: Option<real>, weekly: Option<real>)

  /** Everything the upstream adapters deliver. */
  datatype Sources = Sources(
    policies: Policies, masks: seq<MaskRow>, cases: KeyedTable, mobility: KeyedTable,
    age: StaticTable, reference: StaticTable, economist: seq<EconomistRow>, eurostats: seq<EuroStatsRow>)

  function AnchorKey(r: InterventionRow): (string, Date)
  {
    (r.iso, r.date)
  }

  function KeyedKey(r: KeyedRow): (string, Date)
  {
    (r.iso, r.date)
  }

  function StaticKey(r: StaticRow): string
  {
    r.iso
  }

  /** The right table's `width` columns of a keyed join partner, all missing when there is none. */
  function KeyedCells(o: Option<KeyedRow>, width: nat): (r: seq<Option<real>>)
    ensures |r| == width
  {
    if o.Some? then seq(width, c requires 0 <= c < width => Cell(o.value.values, c)) else Missing(width)
  }

  function StaticCells(o: Option<StaticRow>, width: nat): (r: seq<Option<real>>)
    ensures |r| == width
  {
    if o.Some? then seq(width, c requires 0 <= c < width => Cell(o.value.values, c)) else Missing(width)
  }

  function ZeroFilled(cells: seq<Option<real>>): (r: seq<real>)
    ensures |r| == |cells|
  {
    seq(|cells|, c requires 0 <= c < |cells| => OrZero(cells[c]))
  }

  /** The interventions left-merged with cases on (ISO, DATE), then `fillna(0)`. */
  function CasesMerge(iv: seq<InterventionRow>, cases: KeyedTable): (r: seq<CasesRow>)
    ensures forall i :: 0 <= i < |r| ==> |r[i].cases| == cases.width
  {
    var j := LeftJoin(iv, cases.rows, AnchorKey, KeyedKey);
    seq(|j|, i requires 0 <= i < |j| => CasesRow(j[i].0, ZeroFilled(KeyedCells(j[i].1, cases.width))))
  }

  /** With one cases row per (ISO, DATE), the merge keeps the interventions rows one for one, in order. */
  lemma CasesMergeOneForOne(iv: seq<InterventionRow>, cases: KeyedTable)
    requires UniqueBy(cases.rows, KeyedKey)
    ensures var r := CasesMerge(iv, cases);
      |r| == |iv| && forall i :: 0 <= i < |r| ==> r[i].anchor == iv[i]
  {
    LeftJoinUnique(iv, cases.rows, AnchorKey, KeyedKey);
  }

  /** After the cases merge and `fillna(0)`, each case column holds the matching cases row's value,
      or 0 when that row has none or no cases row has the (ISO, DATE). */
  lemma CasesMergeValues(iv: seq<InterventionRow>, cases: KeyedTable)
    requires UniqueBy(cases.rows, KeyedKey)
    ensures var r := CasesMerge(iv, cases);
      |r| == |iv| &&
      (forall i, c :: 0 <= i < |r| && 0 <= c < cases.width ==>
        ((forall x :: x in cases.rows ==> KeyedKey(x) != AnchorKey(iv[i])) ==> r[i].cases[c] == 0.0) &&
        (forall x :: x in cases.rows && KeyedKey(x) == AnchorKey(iv[i]) ==> r[i].cases[c] == OrZero(Cell(x.values, c))))
  {
    CasesMergeOneForOne(iv, cases);
    var r := CasesMerge(iv, cases);
    forall i | 0 <= i < |r|
      ensures forall c :: 0 <= c < cases.width ==>
        ((forall x :: x in cases.rows ==> KeyedKey(x) != AnchorKey(iv[i])) ==> r[i].cases[c] == 0.0) &&
        (forall x :: x in cases.rows && KeyedKey(x) == AnchorKey(iv[i]) ==> r[i].cases[c] == OrZero(Cell(x.values, c)))
    {
      CasesMergeRow(iv, cases, i);
      var m := Lookup(cases.rows, KeyedKey, AnchorKey(iv[i]));
      forall x | x in cases.rows && KeyedKey(x) == AnchorKey(iv[i]) ensures m == Some(x) {
        LookupFinds(cases.rows, KeyedKey, AnchorKey(iv[i]), x);
      }
    }
  }

  /** Row `i` of the cases merge holds the zero-filled cells of the cases row `Lookup` finds. */
  lemma CasesMergeRow(iv: seq<InterventionRow>, cases: KeyedTable, i: nat)
    requires UniqueBy(cases.rows, KeyedKey) && i < |iv|
    ensures i < |CasesMerge(iv, cases)|
    ensures CasesMerge(iv, cases)[i].cases == ZeroFilled(KeyedCells(Lookup(cases.rows, KeyedKey, AnchorKey(iv[i])), cases.width))
  {
    LeftJoinUnique(iv, cases.rows, AnchorKey, KeyedKey);
  }

  type WithMobility = (CasesRow, Option<KeyedRow>)
  type WithAge = (WithMobility, Option<StaticRow>)
  type WithReference = (WithAge, Option<StaticRow>)
  type WithExcess = (WithReference, Option<ExcessRow>)

  function CasesKey(r: CasesRow): (string, Date)
  {
    (r.anchor.iso, r.anchor.date)
  }

  function MobilityIso(p: WithMobility): string
  {
    p.0.anchor.iso
  }

  function AgeIso(p: WithAge): string
  {
    p.0.0.anchor.iso
  }

  function ReferenceKey(p: WithReference): (string, Date)
  {
    (p.0.0.0.anchor.iso, p.0.0.0.anchor.date)
  }

  function Flatten(p: WithExcess, mobilityWidth: nat, ageWidth: nat, referenceWidth: nat): CombinedRow
  {
    var base := p.0.0.0.0;
    CombinedRow(base.anchor.iso, base.anchor.date, base.anchor.countryName,
      base.anchor.values, base.cases,
      KeyedCells(p.0.0.0.1, mobilityWidth), StaticCells(p.0.0.1, ageWidth), StaticCells(p.0.1, referenceWidth),
      if p.1.Some? then p.1.value.dailyAvg else None,
      if p.1.Some? then p.1.value.weekly else None)
  }

  /** The interventions part of a combined row. */
  function AnchorOf(r: CombinedRow): InterventionRow
  {
    InterventionRow(r.iso, r.date, r.countryName, r.interventions)
  }

  function CombinedKey(r: CombinedRow): (string, Date)
  {
    (r.iso, r.date)
  }

  /** The merges after the cases merge: mobility on (ISO, DATE), age and reference on ISO, excess
      mortality on (ISO, DATE), all left merges without fill. */
  function JoinChain(cs: seq<CasesRow>, mobility: KeyedTable, age: StaticTable, reference: StaticTable,
                     excess: seq<ExcessRow>): (r: seq<CombinedRow>)
    ensures |r| >= |cs|
  {
    var j2 := LeftJoin(cs, mobility.rows, CasesKey, KeyedKey);
    var j3 := LeftJoin(j2, age.rows, MobilityIso, StaticKey);
    var j4 := LeftJoin(j3, reference.rows, AgeIso, StaticKey);
    var j5 := LeftJoin(j4, excess, ReferenceKey, ExcessKey);
    seq(|j5|, i requires 0 <= i < |j5| => Flatten(j5[i], mobility.width, age.width, reference.width))
  }

  /** `_create_data`: the whole chain; it aborts only when the excess mortality sources overlap. */
  function CreateData(s: Sources): (r: Result<seq<CombinedRow>, BuildError>)
    ensures r.Err? <==> ExcessMortalityData(s.economist, s.eurostats).Err?
    ensures r.Err? ==> r.error == ExcessMortalityData(s.economist, s.eurostats).error
  {
    var ex := ExcessMortalityData(s.economist, s.eurostats);
    if ex.Err? then Err(ex.error)
    else Ok(JoinChain(CasesMerge(InterventionsData(s.policies, s.masks), s.cases),
                      s.mobility, s.age, s.reference, ex.value))
  }

  /** The cases merge keeps exactly the interventions rows. */
  lemma CasesMergeAnchors(iv: seq<InterventionRow>, cases: KeyedTable)
    ensures forall x :: x in iv ==> exists r :: r in CasesMerge(iv, cases) && r.anchor == x
    ensures forall r :: r in CasesMerge(iv, cases) ==> r.anchor in iv
  {
    var j := LeftJoin(iv, cases.rows, AnchorKey, KeyedKey);
    var cs := CasesMerge(iv, cases);
    LeftJoinLeftParts(iv, cases.rows, AnchorKey, KeyedKey);
    forall x | x in iv ensures exists r :: r in cs && r.anchor == x {
      var o :| o in j && o.0 == x;
      var i :| 0 <= i < |j| && j[i] == o;
      assert cs[i] in cs;
    }
    forall r | r in cs ensures r.anchor in iv {
      var i :| 0 <= i < |cs| && cs[i] == r;
      assert j[i] in j;
    }
  }

  /** The row of `cs` that row `i` after the merges that follow the cases merge extends. */
  lemma JoinChainSource(cs: seq<CasesRow>, mobility: KeyedTable, age: StaticTable, reference: StaticTable,
                        excess: seq<ExcessRow>, i: nat) returns (k: nat)
    requires i < |JoinChain(cs, mobility, age, reference, excess)|
    ensures k < |cs| && AnchorOf(JoinChain(cs, mobility, age, reference, excess)[i]) == cs[k].anchor
  {
    var j2 := LeftJoin(cs, mobility.rows, CasesKey, KeyedKey);
    var j3 := LeftJoin(j2, age.rows, MobilityIso, StaticKey);
    var j4 := LeftJoin(j3, reference.rows, AgeIso, StaticKey);
    var j5 := LeftJoin(j4, excess, ReferenceKey, ExcessKey);
    var k4 := LeftJoinSource(j4, excess, ReferenceKey, ExcessKey, i);
    var k3 := LeftJoinSource(j3, reference.rows, AgeIso, StaticKey, k4);
    var k2 := LeftJoinSource(j2, age.rows, MobilityIso, StaticKey, k3);
    k := LeftJoinSource(cs, mobility.rows, CasesKey, KeyedKey, k2);
    assert j5[i].0.0.0.0 == cs[k];
  }

  /** Every row after the merges that follow the cases merge extends one of the rows they start from. */
  lemma JoinChainFromAnchors(cs: seq<CasesRow>, mobility: KeyedTable, age: StaticTable, reference: StaticTable,
                             excess: seq<ExcessRow>)
    ensures forall o :: o in JoinChain(cs, mobility, age, reference, excess) ==> exists r :: r in cs && AnchorOf(o) == r.anchor
  {
    var out := JoinChain(cs, mobility, age, reference, excess);
    forall o | o in out ensures exists r :: r in cs && AnchorOf(o) == r.anchor {
      var i :| 0 <= i < |out| && out[i] == o;
      var k := JoinChainSource(cs, mobility, age, reference, excess, i);
      assert cs[k] in cs;
    }
  }

  /** The merges that follow the cases merge keep every row they start from. */
  lemma JoinChainCoversAnchors(cs: seq<CasesRow>, mobility: KeyedTable, age: StaticTable, reference: StaticTable,
                               excess: seq<ExcessRow>)
    ensures forall r :: r in cs ==> exists o :: o in JoinChain(cs, mobility, age, reference, excess) && AnchorOf(o) == r.anchor
  {
    var j2 := LeftJoin(cs, mobility.rows, CasesKey, KeyedKey);
    var j3 := LeftJoin(j2, age.rows, MobilityIso, StaticKey);
    var j4 := LeftJoin(j3, reference.rows, AgeIso, StaticKey);
    var j5 := LeftJoin(j4, excess, ReferenceKey, ExcessKey);
    var out := JoinChain(cs, mobility, age, reference, excess);
    forall r | r in cs ensures exists o :: o in out && AnchorOf(o) == r.anchor {
      var i2 := JoinWitness(cs, mobility.rows, CasesKey, KeyedKey, r);
      var i3 := JoinWitness(j2, age.rows, MobilityIso, StaticKey, j2[i2]);
      var i4 := JoinWitness(j3, reference.rows, AgeIso, StaticKey, j3[i3]);
      var i := JoinWitness(j4, excess, ReferenceKey, ExcessKey, j4[i4]);
      assert out[i] in out && AnchorOf(out[i]) == r.anchor;
    }
  }

  /** The cases merge and the merges after it keep every interventions row, and add no row that
      does not extend one. */
  lemma MergesKeepAnchors(iv: seq<InterventionRow>, cases: KeyedTable, mobility: KeyedTable, age: StaticTable,
                          reference: StaticTable, excess: seq<ExcessRow>)
    ensures var out := JoinChain(CasesMerge(iv, cases), mobility, age, reference, excess);
      (forall x :: x in iv ==> exists o :: o in out && AnchorOf(o) == x) &&
      (forall o :: o in out ==> AnchorOf(o) in iv)
  {
    var cs := CasesMerge(iv, cases);
    var out := JoinChain(cs, mobility, age, reference, excess);
    CasesMergeAnchors(iv, cases);
    JoinChainFromAnchors(cs, mobility, age, reference, excess);
    JoinChainCoversAnchors(cs, mobility, age, reference, excess);
    AnchorsCompose(iv, cs, out);
  }

  /** Two stages that each keep and only extend their input rows, composed. */
  lemma AnchorsCompose(iv: seq<InterventionRow>, cs: seq<CasesRow>, out: seq<CombinedRow>)
    requires forall x :: x in iv ==> exists r :: r in cs && r.anchor == x
    requires forall r :: r in cs ==> r.anchor in iv
    requires forall r :: r in cs ==> exists o :: o in out && AnchorOf(o) == r.anchor
    requires forall o :: o in out ==> exists r :: r in cs && AnchorOf(o) == r.anchor
    ensures forall x :: x in iv ==> exists o :: o in out && AnchorOf(o) == x
    ensures forall o :: o in out ==> AnchorOf(o) in iv
  {
    forall x | x in iv ensures exists o :: o in out && AnchorOf(o) == x {
      var r :| r in cs && r.anchor == x;
    }
    forall o | o in out ensures AnchorOf(o) in iv {
      var r :| r in cs && AnchorOf(o) == r.anchor;
    }
  }

  /** The combined table keeps every interventions row, and holds no row that does not extend one. */
  lemma CreateDataKeepsAnchors(s: Sources)
    requires CreateData(s).Ok?
    ensures forall x :: x in InterventionsData(s.policies, s.masks) ==>
      exists o :: o in CreateData(s).value && AnchorOf(o) == x
    ensures forall o :: o in CreateData(s).value ==> AnchorOf(o) in InterventionsData(s.policies, s.masks)
  {
    var iv := InterventionsData(s.policies, s.masks);
    var ex := ExcessMortalityData(s.economist, s.eurostats).value;
    assert CreateData(s).value == JoinChain(CasesMerge(iv, s.cases), s.mobility, s.age, s.reference, ex);
    MergesKeepAnchors(iv, s.cases, s.mobility, s.age, s.reference, ex);
  }

  /** With one row per key in every right table, each merge after the cases merge pairs row `i` with
      the one row `Lookup` finds. */
  lemma JoinChainOneForOne(cs: seq<CasesRow>, mobility: KeyedTable, age: StaticTable, reference: StaticTable,
                           excess: seq<ExcessRow>)
    requires UniqueBy(mobility.rows, KeyedKey) && UniqueBy(age.rows, StaticKey) && UniqueBy(reference.rows, StaticKey)
    requires UniqueBy(excess, ExcessKey)
    ensures var out := JoinChain(cs, mobility, age, reference, excess);
      |out| == |cs| &&
      forall i :: 0 <= i < |out| ==>
        out[i] == Flatten(((((cs[i], Lookup(mobility.rows, KeyedKey, CasesKey(cs[i]))),
                             Lookup(age.rows, StaticKey, cs[i].anchor.iso)),
                            Lookup(reference.rows, StaticKey, cs[i].anchor.iso)),
                           Lookup(excess, ExcessKey, CasesKey(cs[i]))),
                          mobility.width, age.width, reference.width)
  {
    var j2 := LeftJoin(cs, mobility.rows, CasesKey, KeyedKey);
    var j3 := LeftJoin(j2, age.rows, MobilityIso, StaticKey);
    var j4 := LeftJoin(j3, reference.rows, AgeIso, StaticKey);
    LeftJoinUnique(cs, mobility.rows, CasesKey, KeyedKey);
    LeftJoinUnique(j2, age.rows, MobilityIso, StaticKey);
    LeftJoinUnique(j3, reference.rows, AgeIso, StaticKey);
    LeftJoinUnique(j4, excess, ReferenceKey, ExcessKey);
  }

  /** With one row per key in every right table, the merges after the cases merge keep their input
      one for one and in order, and the excess columns come from the excess row with the same
      (ISO, DATE), or are missing when there is none. */
  lemma JoinChainUnique(cs: seq<CasesRow>, mobility: KeyedTable, age: StaticTable, reference: StaticTable,
                        excess: seq<ExcessRow>)
    requires UniqueBy(mobility.rows, KeyedKey) && UniqueBy(age.rows, StaticKey) && UniqueBy(reference.rows, StaticKey)
    requires UniqueBy(excess, ExcessKey)
    ensures var out := JoinChain(cs, mobility, age, reference, excess);
      |out| == |cs| &&
      (forall i :: 0 <= i < |out| ==> AnchorOf(out[i]) == cs[i].anchor && out[i].cases == cs[i].cases) &&
      (forall i, e :: 0 <= i < |out| && e in excess && ExcessKey(e) == CasesKey(cs[i]) ==>
        out[i].dailyAvg == e.dailyAvg && out[i].weekly == e.weekly) &&
      (forall i :: 0 <= i < |out| && (forall e :: e in excess ==> ExcessKey(e) != CasesKey(cs[i])) ==>
        out[i].dailyAvg.None? && out[i].weekly.None?)
  {
    JoinChainOneForOne(cs, mobility, age, reference, excess);
    var out := JoinChain(cs, mobility, age, reference, excess);
    forall i, e | 0 <= i < |out| && e in excess && ExcessKey(e) == CasesKey(cs[i])
      ensures out[i].dailyAvg == e.dailyAvg && out[i].weekly == e.weekly
    {
      LookupFinds(excess, ExcessKey, CasesKey(cs[i]), e);
    }
  }

  /** With one row per key in every source, the combined table has exactly one row per policy row,
      in order, carrying its country, date and name; so when the policy table has one row per
      (ISO, DATE), so has the combined table, as its (ISO, DATE) index promises. */
  lemma CreateDataOneRowPerPolicy(s: Sources)
    requires UniqueBy(s.masks, MaskKey) && UniqueBy(s.cases.rows, KeyedKey) && UniqueBy(s.mobility.rows, KeyedKey)
    requires UniqueBy(s.age.rows, StaticKey) && UniqueBy(s.reference.rows, StaticKey)
    requires UniqueBy(s.economist, EconomistKey) && UniqueBy(s.eurostats, EuroStatsKey)
    requires CreateData(s).Ok?
    ensures var out := CreateData(s).value;
      |out| == |s.policies.rows| &&
      (forall i :: 0 <= i < |out| ==>
        out[i].iso == s.policies.rows[i].iso && out[i].date == s.policies.rows[i].date &&
        out[i].countryName == s.policies.rows[i].countryName) &&
      (UniqueBy(s.policies.rows, PolicyKey) ==> UniqueBy(out, CombinedKey))
  {
    var iv := InterventionsData(s.policies, s.masks);
    var cs := CasesMerge(iv, s.cases);
    var ex := ExcessMortalityData(s.economist, s.eurostats).value;
    MergeMasksOneForOne(s.policies, s.masks);
    CasesMergeOneForOne(iv, s.cases);
    ExcessUnique(s.economist, s.eurostats);
    JoinChainOneForOne(cs, s.mobility, s.age, s.reference, ex);
    var out := CreateData(s).value;
    forall i | 0 <= i < |out|
      ensures out[i].iso == s.policies.rows[i].iso && out[i].date == s.policies.rows[i].date
      ensures out[i].countryName == s.policies.rows[i].countryName
    {
      assert AnchorOf(out[i]) == cs[i].anchor == iv[i];
    }
  }

  /** After the cases merge and the merges that follow it, with one row per key in every right
      table, the excess columns come from the excess row with the row's (ISO, DATE), or are missing. */
  lemma MergedExcessColumns(iv: seq<InterventionRow>, cases: KeyedTable, mobility: KeyedTable, age: StaticTable,
                            reference: StaticTable, ex: seq<ExcessRow>)
    requires UniqueBy(cases.rows, KeyedKey) && UniqueBy(mobility.rows, KeyedKey)
    requires UniqueBy(age.rows, StaticKey) && UniqueBy(reference.rows, StaticKey) && UniqueBy(ex, ExcessKey)
    ensures var out := JoinChain(CasesMerge(iv, cases), mobility, age, reference, ex);
      (forall i, e :: 0 <= i < |out| && e in ex && ExcessKey(e) == CombinedKey(out[i]) ==>
        out[i].dailyAvg == e.dailyAvg && out[i].weekly == e.weekly) &&
      (forall i :: 0 <= i < |out| && (forall e :: e in ex ==> ExcessKey(e) != CombinedKey(out[i])) ==>
        out[i].dailyAvg.None? && out[i].weekly.None?)
  {
    var cs := CasesMerge(iv, cases);
    JoinChainUnique(cs, mobility, age, reference, ex);
    var out := JoinChain(cs, mobility, age, reference, ex);
    forall i | 0 <= i < |out| ensures CombinedKey(out[i]) == CasesKey(cs[i]) {
      assert AnchorOf(out[i]) == cs[i].anchor;
    }
  }

  /** The excess columns of the combined table come from the reconciled excess row with the same
      (ISO, DATE), and are missing for days that table does not cover. */
  lemma CreateDataExcessColumns(s: Sources)
    requires UniqueBy(s.cases.rows, KeyedKey) && UniqueBy(s.mobility.rows, KeyedKey)
    requires UniqueBy(s.age.rows, StaticKey) && UniqueBy(s.reference.rows, StaticKey)
    requires UniqueBy(s.economist, EconomistKey) && UniqueBy(s.eurostats, EuroStatsKey)
    requires CreateData(s).Ok?
    ensures var out := CreateData(s).value;
            var ex := ExcessMortalityData(s.economist, s.eurostats).value;
      (forall i, e :: 0 <= i < |out| && e in ex && ExcessKey(e) == CombinedKey(out[i]) ==>
        out[i].dailyAvg == e.dailyAvg && out[i].weekly == e.weekly) &&
      (forall i :: 0 <= i < |out| && (forall e :: e in ex ==> ExcessKey(e) != CombinedKey(out[i])) ==>
        out[i].dailyAvg.None? && out[i].weekly.None?)
  {
    var iv := InterventionsData(s.policies, s.masks);
    var ex := ExcessMortalityData(s.economist, s.eurostats).value;
    ExcessUnique(s.economist, s.eurostats);
    assert CreateData(s).value == JoinChain(CasesMerge(iv, s.cases), s.mobility, s.age, s.reference, ex);
    MergedExcessColumns(iv, s.cases, s.mobility, s.age, s.reference, ex);
  }

  // ---------------------------------------------------------------------------------------------
  // The process-wide cache
  // ---------------------------------------------------------------------------------------------

  /** The class `Combined`; one object stands for the class-level `_data` slot. */
  class Combined {
    var data: Option<seq<CombinedRow>>

    /** The class attribute starts as None. */
    constructor ()
      ensures data == None
    {
      data := None;
    }

    /** `__init__(force_load)`: the table is rebuilt exactly when none is stored or a rebuild is
        forced. `upstream` is what the adapters deliver, None when one of them fails. The slot is
        assigned only once a build has returned, so a failed build leaves it as it was. */
    method Init(forceLoad: bool, upstream: Option<Sources>) returns (failure: Option<BuildError>)
      modifies this
      ensures old(data).Some? && !forceLoad ==> failure == None && data == old(data)
      ensures (old(data).None? || forceLoad) && upstream.None? ==> failure == Some(SourceFailure) && data == old(data)
      ensures (old(data).None? || forceLoad) && upstream.Some? ==>
        match CreateData(upstream.value)
        case Ok(rows) => failure == None && data == Some(rows)
        case Err(e) => failure == Some(e) && data == old(data)
    {
      failure := None;
      if data.None? || forceLoad {
        if upstream.None? {
          failure := Some(SourceFailure);
        } else {
          var built := CreateData(upstream.value);
          if built.Ok? {
            data := Some(built.value);
          } else {
            failure := Some(built.error);
          }
        }
      }
    }

    /** `get_data`: the stored table, unchanged; repeated calls return the same table. */
    method GetData() returns (r: Option<seq<CombinedRow>>)
      ensures r == data
    {
      r := data;
    }
  }
}
