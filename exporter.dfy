/** The figures computed by `export_to_excel`: the rows of the `Hours`
    sheet, the monthly, per-type and count accumulators, the monthly table
    with averages and the year-to-date total of the `Summary` sheet.
    Workbook formatting, charts and saving the file are not modelled; the
    outcome is the content of the two sheets, or the failure reported to the
    user when a date does not parse. */
module ExcelExporter {
  import opened Basics
  import opened Lexicographic
  import opened Dates
  import opened Entries

  /** A `defaultdict(float)` with string keys: its keys in insertion order and its contents. */
  datatype FloatDict = FloatDict(keys: seq<string>, values: map<string, real>) {
    ghost predicate Valid() {
      Distinct(keys) && forall k :: k in values <==> k in keys
    }

    /** `d[k]`: the stored value, or the default `0.0`. */
    function Get(k: string): real {
      if k in values then values[k] else 0.0
    }

    /** `d[k] = v`: a new key goes last; an existing key keeps its place. */
    function Put(k: string, v: real): FloatDict {
      if k in values then FloatDict(keys, values[k := v]) else FloatDict(keys + [k], values[k := v])
    }

    /** `d[k] = v` keeps a dict well formed, and adds `k` last when it is new. */
    lemma PutValid(k: string, v: real)
      requires Valid()
      ensures Put(k, v).Valid()
      ensures Put(k, v).keys == if k in values then keys else keys + [k]
      ensures Put(k, v).values == values[k := v]
    {
      if k !in values {
        assert forall i :: 0 <= i < |keys| ==> keys[i] != k;
      }
    }
  }

  /** A `defaultdict(int)` with string keys: its keys in insertion order and its contents. */
  datatype IntDict = IntDict(keys: seq<string>, values: map<string, int>) {
    ghost predicate Valid() {
      Distinct(keys) && forall k :: k in values <==> k in keys
    }

    /** `d[k]`: the stored value, or the default `0`. */
    function Get(k: string): int {
      if k in values then values[k] else 0
    }

    /** `d[k] = v`: a new key goes last; an existing key keeps its place. */
    function Put(k: string, v: int): IntDict {
      if k in values then IntDict(keys, values[k := v]) else IntDict(keys + [k], values[k := v])
    }

    /** `d[k] = v` keeps a dict well formed, and adds `k` last when it is new. */
    lemma PutValid(k: string, v: int)
      requires Valid()
      ensures Put(k, v).Valid()
      ensures Put(k, v).keys == if k in values then keys else keys + [k]
      ensures Put(k, v).values == values[k := v]
    {
      if k !in values {
        assert forall i :: 0 <= i < |keys| ==> keys[i] != k;
      }
    }
  }

  /** The four accumulators of lines 44-47. */
  datatype Tallies = Tallies(monthlyHours: FloatDict, monthlyCounts: IntDict,
                             typeHours: FloatDict, typeTravel: FloatDict)

  /** A dict that maps each key of `s`, in first-occurrence order, to the sum of `m` over its group. */
  ghost predicate SumsByKey(d: FloatDict, s: seq<Entry>, key: Entry -> string, m: Measure) {
    d.Valid() && d.keys == Keys(s, key)
    && forall k :: k in d.values ==> d.values[k] == SumOf(Group(s, key, k), m)
  }

  /** A dict that maps each key of `s`, in first-occurrence order, to the number of its entries. */
  ghost predicate CountsByKey(d: IntDict, s: seq<Entry>, key: Entry -> string) {
    d.Valid() && d.keys == Keys(s, key)
    && forall k :: k in d.values ==> d.values[k] == |Group(s, key, k)|
  }

  /** What the accumulation loop has built from the entries `s`. */
  ghost predicate TalliesOf(t: Tallies, s: seq<Entry>) {
    && SumsByKey(t.monthlyHours, s, MonthOf, Total)
    && CountsByKey(t.monthlyCounts, s, MonthOf)
    && SumsByKey(t.typeHours, s, TypeOf, Hours)
    && SumsByKey(t.typeTravel, s, TypeOf, Travel)
  }

  lemma {:induction false} GroupOfAbsentKey(s: seq<Entry>, key: Entry -> string, k: string)
    requires forall i :: 0 <= i < |s| ==> key(s[i]) != k
    ensures Group(s, key, k) == []
  {
    if s != [] {
      var p := s[..|s| - 1];
      assert forall i :: 0 <= i < |p| ==> p[i] == s[i];
      GroupOfAbsentKey(p, key, k);
    }
  }

  lemma {:induction false} GroupWitness(s: seq<Entry>, key: Entry -> string, k: string)
    requires Group(s, key, k) != []
    ensures exists i :: 0 <= i < |s| && key(s[i]) == k
  {
    var p, e := s[..|s| - 1], s[|s| - 1];
    if key(e) != k {
      assert Group(s, key, k) == Group(p, key, k) + [];
      GroupWitness(p, key, k);
      var i :| 0 <= i < |p| && key(p[i]) == k;
      assert s[i] == p[i];
    }
  }

  /** The keys of a non-empty list: those of all but its last entry, then that entry's key if new. */
  lemma KeysLast(s: seq<Entry>, key: Entry -> string)
    requires s != []
    ensures var ks, k := Keys(s[..|s| - 1], key), key(s[|s| - 1]);
            Keys(s, key) == if k in ks then ks else ks + [k]
  {
  }

  /** A key that is not among the keys of `s` has an empty group. */
  lemma AbsentKeyGroup(s: seq<Entry>, key: Entry -> string, k: string)
    requires k !in Keys(s, key)
    ensures Group(s, key, k) == []
  {
    KeysCover(s, key);
    GroupOfAbsentKey(s, key, k);
  }

  /** The group of key `k` after one more entry, given the group before it. */
  lemma GroupLast(s: seq<Entry>, key: Entry -> string, k: string, m: Measure)
    requires s != []
    ensures var p, e := s[..|s| - 1], s[|s| - 1];
            && SumOf(Group(s, key, k), m) == SumOf(Group(p, key, k), m) + (if key(e) == k then ValueOf(e, m) else 0.0)
            && |Group(s, key, k)| == |Group(p, key, k)| + (if key(e) == k then 1 else 0)
  {
    var p, e := s[..|s| - 1], s[|s| - 1];
    assert s == p + [e];
    GroupSnocSum(p, e, key, k, m);
  }

  /** The dict that `d[key(e)] += measure(e)` builds over the first `n` entries of `s`. */
  function SumDict(s: seq<Entry>, n: nat, key: Entry -> string, m: Measure): FloatDict
    requires n <= |s|
  {
    if n == 0 then FloatDict([], map[])
    else
      var d, k := SumDict(s, n - 1, key, m), key(s[n - 1]);
      d.Put(k, d.Get(k) + ValueOf(s[n - 1], m))
  }

  /** The dict that `d[key(e)] += 1` builds over the first `n` entries of `s`. */
  function CountDict(s: seq<Entry>, n: nat, key: Entry -> string): IntDict
    requires n <= |s|
  {
    if n == 0 then IntDict([], map[])
    else
      var d, k := CountDict(s, n - 1, key), key(s[n - 1]);
      d.Put(k, d.Get(k) + 1)
  }

  /** Adding the last entry of `p` to a sum dict of the entries before it gives
      `d2`, a sum dict of `p`. The new dict is a parameter equal to the `Put`
      rather than written out in the `ensures`, so that callers name it once
      and the solver does not unfold the `Put` at each use. */
  lemma SumsByKeyStep(d: FloatDict, p: seq<Entry>, key: Entry -> string, m: Measure, d2: FloatDict)
    requires p != [] && SumsByKey(d, p[..|p| - 1], key, m)
    requires d2 == d.Put(key(p[|p| - 1]), d.Get(key(p[|p| - 1])) + ValueOf(p[|p| - 1], m))
    ensures SumsByKey(d2, p, key, m)
  {
    var e := p[|p| - 1];
    d.PutValid(key(e), d.Get(key(e)) + ValueOf(e, m));
    KeysLast(p, key);
    assert d2.keys == Keys(p, key);
    forall k | k in d2.values ensures d2.values[k] == SumOf(Group(p, key, k), m) {
      SumsByKeyAt(d, p, key, m, k);
    }
  }

  /** The value of one key after that step. */
  lemma SumsByKeyAt(d: FloatDict, p: seq<Entry>, key: Entry -> string, m: Measure, k': string)
    requires p != [] && SumsByKey(d, p[..|p| - 1], key, m)
    requires k' in d.Put(key(p[|p| - 1]), d.Get(key(p[|p| - 1])) + ValueOf(p[|p| - 1], m)).values
    ensures d.Put(key(p[|p| - 1]), d.Get(key(p[|p| - 1])) + ValueOf(p[|p| - 1], m)).values[k'] == SumOf(Group(p, key, k'), m)
  {
    var q, e := p[..|p| - 1], p[|p| - 1];
    var k := key(e);
    GroupLast(p, key, k', m);
    if k' != k {
      assert k' in d.values;
    } else if k !in d.values {
      AbsentKeyGroup(q, key, k);
    }
  }

  /** Adding the last entry of `p` to a count dict of the entries before it gives
      `d2`, a count dict of `p` (`d2` is a parameter for the same reason as in
      `SumsByKeyStep`). */
  lemma CountsByKeyStep(d: IntDict, p: seq<Entry>, key: Entry -> string, d2: IntDict)
    requires p != [] && CountsByKey(d, p[..|p| - 1], key)
    requires d2 == d.Put(key(p[|p| - 1]), d.Get(key(p[|p| - 1])) + 1)
    ensures CountsByKey(d2, p, key)
  {
    var q, e := p[..|p| - 1], p[|p| - 1];
    var k := key(e);
    d.PutValid(k, d.Get(k) + 1);
    KeysLast(p, key);
    assert d2.keys == Keys(p, key);
    forall k' | k' in d2.values ensures d2.values[k'] == |Group(p, key, k')| {
      GroupLast(p, key, k', Total);
      if k' != k {
        assert k' in d.values;
      } else if k !in d.values {
        AbsentKeyGroup(q, key, k);
      }
    }
  }

  /** A sum dict maps each key, in first-occurrence order, to the sum over its group. */
  lemma {:induction false} SumDictSums(s: seq<Entry>, n: nat, key: Entry -> string, m: Measure)
    requires n <= |s|
    ensures SumsByKey(SumDict(s, n, key, m), s[..n], key, m)
  {
    if n > 0 {
      SumDictSums(s, n - 1, key, m);
      var p, d := s[..n], SumDict(s, n - 1, key, m);
      assert p[..n - 1] == s[..n - 1] && p[|p| - 1] == s[n - 1];
      SumDictNext(s, n - 1, key, m, key(s[n - 1]), ValueOf(s[n - 1], m), d);
      SumsByKeyStep(d, p, key, m, SumDict(s, n, key, m));
    }
  }

  /** A count dict maps each key, in first-occurrence order, to the number of its entries. */
  lemma {:induction false} CountDictCounts(s: seq<Entry>, n: nat, key: Entry -> string)
    requires n <= |s|
    ensures CountsByKey(CountDict(s, n, key), s[..n], key)
  {
    if n > 0 {
      CountDictCounts(s, n - 1, key);
      var p, d := s[..n], CountDict(s, n - 1, key);
      assert p[..n - 1] == s[..n - 1] && p[|p| - 1] == s[n - 1];
      assert CountDict(s, n, key) == d.Put(key(s[n - 1]), d.Get(key(s[n - 1])) + 1);
      CountsByKeyStep(d, p, key, CountDict(s, n, key));
    }
  }

  /** The four dicts the accumulation loop builds over the first `n` entries of `s`. */
  function TalliesFor(s: seq<Entry>, n: nat): Tallies
    requires n <= |s|
  {
    Tallies(SumDict(s, n, MonthOf, Total), CountDict(s, n, MonthOf), SumDict(s, n, TypeOf, Hours), SumDict(s, n, TypeOf, Travel))
  }

  /** What the accumulation loop computes: the four dicts hold the sums and counts by key. */
  lemma TalliesForMeaning(s: seq<Entry>)
    ensures TalliesOf(TalliesFor(s, |s|), s)
  {
    assert s[..|s|] == s;
    SumDictSums(s, |s|, MonthOf, Total);
    CountDictCounts(s, |s|, MonthOf);
    SumDictSums(s, |s|, TypeOf, Hours);
    SumDictSums(s, |s|, TypeOf, Travel);
  }

  lemma SumDictKeys(s: seq<Entry>, key: Entry -> string, m: Measure)
    ensures SumDict(s, |s|, key, m).Valid() && SumDict(s, |s|, key, m).keys == Keys(s, key)
  {
    assert s[..|s|] == s;
    SumDictSums(s, |s|, key, m);
  }

  /** The index of the first entry whose date strptime rejects. */
  ghost predicate FirstBadDate(entries: seq<Entry>, i: int) {
    0 <= i < |entries| && ParseDate(entries[i].date).None?
    && forall j :: 0 <= j < i ==> ParseDate(entries[j].date).Some?
  }

  /** The first `n` dates of `s` all parse. */
  ghost predicate DatesParse(s: seq<Entry>, n: nat)
    requires n <= |s|
  {
    n == 0 || (DatesParse(s, n - 1) && ParseDate(s[n - 1].date).Some?)
  }

  lemma {:induction false} DatesParseAll(s: seq<Entry>, n: nat)
    requires n <= |s|
    ensures DatesParse(s, n) <==> forall j :: 0 <= j < n ==> ParseDate(s[j].date).Some?
  {
    if n > 0 {
      DatesParseAll(s, n - 1);
    }
  }

  /** Line 52: `date_obj.strftime("%Y-%m")` of the date strptime read from `date`
      is the month key written in `date` itself. */
  method StrftimeMonth(date: string, d: Date) returns (k: string)
    requires ParseDate(date) == Some(d)
    ensures k == MonthKeyOf(date)
  {
    k := RenderMonth(d);
    MonthKeyOfParsed(date);
  }

  /** One more entry adds its value under its key. */
  lemma SumDictNext(s: seq<Entry>, n: nat, key: Entry -> string, m: Measure, k: string, v: real, d: FloatDict)
    requires n < |s| && k == key(s[n]) && v == ValueOf(s[n], m) && d == SumDict(s, n, key, m)
    ensures SumDict(s, n + 1, key, m) == d.Put(k, d.Get(k) + v)
  {
  }

  /** One more entry counts once under its key. */
  lemma CountDictNext(s: seq<Entry>, n: nat, key: Entry -> string, k: string, d: IntDict)
    requires n < |s| && k == key(s[n]) && d == CountDict(s, n, key)
    ensures CountDict(s, n + 1, key) == d.Put(k, d.Get(k) + 1)
  {
  }

  /** Lines 53-56: the four `+=` of one loop step, which extend the four
      dicts from the first `i` entries to the first `i + 1`. */
  method AddEntry(entries: seq<Entry>, i: nat, monthKey: string,
                  monthlyHours: FloatDict, monthlyCounts: IntDict, typeHours: FloatDict, typeTravel: FloatDict)
    returns (monthlyHours': FloatDict, monthlyCounts': IntDict, typeHours': FloatDict, typeTravel': FloatDict)
    requires i < |entries| && monthKey == MonthOf(entries[i])
    requires monthlyHours == SumDict(entries, i, MonthOf, Total)
    requires monthlyCounts == CountDict(entries, i, MonthOf)
    requires typeHours == SumDict(entries, i, TypeOf, Hours)
    requires typeTravel == SumDict(entries, i, TypeOf, Travel)
    ensures monthlyHours' == SumDict(entries, i + 1, MonthOf, Total)
    ensures monthlyCounts' == CountDict(entries, i + 1, MonthOf)
    ensures typeHours' == SumDict(entries, i + 1, TypeOf, Hours)
    ensures typeTravel' == SumDict(entries, i + 1, TypeOf, Travel)
  {
    var entry := entries[i];
    var total := entry.hours + entry.travel;
    SumDictNext(entries, i, MonthOf, Total, monthKey, total, monthlyHours);
    monthlyHours' := monthlyHours.Put(monthKey, monthlyHours.Get(monthKey) + total);
    CountDictNext(entries, i, MonthOf, monthKey, monthlyCounts);
    monthlyCounts' := monthlyCounts.Put(monthKey, monthlyCounts.Get(monthKey) + 1);
    SumDictNext(entries, i, TypeOf, Hours, entry.kind, entry.hours, typeHours);
    typeHours' := typeHours.Put(entry.kind, typeHours.Get(entry.kind) + entry.hours);
    SumDictNext(entries, i, TypeOf, Travel, entry.kind, entry.travel, typeTravel);
    typeTravel' := typeTravel.Put(entry.kind, typeTravel.Get(entry.kind) + entry.travel);
  }

  datatype Accumulated = Tallied(tallies: Tallies) | BadDate(date: string)

  /** Lines 44-56: one pass over the entries fills the four dicts; the first
      date strptime rejects raises, and the export stops there. */
  method Accumulate(entries: seq<Entry>) returns (r: Accumulated)
    ensures r.BadDate? <==> exists i :: 0 <= i < |entries| && ParseDate(entries[i].date).None?
    ensures r.BadDate? ==> exists i :: FirstBadDate(entries, i) && entries[i].date == r.date
    ensures r.Tallied? ==> r.tallies == TalliesFor(entries, |entries|)
  {
    var monthlyHours: FloatDict := FloatDict([], map[]);
    var monthlyCounts: IntDict := IntDict([], map[]);
    var typeHours: FloatDict := FloatDict([], map[]);
    var typeTravel: FloatDict := FloatDict([], map[]);
    for i := 0 to |entries|
      invariant DatesParse(entries, i)
      invariant monthlyHours == SumDict(entries, i, MonthOf, Total)
      invariant monthlyCounts == CountDict(entries, i, MonthOf)
      invariant typeHours == SumDict(entries, i, TypeOf, Hours)
      invariant typeTravel == SumDict(entries, i, TypeOf, Travel)
    {
      var entry := entries[i];
      var dateObj := ParseDate(entry.date);
      if dateObj.None? {
        DatesParseAll(entries, i);
        assert FirstBadDate(entries, i);
        return BadDate(entry.date);
      }
      var monthKey := StrftimeMonth(entry.date, dateObj.value);
      monthlyHours, monthlyCounts, typeHours, typeTravel :=
        AddEntry(entries, i, monthKey, monthlyHours, monthlyCounts, typeHours, typeTravel);
    }
    DatesParseAll(entries, |entries|);
    return Tallied(Tallies(monthlyHours, monthlyCounts, typeHours, typeTravel));
  }

  /** A row of the monthly table: month, total hours including travel, entry count, average. */
  datatype MonthRow = MonthRow(month: string, total: real, count: int, average: real)

  function MonthsOf(rows: seq<MonthRow>): (r: seq<string>)
    ensures |r| == |rows| && forall j :: 0 <= j < |rows| ==> r[j] == rows[j].month
  {
    if rows == [] then [] else [rows[0].month] + MonthsOf(rows[1..])
  }

  /** Line 62: `total / count if count else 0`. */
  function Average(total: real, count: int): (r: real)
    ensures count == 0 ==> r == 0.0
    ensures count != 0 ==> r * (count as real) == total
  {
    if count != 0 then total / (count as real) else 0.0
  }

  /** `row` is the line of the monthly sheet that the two monthly dicts give for its month. */
  ghost predicate MonthRowFrom(row: MonthRow, monthlyHours: FloatDict, monthlyCounts: IntDict) {
    && row.month in monthlyHours.values
    && row.total == monthlyHours.values[row.month]
    && row.count == monthlyCounts.Get(row.month)
    && row.average == Average(row.total, row.count)
  }

  /** Lines 59-64: the months in ascending order, each with its total, its
      count and `total / count` (0 for a month without a count). */
  method MonthlyRows(monthlyHours: FloatDict, monthlyCounts: IntDict) returns (rows: seq<MonthRow>)
    requires monthlyHours.Valid()
    ensures StrictlyAscending(MonthsOf(rows))
    ensures forall k :: k in MonthsOf(rows) <==> k in monthlyHours.keys
    ensures forall j :: 0 <= j < |rows| ==> MonthRowFrom(rows[j], monthlyHours, monthlyCounts)
  {
    var months := SortAscending(monthlyHours.keys);
    SortDistinctIsStrict(monthlyHours.keys);
    rows := [];
    for i := 0 to |months|
      invariant |rows| == i
      invariant forall j :: 0 <= j < i ==> rows[j].month == months[j] && MonthRowFrom(rows[j], monthlyHours, monthlyCounts)
    {
      var month := months[i];
      var total := monthlyHours.values[month];
      var count := monthlyCounts.Get(month);
      var avg := if count != 0 then total / (count as real) else 0.0;
      rows := rows + [MonthRow(month, total, count, avg)];
    }
    assert MonthsOf(rows) == months;
  }

  /** The value the year-to-date loop adds up over the keys `ks`: the entries
      of the keys whose year part reads as `year`. */
  function YearSum(d: FloatDict, ks: seq<string>, year: int): real {
    if ks == [] then 0.0
    else YearSum(d, ks[..|ks| - 1], year)
         + (if YearOfKey(ks[|ks| - 1]) == Some(year) then d.Get(ks[|ks| - 1]) else 0.0)
  }

  /** Lines 67-72: the monthly totals of the months whose year part,
      read with `int`, is the current year; `None` stands for the ValueError
      `int` would raise on a key without a number before its dash. */
  method YearToDate(monthlyHours: FloatDict, currentYear: int) returns (r: Option<real>)
    requires monthlyHours.Valid()
    ensures r.None? <==> exists k :: k in monthlyHours.keys && YearOfKey(k).None?
    ensures r.Some? ==> r.value == YearSum(monthlyHours, monthlyHours.keys, currentYear)
  {
    var ks := monthlyHours.keys;
    var ytd := 0.0;
    for i := 0 to |ks|
      invariant forall j :: 0 <= j < i ==> YearOfKey(ks[j]).Some?
      invariant ytd == YearSum(monthlyHours, ks[..i], currentYear)
    {
      var month := ks[i];
      var year := YearOfKey(month);
      if year.None? {
        return None;
      }
      assert ks[..i + 1][..i] == ks[..i];
      if year.value == currentYear {
        ytd := ytd + monthlyHours.values[month];
      }
    }
    assert ks[..|ks|] == ks;
    return Some(ytd);
  }

  /** Lines 98-101: one row per key of `type_hours`, in its order, with the
      hours and `type_travel[t]`. */
  method TypeRows(typeHours: FloatDict, typeTravel: FloatDict) returns (rows: seq<TypeTotals>)
    requires typeHours.Valid()
    ensures KindsOf(rows) == typeHours.keys
    ensures forall j :: 0 <= j < |rows| ==>
              rows[j].hours == typeHours.values[rows[j].kind] && rows[j].travel == typeTravel.Get(rows[j].kind)
  {
    var ks := typeHours.keys;
    rows := [];
    for i := 0 to |ks|
      invariant |rows| == i
      invariant forall j :: 0 <= j < i ==>
                  rows[j].kind == ks[j] && rows[j].hours == typeHours.values[ks[j]]
                  && rows[j].travel == typeTravel.Get(ks[j])
    {
      var t := ks[i];
      rows := rows + [TypeTotals(t, typeHours.values[t], typeTravel.Get(t))];
    }
  }

  /** The entries whose date falls in `year`. */
  function InYear(s: seq<Entry>, year: int): seq<Entry> {
    if s == [] then []
    else InYear(s[..|s| - 1], year) + (if YearOfDate(s[|s| - 1].date) == Some(year) then [s[|s| - 1]] else [])
  }

  /** Marks the entries dated in `year`, so that `InYear` is a selection by key. */
  function YearMark(year: int): Entry -> string {
    (e: Entry) => if YearOfDate(e.date) == Some(year) then "in" else ""
  }

  /** The entries of a year are the selection of the marked ones. */
  lemma {:induction false} InYearIsSelect(s: seq<Entry>, year: int)
    ensures InYear(s, year) == Select(s, YearMark(year), {"in"})
  {
    if s != [] {
      InYearIsSelect(s[..|s| - 1], year);
      assert YearMark(year)(s[|s| - 1]) in {"in"} <==> YearOfDate(s[|s| - 1].date) == Some(year);
    }
  }

  /** With no negative hours or travel, the year-to-date total is at most the overall total. */
  lemma InYearBounded(s: seq<Entry>, year: int)
    requires NonNegative(s)
    ensures 0.0 <= SumOf(InYear(s, year), Total) <= SumOf(s, Total)
  {
    InYearIsSelect(s, year);
    SelectBounded(s, YearMark(year), {"in"}, Total);
  }

  lemma {:induction false} GroupSumWhereSnocKey(s: seq<Entry>, key: Entry -> string, ks: seq<string>, k: string, sel: set<string>, m: Measure)
    ensures GroupSumWhere(s, key, ks + [k], sel, m)
         == GroupSumWhere(s, key, ks, sel, m) + (if k in sel then SumOf(Group(s, key, k), m) else 0.0)
  {
    if ks == [] {
      assert [] + [k] == [k];
      assert [k][1..] == [];
    } else {
      assert (ks + [k])[1..] == ks[1..] + [k];
      GroupSumWhereSnocKey(s, key, ks[1..], k, sel, m);
    }
  }

  /** The year-to-date sum over a month dict is a restricted group sum. */
  lemma {:induction false} YearSumIsGroupSum(d: FloatDict, s: seq<Entry>, ks: seq<string>, year: int, sel: set<string>)
    requires forall k :: k in ks ==> k in d.values && d.values[k] == SumOf(Group(s, MonthOf, k), Total)
    requires forall k :: k in ks ==> (k in sel <==> YearOfKey(k) == Some(year))
    ensures YearSum(d, ks, year) == GroupSumWhere(s, MonthOf, ks, sel, Total)
  {
    if ks != [] {
      var p, k := ks[..|ks| - 1], ks[|ks| - 1];
      assert ks == p + [k];
      YearSumIsGroupSum(d, s, p, year, sel);
      GroupSumWhereSnocKey(s, MonthOf, p, k, sel, Total);
    }
  }

  /** Picking the months of `year` picks the entries of `year`. */
  lemma {:induction false} SelectMonthsIsInYear(s: seq<Entry>, ks: seq<string>, year: int, sel: set<string>)
    requires forall i :: 0 <= i < |s| ==> ParseDate(s[i].date).Some? && MonthOf(s[i]) in ks
    requires forall k :: k in ks ==> (k in sel <==> YearOfKey(k) == Some(year))
    ensures Select(s, MonthOf, sel) == InYear(s, year)
  {
    if s != [] {
      var p, e := s[..|s| - 1], s[|s| - 1];
      assert forall i :: 0 <= i < |p| ==> p[i] == s[i];
      SelectMonthsIsInYear(p, ks, year, sel);
      YearOfMonthKey(e.date);
    }
  }

  /** The year-to-date figure of the monthly dict is the total of the entries dated in that year. */
  lemma YearToDateOfEntries(s: seq<Entry>, year: int)
    requires forall i :: 0 <= i < |s| ==> ParseDate(s[i].date).Some?
    ensures YearSum(SumDict(s, |s|, MonthOf, Total), Keys(s, MonthOf), year) == SumOf(InYear(s, year), Total)
  {
    var d, ks := SumDict(s, |s|, MonthOf, Total), Keys(s, MonthOf);
    assert s[..|s|] == s;
    SumDictSums(s, |s|, MonthOf, Total);
    var sel := set k | k in ks && YearOfKey(k) == Some(year);
    YearSumIsGroupSum(d, s, ks, year, sel);
    KeysCover(s, MonthOf);
    GroupSumWhereConserves(s, MonthOf, ks, sel, Total);
    SelectMonthsIsInYear(s, ks, year, sel);
  }

  /** Every month key of parsable dates has a year part that reads as a number. */
  lemma MonthKeysHaveYears(s: seq<Entry>)
    requires forall i :: 0 <= i < |s| ==> ParseDate(s[i].date).Some?
    ensures forall k :: k in Keys(s, MonthOf) ==> YearOfKey(k).Some?
  {
    KeysOccur(s, MonthOf);
    forall k | k in Keys(s, MonthOf) ensures YearOfKey(k).Some? {
      GroupWitness(s, MonthOf, k);
      var i :| 0 <= i < |s| && MonthOf(s[i]) == k;
      YearOfMonthKey(s[i].date);
    }
  }

  function MonthsTotal(rows: seq<MonthRow>): real {
    if rows == [] then 0.0 else rows[0].total + MonthsTotal(rows[1..])
  }

  function MonthsCount(rows: seq<MonthRow>): int {
    if rows == [] then 0 else rows[0].count + MonthsCount(rows[1..])
  }

  /** `rows` is the monthly table of `s`: months strictly ascending, exactly the
      months that occur, each with the total and number of its entries (at
      least one) and their quotient. */
  ghost predicate MonthTableOf(rows: seq<MonthRow>, s: seq<Entry>) {
    && StrictlyAscending(MonthsOf(rows))
    && (forall k :: k in MonthsOf(rows) <==> exists i :: 0 <= i < |s| && MonthOf(s[i]) == k)
    && (forall j :: 0 <= j < |rows| ==>
          && rows[j].total == SumOf(Group(s, MonthOf, rows[j].month), Total)
          && rows[j].count == |Group(s, MonthOf, rows[j].month)|
          && rows[j].count >= 1
          && rows[j].average == Average(rows[j].total, rows[j].count))
  }

  lemma {:induction false} MonthRowsAreGroupSums(rows: seq<MonthRow>, s: seq<Entry>)
    requires forall j :: 0 <= j < |rows| ==>
               rows[j].total == SumOf(Group(s, MonthOf, rows[j].month), Total)
               && rows[j].count == |Group(s, MonthOf, rows[j].month)|
    ensures MonthsTotal(rows) == GroupSum(s, MonthOf, MonthsOf(rows), Total)
    ensures MonthsCount(rows) == GroupCount(s, MonthOf, MonthsOf(rows))
  {
    if rows != [] {
      MonthRowsAreGroupSums(rows[1..], s);
      assert MonthsOf(rows)[1..] == MonthsOf(rows[1..]);
    }
  }

  /** The monthly table adds up: its counts to the number of entries, its
      totals to the hours and travel of all entries. */
  lemma MonthTableAddsUp(rows: seq<MonthRow>, s: seq<Entry>)
    requires MonthTableOf(rows, s)
    ensures MonthsCount(rows) == |s|
    ensures MonthsTotal(rows) == SumOf(s, Total)
  {
    var ms := MonthsOf(rows);
    assert Distinct(ms);
    forall i | 0 <= i < |s| ensures MonthOf(s[i]) in ms {
      var k := MonthOf(s[i]);
      assert 0 <= i < |s| && MonthOf(s[i]) == k;
      assert k in ms;
    }
    MonthRowsAreGroupSums(rows, s);
    GroupSumConserves(s, MonthOf, ms, Total);
  }

  /** The rows built from the monthly dicts of `s` form its monthly table. */
  lemma MonthTableOfDicts(rows: seq<MonthRow>, s: seq<Entry>)
    requires StrictlyAscending(MonthsOf(rows))
    requires forall k :: k in MonthsOf(rows) <==> k in Keys(s, MonthOf)
    requires forall j :: 0 <= j < |rows| ==> MonthRowFrom(rows[j], SumDict(s, |s|, MonthOf, Total), CountDict(s, |s|, MonthOf))
    ensures MonthTableOf(rows, s)
  {
    assert s[..|s|] == s;
    SumDictSums(s, |s|, MonthOf, Total);
    CountDictCounts(s, |s|, MonthOf);
    KeysOccur(s, MonthOf);
    KeysCover(s, MonthOf);
    forall j | 0 <= j < |rows| ensures rows[j].count == |Group(s, MonthOf, rows[j].month)| >= 1 {
      assert MonthsOf(rows)[j] == rows[j].month;
    }
    forall k | k in MonthsOf(rows) ensures exists i :: 0 <= i < |s| && MonthOf(s[i]) == k {
      GroupWitness(s, MonthOf, k);
    }
  }

  /** The rows built from the per-type dicts of `s` form a type table of `s`. */
  lemma TypeTableOfDicts(rows: seq<TypeTotals>, s: seq<Entry>)
    requires KindsOf(rows) == Keys(s, TypeOf)
    requires forall j :: 0 <= j < |rows| ==>
               && rows[j].kind in SumDict(s, |s|, TypeOf, Hours).values
               && rows[j].hours == SumDict(s, |s|, TypeOf, Hours).values[rows[j].kind]
               && rows[j].travel == SumDict(s, |s|, TypeOf, Travel).Get(rows[j].kind)
    ensures TypeTableOf(rows, s)
  {
    assert s[..|s|] == s;
    SumDictSums(s, |s|, TypeOf, Hours);
    SumDictSums(s, |s|, TypeOf, Travel);
    KeysOccur(s, TypeOf);
    KindsCoverEntries(rows, s);
  }

  /** Rows whose kinds are the type keys have a row for every entry's type. */
  lemma KindsCoverEntries(rows: seq<TypeTotals>, s: seq<Entry>)
    requires KindsOf(rows) == Keys(s, TypeOf)
    ensures forall i :: 0 <= i < |s| ==> exists j :: 0 <= j < |rows| && rows[j].kind == s[i].kind
  {
    var ks := KindsOf(rows);
    KeysCover(s, TypeOf);
    forall i | 0 <= i < |s| ensures exists j :: 0 <= j < |rows| && rows[j].kind == s[i].kind {
      var k := s[i].kind;
      assert k == TypeOf(s[i]) && k in ks;
      var j :| 0 <= j < |ks| && ks[j] == k;
      assert rows[j].kind == k;
    }
  }

  /** The two sheets as far as their figures go. */
  datatype Workbook = Workbook(hours: seq<TotalRow>, months: seq<MonthRow>, ytd: real, types: seq<TypeTotals>)

  /** `Saved` when the workbook is written; `Failed` with the date that
      strptime rejected, when the error message is shown instead. */
  datatype ExportOutcome = Saved(book: Workbook) | Failed(badDate: string)

  /** Entries whose dates the form wrote (`yyyy-MM-dd`) all parse, so their
      export does not fail. */
  lemma IsoDatesParse(entries: seq<Entry>)
    requires forall i :: 0 <= i < |entries| ==> IsIsoDate(entries[i].date)
    ensures forall i :: 0 <= i < |entries| ==> ParseDate(entries[i].date).Some?
  {
    forall i | 0 <= i < |entries| ensures ParseDate(entries[i].date).Some? {
      ParseIsoDate(entries[i].date);
    }
  }

  /** `export_to_excel` with `datetime.now().year` passed in as `currentYear`. */
  method ExportToExcel(entries: seq<Entry>, currentYear: int) returns (r: ExportOutcome)
    ensures r.Failed? <==> exists i :: 0 <= i < |entries| && ParseDate(entries[i].date).None?
    ensures r.Failed? ==> exists i :: FirstBadDate(entries, i) && entries[i].date == r.badDate
    ensures r.Saved? ==> RowsOf(r.book.hours, entries)
    ensures r.Saved? ==> MonthTableOf(r.book.months, entries)
    ensures r.Saved? ==> MonthsCount(r.book.months) == |entries| && MonthsTotal(r.book.months) == SumOf(entries, Total)
    ensures r.Saved? ==> r.book.ytd == SumOf(InYear(entries, currentYear), Total)
    ensures r.Saved? ==> TypeTableOf(r.book.types, entries)
    ensures r.Saved? ==> KindsOf(r.book.types) == Keys(entries, TypeOf)
    ensures r.Saved? ==> RowsHours(r.book.types) == SumOf(entries, Hours) && RowsTravel(r.book.types) == SumOf(entries, Travel)
  {
    var hoursRows := TotalRows(entries);
    var acc := Accumulate(entries);
    if acc.BadDate? {
      return Failed(acc.date);
    }
    var t := acc.tallies;
    SumDictKeys(entries, MonthOf, Total);
    SumDictKeys(entries, TypeOf, Hours);
    var months := MonthlyRows(t.monthlyHours, t.monthlyCounts);
    MonthKeysHaveYears(entries);
    var ytd := YearToDate(t.monthlyHours, currentYear);
    YearToDateOfEntries(entries, currentYear);
    var types := TypeRows(t.typeHours, t.typeTravel);
    MonthTableOfDicts(months, entries);
    MonthTableAddsUp(months, entries);
    TypeTableOfDicts(types, entries);
    TypeTableAddsUp(types, entries);
    return Saved(Workbook(hoursRows, months, ytd.value, types));
  }
}
