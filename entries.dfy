/** The one entity of the tracker, a row of the `entries` table, and the
    accounting over lists of them that the summary query, the spreadsheet
    export and the summary label all share: sums of hours, of travel time
    or of both, and grouping by type or by month. */
module Entries {
  import opened Basics
  import Dates

  /** A row `(id, date, type, hours, travel_time)`; `type` is a Dafny keyword,
      so the category or custom tag is called `kind` here. */
  datatype Entry = Entry(id: int, date: string, kind: string, hours: real, travel: real)

  /** An entry displayed with its derived total, the `hours + travel` that is
      computed and never stored (table row or `Hours` sheet row). */
  datatype TotalRow = TotalRow(date: string, kind: string, hours: real, travel: real, total: real)

  /** `rows` shows the entries of `s` one by one, in order, each with the total
      of its hours and travel. */
  ghost predicate RowsOf(rows: seq<TotalRow>, s: seq<Entry>) {
    && |rows| == |s|
    && forall i :: 0 <= i < |s| ==>
         rows[i] == TotalRow(s[i].date, s[i].kind, s[i].hours, s[i].travel, s[i].hours + s[i].travel)
  }

  /** The rows, one per entry in order, that both the `Hours` sheet of the
      export and the main window's table are filled with, entry by entry. */
  method TotalRows(s: seq<Entry>) returns (rows: seq<TotalRow>)
    ensures RowsOf(rows, s)
  {
    rows := [];
    for i := 0 to |s|
      invariant |rows| == i
      invariant forall j :: 0 <= j < i ==>
                  rows[j] == TotalRow(s[j].date, s[j].kind, s[j].hours, s[j].travel, s[j].hours + s[j].travel)
    {
      var entry := s[i];
      var total := entry.hours + entry.travel;
      rows := rows + [TotalRow(entry.date, entry.kind, entry.hours, entry.travel, total)];
    }
  }

  /** One line of a per-type table: a type and the hours and travel summed over it. */
  datatype TypeTotals = TypeTotals(kind: string, hours: real, travel: real)

  /** What is summed: hours, travel time, or both together. */
  datatype Measure = Hours | Travel | Total

  function ValueOf(e: Entry, m: Measure): real {
    match m
    case Hours => e.hours
    case Travel => e.travel
    case Total => e.hours + e.travel
  }

  /** The sum of a measure over a list of entries. */
  function SumOf(s: seq<Entry>, m: Measure): real {
    if s == [] then 0.0 else SumOf(s[..|s| - 1], m) + ValueOf(s[|s| - 1], m)
  }

  lemma SumOfSnoc(s: seq<Entry>, e: Entry, m: Measure)
    ensures SumOf(s + [e], m) == SumOf(s, m) + ValueOf(e, m)
  {
    assert (s + [e])[..|s|] == s;
  }

  lemma {:induction false} SumOfAppend(a: seq<Entry>, b: seq<Entry>, m: Measure)
    ensures SumOf(a + b, m) == SumOf(a, m) + SumOf(b, m)
  {
    if b != [] {
      var b', e := b[..|b| - 1], b[|b| - 1];
      assert a + b == (a + b') + [e] && b == b' + [e];
      SumOfAppend(a, b', m);
      SumOfSnoc(a + b', e, m);
      SumOfSnoc(b', e, m);
    } else {
      assert a + b == a;
    }
  }

  /** A sum does not depend on the order of the entries. */
  lemma {:induction false} SumOfPermutation(a: seq<Entry>, b: seq<Entry>, m: Measure)
    requires multiset(a) == multiset(b)
    ensures SumOf(a, m) == SumOf(b, m)
  {
    if a != [] {
      var a', e := a[..|a| - 1], a[|a| - 1];
      assert a == a' + [e];
      assert e in multiset(b);
      var j :| 0 <= j < |b| && b[j] == e;
      var b' := b[..j] + b[j + 1..];
      assert b == b[..j] + [e] + b[j + 1..];
      assert multiset(a) == multiset(a') + multiset{e};
      assert multiset(b) == multiset(b[..j]) + multiset{e} + multiset(b[j + 1..]);
      assert multiset(b') == multiset(b[..j]) + multiset(b[j + 1..]);
      assert multiset(a') == multiset(a) - multiset{e};
      assert multiset(b') == multiset(b) - multiset{e};
      SumOfPermutation(a', b', m);
      SumOfSnoc(a', e, m);
      SumOfAppend(b[..j], b[j + 1..], m);
      SumOfAppend(b[..j] + [e], b[j + 1..], m);
      SumOfSnoc(b[..j], e, m);
    } else {
      assert b == [];
    }
  }

  /** Summing hours and travel together is summing each and adding. */
  lemma {:induction false} SumOfTotal(s: seq<Entry>)
    ensures SumOf(s, Total) == SumOf(s, Hours) + SumOf(s, Travel)
  {
    if s != [] {
      SumOfTotal(s[..|s| - 1]);
    }
  }

  /** With no negative hours or travel, no sum is negative. */
  ghost predicate NonNegative(s: seq<Entry>) {
    forall i :: 0 <= i < |s| ==> s[i].hours >= 0.0 && s[i].travel >= 0.0
  }

  // ---------------------------------------------------------------- grouping

  /** The two keys entries are grouped by: the type (the store's GROUP BY, the
      exporter's type tables) and the "YYYY-MM" month (the exporter's monthly
      table). The grouping functions below take the key as a parameter. */
  function TypeOf(e: Entry): string {
    e.kind
  }

  function MonthOf(e: Entry): string {
    Dates.MonthKeyOf(e.date)
  }

  /** The entries whose key is `k`, in their original order. */
  function Group(s: seq<Entry>, key: Entry -> string, k: string): (r: seq<Entry>)
    ensures |r| <= |s|
  {
    if s == [] then []
    else Group(s[..|s| - 1], key, k) + (if key(s[|s| - 1]) == k then [s[|s| - 1]] else [])
  }

  /** The distinct keys of a list of entries, in order of first occurrence
      (the key order of a Python dict filled from the list). */
  function Keys(s: seq<Entry>, key: Entry -> string): (r: seq<string>)
    ensures Distinct(r)
  {
    if s == [] then []
    else
      var p, k := Keys(s[..|s| - 1], key), key(s[|s| - 1]);
      if k in p then p
      else
        assert forall i :: 0 <= i < |p| ==> p[i] != k;
        p + [k]
  }

  /** The key of every entry is among the keys. */
  lemma {:induction false} KeysCover(s: seq<Entry>, key: Entry -> string)
    ensures forall i :: 0 <= i < |s| ==> key(s[i]) in Keys(s, key)
  {
    if s != [] {
      var p := s[..|s| - 1];
      KeysCover(p, key);
      assert forall i :: 0 <= i < |p| ==> p[i] == s[i];
    }
  }

  /** Every key is the key of some entry, so its group is not empty. */
  lemma {:induction false} KeysOccur(s: seq<Entry>, key: Entry -> string)
    ensures forall k :: k in Keys(s, key) ==> Group(s, key, k) != []
  {
    if s != [] {
      var p := s[..|s| - 1];
      KeysOccur(p, key);
      forall k | k in Keys(s, key) ensures Group(s, key, k) != [] {
        if k in Keys(p, key) {
          assert Group(p, key, k) != [];
        }
      }
    }
  }

  /** The entries whose key lies in `sel`, in their original order. */
  function Select(s: seq<Entry>, key: Entry -> string, sel: set<string>): seq<Entry> {
    if s == [] then []
    else Select(s[..|s| - 1], key, sel) + (if key(s[|s| - 1]) in sel then [s[|s| - 1]] else [])
  }

  /** The sum of a measure over the groups of the keys `ks`, taken one key at a time. */
  function GroupSum(s: seq<Entry>, key: Entry -> string, ks: seq<string>, m: Measure): real {
    if ks == [] then 0.0 else SumOf(Group(s, key, ks[0]), m) + GroupSum(s, key, ks[1..], m)
  }

  /** The same, restricted to the keys in `sel`. */
  function GroupSumWhere(s: seq<Entry>, key: Entry -> string, ks: seq<string>, sel: set<string>, m: Measure): real {
    if ks == [] then 0.0
    else (if ks[0] in sel then SumOf(Group(s, key, ks[0]), m) else 0.0) + GroupSumWhere(s, key, ks[1..], sel, m)
  }

  /** The sizes of the groups of the keys `ks`, added up. */
  function GroupCount(s: seq<Entry>, key: Entry -> string, ks: seq<string>): nat {
    if ks == [] then 0 else |Group(s, key, ks[0])| + GroupCount(s, key, ks[1..])
  }

  lemma {:induction false} GroupSumOfEmpty(key: Entry -> string, ks: seq<string>, m: Measure)
    ensures GroupSum([], key, ks, m) == 0.0
    ensures GroupCount([], key, ks) == 0
  {
    if ks != [] {
      GroupSumOfEmpty(key, ks[1..], m);
    }
  }

  lemma {:induction false} GroupSumWhereOfEmpty(key: Entry -> string, ks: seq<string>, sel: set<string>, m: Measure)
    ensures GroupSumWhere([], key, ks, sel, m) == 0.0
  {
    if ks != [] {
      GroupSumWhereOfEmpty(key, ks[1..], sel, m);
    }
  }

  lemma GroupSnoc(p: seq<Entry>, e: Entry, key: Entry -> string, k: string)
    ensures Group(p + [e], key, k) == Group(p, key, k) + (if key(e) == k then [e] else [])
  {
    assert (p + [e])[..|p|] == p;
  }

  /** One more entry adds its value to the group of its own key and leaves the other groups alone. */
  lemma GroupSnocSum(p: seq<Entry>, e: Entry, key: Entry -> string, k: string, m: Measure)
    ensures SumOf(Group(p + [e], key, k), m) == SumOf(Group(p, key, k), m) + (if key(e) == k then ValueOf(e, m) else 0.0)
    ensures |Group(p + [e], key, k)| == |Group(p, key, k)| + (if key(e) == k then 1 else 0)
  {
    GroupSnoc(p, e, key, k);
    if key(e) == k {
      SumOfSnoc(Group(p, key, k), e, m);
    } else {
      assert Group(p + [e], key, k) == Group(p, key, k);
    }
  }

  /** Adding one entry adds its value to the part of the group sum of its own key. */
  lemma {:induction false} GroupSumSnoc(p: seq<Entry>, e: Entry, key: Entry -> string, ks: seq<string>, m: Measure)
    requires Distinct(ks)
    ensures GroupSum(p + [e], key, ks, m) == GroupSum(p, key, ks, m) + (if key(e) in ks then ValueOf(e, m) else 0.0)
  {
    if ks != [] {
      DistinctTail(ks);
      GroupSnocSum(p, e, key, ks[0], m);
      GroupSumSnoc(p, e, key, ks[1..], m);
    }
  }

  lemma {:induction false} GroupCountSnoc(p: seq<Entry>, e: Entry, key: Entry -> string, ks: seq<string>)
    requires Distinct(ks)
    ensures GroupCount(p + [e], key, ks) == GroupCount(p, key, ks) + (if key(e) in ks then 1 else 0)
  {
    if ks != [] {
      DistinctTail(ks);
      GroupSnocSum(p, e, key, ks[0], Hours);
      GroupCountSnoc(p, e, key, ks[1..]);
    }
  }

  lemma {:induction false} GroupSumWhereSnoc(p: seq<Entry>, e: Entry, key: Entry -> string, ks: seq<string>, sel: set<string>, m: Measure)
    requires Distinct(ks)
    ensures GroupSumWhere(p + [e], key, ks, sel, m)
         == GroupSumWhere(p, key, ks, sel, m) + (if key(e) in ks && key(e) in sel then ValueOf(e, m) else 0.0)
  {
    if ks != [] {
      DistinctTail(ks);
      GroupSnocSum(p, e, key, ks[0], m);
      GroupSumWhereSnoc(p, e, key, ks[1..], sel, m);
    }
  }

  /** Conservation: when `ks` lists every key of `s` once, the group sums add
      up to the sum over all entries, and the group sizes to the number of entries. */
  lemma {:induction false} GroupSumConserves(s: seq<Entry>, key: Entry -> string, ks: seq<string>, m: Measure)
    requires Distinct(ks)
    requires forall i :: 0 <= i < |s| ==> key(s[i]) in ks
    ensures GroupSum(s, key, ks, m) == SumOf(s, m)
    ensures GroupCount(s, key, ks) == |s|
  {
    if s == [] {
      GroupSumOfEmpty(key, ks, m);
    } else {
      var p, e := s[..|s| - 1], s[|s| - 1];
      assert s == p + [e];
      assert forall i :: 0 <= i < |p| ==> p[i] == s[i];
      GroupSumConserves(p, key, ks, m);
      GroupSumSnoc(p, e, key, ks, m);
      GroupCountSnoc(p, e, key, ks);
    }
  }

  /** Restricted conservation: summing the groups of the selected keys is
      summing over the entries whose key is selected. */
  lemma {:induction false} GroupSumWhereConserves(s: seq<Entry>, key: Entry -> string, ks: seq<string>, sel: set<string>, m: Measure)
    requires Distinct(ks)
    requires forall i :: 0 <= i < |s| ==> key(s[i]) in ks
    ensures GroupSumWhere(s, key, ks, sel, m) == SumOf(Select(s, key, sel), m)
  {
    if s == [] {
      GroupSumWhereOfEmpty(key, ks, sel, m);
    } else {
      var p, e := s[..|s| - 1], s[|s| - 1];
      assert s == p + [e];
      assert forall i :: 0 <= i < |p| ==> p[i] == s[i];
      GroupSumWhereConserves(p, key, ks, sel, m);
      GroupSumWhereSnoc(p, e, key, ks, sel, m);
      assert key(e) in ks;
      if key(e) in sel {
        assert Select(s, key, sel) == Select(p, key, sel) + [e];
        SumOfSnoc(Select(p, key, sel), e, m);
      } else {
        assert Select(s, key, sel) == Select(p, key, sel) + [];
        assert Select(s, key, sel) == Select(p, key, sel);
      }
    }
  }

  /** With nothing negative, the entries of a selection sum to no more than all entries. */
  lemma {:induction false} SelectBounded(s: seq<Entry>, key: Entry -> string, sel: set<string>, m: Measure)
    requires NonNegative(s)
    ensures 0.0 <= SumOf(Select(s, key, sel), m) <= SumOf(s, m)
  {
    if s != [] {
      var p := s[..|s| - 1];
      assert forall i :: 0 <= i < |p| ==> p[i] == s[i];
      SelectBounded(p, key, sel, m);
      var e := s[|s| - 1];
      assert ValueOf(e, m) >= 0.0;
      assert SumOf(s, m) == SumOf(p, m) + ValueOf(e, m);
      if key(e) in sel {
        assert Select(s, key, sel) == Select(p, key, sel) + [e];
        SumOfSnoc(Select(p, key, sel), e, m);
      } else {
        assert Select(s, key, sel) == Select(p, key, sel) + [];
        assert Select(s, key, sel) == Select(p, key, sel);
      }
    }
  }

  // ------------------------------------------------------------ type tables

  /** `rows` is a per-type table of `s`: exactly one row for each type that
      occurs, holding the sums of hours and travel over the entries of that type. */
  ghost predicate TypeTableOf(rows: seq<TypeTotals>, s: seq<Entry>) {
    && (forall i, j :: 0 <= i < j < |rows| ==> rows[i].kind != rows[j].kind)
    && (forall i :: 0 <= i < |s| ==> exists j :: 0 <= j < |rows| && rows[j].kind == s[i].kind)
    && (forall j :: 0 <= j < |rows| ==> Group(s, TypeOf, rows[j].kind) != [])
    && (forall j :: 0 <= j < |rows| ==>
          rows[j].hours == SumOf(Group(s, TypeOf, rows[j].kind), Hours)
          && rows[j].travel == SumOf(Group(s, TypeOf, rows[j].kind), Travel))
  }

  function KindsOf(rows: seq<TypeTotals>): (r: seq<string>)
    ensures |r| == |rows| && forall j :: 0 <= j < |rows| ==> r[j] == rows[j].kind
  {
    if rows == [] then [] else [rows[0].kind] + KindsOf(rows[1..])
  }

  function RowsHours(rows: seq<TypeTotals>): real {
    if rows == [] then 0.0 else rows[0].hours + RowsHours(rows[1..])
  }

  function RowsTravel(rows: seq<TypeTotals>): real {
    if rows == [] then 0.0 else rows[0].travel + RowsTravel(rows[1..])
  }

  lemma {:induction false} RowsAreGroupSums(rows: seq<TypeTotals>, s: seq<Entry>)
    requires forall j :: 0 <= j < |rows| ==>
               rows[j].hours == SumOf(Group(s, TypeOf, rows[j].kind), Hours)
               && rows[j].travel == SumOf(Group(s, TypeOf, rows[j].kind), Travel)
    ensures RowsHours(rows) == GroupSum(s, TypeOf, KindsOf(rows), Hours)
    ensures RowsTravel(rows) == GroupSum(s, TypeOf, KindsOf(rows), Travel)
  {
    if rows != [] {
      RowsAreGroupSums(rows[1..], s);
      assert KindsOf(rows)[1..] == KindsOf(rows[1..]);
    }
  }

  /** The rows of a per-type table add up to the grand totals. */
  lemma TypeTableAddsUp(rows: seq<TypeTotals>, s: seq<Entry>)
    requires TypeTableOf(rows, s)
    ensures RowsHours(rows) == SumOf(s, Hours)
    ensures RowsTravel(rows) == SumOf(s, Travel)
  {
    var ks := KindsOf(rows);
    assert Distinct(ks);
    forall i | 0 <= i < |s| ensures TypeOf(s[i]) in ks {
      var j :| 0 <= j < |rows| && rows[j].kind == s[i].kind;
      assert ks[j] == s[i].kind;
    }
    RowsAreGroupSums(rows, s);
    GroupSumConserves(s, TypeOf, ks, Hours);
    GroupSumConserves(s, TypeOf, ks, Travel);
  }

  /** The per-type table in first-occurrence order of the types. */
  function TypeTable(s: seq<Entry>): (r: seq<TypeTotals>)
    ensures TypeTableOf(r, s)
  {
    var ks := Keys(s, TypeOf);
    KeysCover(s, TypeOf);
    KeysOccur(s, TypeOf);
    var r := seq(|ks|, j requires 0 <= j < |ks| =>
                 TypeTotals(ks[j], SumOf(Group(s, TypeOf, ks[j]), Hours), SumOf(Group(s, TypeOf, ks[j]), Travel)));
    assert forall i :: 0 <= i < |s| ==> exists j :: 0 <= j < |r| && r[j].kind == s[i].kind by {
      forall i | 0 <= i < |s| ensures exists j :: 0 <= j < |r| && r[j].kind == s[i].kind {
        assert TypeOf(s[i]) in ks;
        var j :| 0 <= j < |ks| && ks[j] == s[i].kind;
        assert r[j].kind == s[i].kind;
      }
    }
    r
  }
}
