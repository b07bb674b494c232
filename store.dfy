/** The entry store: the single `entries` table of the tracker's SQLite
    database, held in memory. `init_db`, `add_entry`, `delete_entry`,
    `update_entry` and `reset_all_entries` change the table in place;
    `fetch_entries` and `get_summary` only read it. Their contracts state
    what SQL promises (date-descending and a permutation of the rows;
    `TypeTableOf` the rows and the grand totals), while the functions
    `SortByDateDesc`, `TypeTable` and `TotalsOf` compute one such result.
    All are methods of `Store`. Both copies of the store module (the packaged one
    and the older one at the repository root) have these semantics; only the
    packaged one has `reset_all_entries`. */
module EntryStore {
  import opened Basics
  import opened Lexicographic
  import opened Entries

  /** `id INTEGER PRIMARY KEY`: no two rows share an id. */
  ghost predicate UniqueIds(s: seq<Entry>) {
    forall i, j :: 0 <= i < j < |s| ==> s[i].id != s[j].id
  }

  /** `ORDER BY date DESC`: every date is no earlier, as a string, than the dates after it. */
  ghost predicate DateDescending(s: seq<Entry>) {
    forall i, j :: 0 <= i < j < |s| ==> LexLe(s[j].date, s[i].date)
  }

  lemma ConsDescending(h: Entry, t: seq<Entry>)
    requires DateDescending(t)
    requires forall x :: x in t ==> LexLe(x.date, h.date)
    ensures DateDescending([h] + t)
  {
    forall i, j | 0 <= i < j < |[h] + t| ensures LexLe(([h] + t)[j].date, ([h] + t)[i].date) {
      if i > 0 {
        assert ([h] + t)[i] == t[i - 1] && ([h] + t)[j] == t[j - 1];
      } else {
        assert ([h] + t)[j] in t;
      }
    }
  }

  /** Inserts `e` into a date-descending list before the first entry not later than it. */
  function InsertByDate(e: Entry, s: seq<Entry>): (r: seq<Entry>)
    requires DateDescending(s)
    ensures DateDescending(r)
    ensures multiset(r) == multiset(s) + multiset{e}
  {
    if s == [] then [e]
    else if LexLe(s[0].date, e.date) then
      assert forall x :: x in s ==> LexLe(x.date, e.date) by {
        forall x | x in s ensures LexLe(x.date, e.date) {
          var j :| 0 <= j < |s| && s[j] == x;
          if j > 0 { LexLeTransitive(s[j].date, s[0].date, e.date); }
        }
      }
      ConsDescending(e, s);
      [e] + s
    else
      var rest := InsertByDate(e, s[1..]);
      InsertByDateAfterHead(e, s, rest);
      [s[0]] + rest
  }

  lemma InsertByDateAfterHead(e: Entry, s: seq<Entry>, rest: seq<Entry>)
    requires |s| > 0 && DateDescending(s) && !LexLe(s[0].date, e.date)
    requires DateDescending(rest) && multiset(rest) == multiset(s[1..]) + multiset{e}
    ensures DateDescending([s[0]] + rest)
    ensures multiset([s[0]] + rest) == multiset(s) + multiset{e}
  {
    LexLeTotal(s[0].date, e.date);
    forall x | x in rest ensures LexLe(x.date, s[0].date) {
      assert x in multiset(rest);
      if x != e {
        assert x in s[1..];
        var j :| 0 <= j < |s[1..]| && s[1..][j] == x;
        assert s[j + 1] == x;
      }
    }
    ConsDescending(s[0], rest);
    assert s == [s[0]] + s[1..];
  }

  /** The rows in `ORDER BY date DESC` order. SQL leaves the order of rows
      with equal dates open; this insertion sort settles it one way. */
  function SortByDateDesc(s: seq<Entry>): (r: seq<Entry>)
    ensures DateDescending(r)
    ensures multiset(r) == multiset(s)
  {
    if s == [] then []
    else
      assert s == [s[0]] + s[1..];
      InsertByDate(s[0], SortByDateDesc(s[1..]))
  }

  /** `DELETE FROM entries WHERE id = ?`: the rows whose id is `id` go and
      every other row stays. The contract states multiplicities only, since row
      order in SQL is unspecified; this definition happens to keep the order. */
  function Without(s: seq<Entry>, id: int): (r: seq<Entry>)
    ensures forall e :: multiset(r)[e] == if e.id == id then 0 else multiset(s)[e]
    ensures (forall i :: 0 <= i < |s| ==> s[i].id != id) ==> r == s
  {
    if s == [] then []
    else
      var p, e := s[..|s| - 1], s[|s| - 1];
      assert s == p + [e];
      assert forall i :: 0 <= i < |p| ==> p[i] == s[i];
      assert (forall i :: 0 <= i < |s| ==> s[i].id != id) ==> e.id != id && forall i :: 0 <= i < |p| ==> p[i].id != id;
      Without(p, id) + (if e.id == id then [] else [e])
  }

  lemma WithoutMembers(s: seq<Entry>, id: int)
    ensures forall x :: x in Without(s, id) <==> x in s && x.id != id
  {
    forall x ensures x in Without(s, id) <==> x in s && x.id != id {
      assert x in Without(s, id) <==> x in multiset(Without(s, id));
      assert x in s <==> x in multiset(s);
    }
  }

  /** Deleting brings in no id that was not there before. */
  lemma WithoutKeepsIds(s: seq<Entry>, id: int, ids: set<int>)
    requires forall e :: e in s ==> e.id in ids
    ensures forall e :: e in Without(s, id) ==> e.id in ids
  {
    WithoutMembers(s, id);
  }

  lemma UniqueIdsSnoc(w: seq<Entry>, e: Entry)
    requires UniqueIds(w)
    requires forall x :: x in w ==> x.id != e.id
    ensures UniqueIds(w + [e])
  {
    forall i, j | 0 <= i < j < |w + [e]| ensures (w + [e])[i].id != (w + [e])[j].id {
      assert (w + [e])[i] == w[i];
      if j < |w| {
        assert (w + [e])[j] == w[j];
      }
    }
  }

  /** With unique ids, the last row's id is not among the earlier ones. */
  lemma LastIdFresh(p: seq<Entry>, e: Entry)
    requires UniqueIds(p + [e])
    ensures forall x :: x in p ==> x.id != e.id
  {
    forall x | x in p ensures x.id != e.id {
      var k :| 0 <= k < |p| && p[k] == x;
      assert (p + [e])[k] == x && (p + [e])[|p|] == e;
    }
  }

  /** Deleting keeps ids unique. */
  lemma {:induction false} UniqueIdsWithout(s: seq<Entry>, id: int)
    requires UniqueIds(s)
    ensures UniqueIds(Without(s, id))
  {
    if s != [] {
      var p, e := s[..|s| - 1], s[|s| - 1];
      assert s == p + [e];
      assert UniqueIds(p);
      UniqueIdsWithout(p, id);
      if e.id != id {
        var w := Without(p, id);
        WithoutMembers(p, id);
        LastIdFresh(p, e);
        UniqueIdsSnoc(w, e);
      }
    }
  }

  /** With unique ids, deleting an id that is present removes exactly one row. */
  lemma {:induction false} WithoutRemovesOne(s: seq<Entry>, id: int)
    requires UniqueIds(s)
    requires exists i :: 0 <= i < |s| && s[i].id == id
    ensures |Without(s, id)| == |s| - 1
  {
    var p, e := s[..|s| - 1], s[|s| - 1];
    assert s == p + [e];
    assert UniqueIds(p);
    if e.id == id {
      assert forall i :: 0 <= i < |p| ==> p[i].id != id by {
        forall i | 0 <= i < |p| ensures p[i].id != id {
          assert s[i] == p[i];
        }
      }
      assert Without(p, id) == p;
      assert Without(s, id) == Without(p, id);
    } else {
      var i :| 0 <= i < |s| && s[i].id == id;
      assert p[i].id == id;
      WithoutRemovesOne(p, id);
      assert Without(s, id) == Without(p, id) + [e];
    }
  }

  /** What deleting does to the rows of a store whose ids are unique and issued. */
  lemma DeleteKeepsStore(s: seq<Entry>, id: int, issued: set<int>)
    requires UniqueIds(s) && forall e :: e in s ==> e.id in issued
    ensures UniqueIds(Without(s, id))
    ensures forall e :: e in Without(s, id) ==> e.id in issued
    ensures (exists i :: 0 <= i < |s| && s[i].id == id) ==> |Without(s, id)| == |s| - 1
  {
    UniqueIdsWithout(s, id);
    WithoutKeepsIds(s, id, issued);
    if exists i :: 0 <= i < |s| && s[i].id == id {
      WithoutRemovesOne(s, id);
    }
  }

  /** Updating an id that has just been deleted changes nothing: the update
      finds no row. */
  lemma UpdateAfterDelete(s: seq<Entry>, id: int, date: string, kind: string, hours: real, travel: real)
    ensures WithFields(Without(s, id), id, date, kind, hours, travel) == Without(s, id)
  {
    var w := Without(s, id);
    WithoutMembers(s, id);
    assert forall i :: 0 <= i < |w| ==> w[i] in w;
  }

  /** `UPDATE entries SET date = ?, type = ?, hours = ?, travel_time = ? WHERE id = ?`. */
  function WithFields(s: seq<Entry>, id: int, date: string, kind: string, hours: real, travel: real): (r: seq<Entry>)
    ensures |r| == |s|
    ensures forall i :: 0 <= i < |s| ==> r[i].id == s[i].id
    ensures forall i :: 0 <= i < |s| && s[i].id != id ==> r[i] == s[i]
    ensures forall i :: 0 <= i < |s| && s[i].id == id ==> r[i] == Entry(id, date, kind, hours, travel)
    ensures (forall i :: 0 <= i < |s| ==> s[i].id != id) ==> r == s
    ensures UniqueIds(s) ==> UniqueIds(r)
  {
    seq(|s|, i requires 0 <= i < |s| => if s[i].id == id then Entry(id, date, kind, hours, travel) else s[i])
  }

  /** The grand totals `SELECT SUM(hours), SUM(travel_time)`: NULL on an empty table. */
  datatype Totals = Totals(hours: Option<real>, travel: Option<real>)

  function TotalsOf(s: seq<Entry>): (r: Totals)
    ensures r.hours.None? <==> s == []
    ensures r.travel.None? <==> s == []
  {
    if s == [] then Totals(None, None) else Totals(Some(SumOf(s, Hours)), Some(SumOf(s, Travel)))
  }

  /** The hard upper end of ids is not modelled (see README): ids are unbounded. */
  class Store {
    /** Whether `CREATE TABLE ... entries` has run on this database. */
    var tablePresent: bool
    /** The rows of the table, in rowid order. */
    var entries: seq<Entry>
    /** The `sqlite_sequence` value of `entries`: the largest id ever handed out. */
    var lastId: int
    /** Every id ever handed out, including those of rows since deleted. */
    ghost var issued: set<int>

    ghost predicate Valid()
      reads this
    {
      && 0 <= lastId
      && UniqueIds(entries)
      && (forall e :: e in entries ==> e.id in issued)
      && (forall id :: id in issued ==> 1 <= id <= lastId)
      && (!tablePresent ==> entries == [])
    }

    /** A database file that has just been opened for the first time: no table yet. */
    constructor ()
      ensures Valid() && !tablePresent && entries == [] && lastId == 0 && issued == {}
    {
      tablePresent := false;
      entries := [];
      lastId := 0;
      issued := {};
    }

    /** `init_db`: `CREATE TABLE IF NOT EXISTS`, so an existing table and its rows are left alone. */
    method InitDb()
      requires Valid()
      modifies this
      ensures Valid() && tablePresent
      ensures entries == old(entries) && lastId == old(lastId) && issued == old(issued)
    {
      tablePresent := true;
    }

    /** `add_entry`: inserts one row; AUTOINCREMENT gives it one more than the
        largest id ever used, so the id is new even among deleted rows. */
    method Add(date: string, kind: string, hours: real, travel: real)
      requires Valid() && tablePresent
      modifies this
      ensures Valid() && tablePresent
      ensures lastId == old(lastId) + 1
      ensures entries == old(entries) + [Entry(lastId, date, kind, hours, travel)]
      ensures lastId !in old(issued) && issued == old(issued) + {lastId}
      ensures forall e :: e in old(entries) ==> e.id != lastId
    {
      lastId := lastId + 1;
      entries := entries + [Entry(lastId, date, kind, hours, travel)];
      issued := issued + {lastId};
    }

    /** `delete_entry`: removes the row with this id, if there is one, and nothing else. */
    method Delete(id: int)
      requires Valid() && tablePresent
      modifies this
      ensures Valid() && tablePresent
      ensures entries == Without(old(entries), id)
      ensures (exists i :: 0 <= i < |old(entries)| && old(entries)[i].id == id) ==> |entries| == |old(entries)| - 1
      ensures (forall i :: 0 <= i < |old(entries)| ==> old(entries)[i].id != id) ==> entries == old(entries)
      ensures lastId == old(lastId) && issued == old(issued)
    {
      DeleteKeepsStore(entries, id, issued);
      entries := Without(entries, id);
    }

    /** `update_entry`: overwrites the four fields of the row with this id and keeps its id;
        no other row changes, and with no such row nothing changes. */
    method Update(id: int, date: string, kind: string, hours: real, travel: real)
      requires Valid() && tablePresent
      modifies this
      ensures Valid() && tablePresent
      ensures entries == WithFields(old(entries), id, date, kind, hours, travel)
      ensures lastId == old(lastId) && issued == old(issued)
    {
      ghost var before := entries;
      entries := WithFields(entries, id, date, kind, hours, travel);
      forall e | e in entries ensures e.id in issued {
        var i :| 0 <= i < |entries| && entries[i] == e;
        assert before[i] in before;
      }
    }

    /** `reset_all_entries` (packaged store only): `DELETE FROM entries` empties the table;
        `sqlite_sequence` keeps its value, so later ids stay new. */
    method Reset()
      requires Valid() && tablePresent
      modifies this
      ensures Valid() && tablePresent
      ensures entries == []
      ensures lastId == old(lastId) && issued == old(issued)
    {
      entries := [];
    }

    /** `fetch_entries`: all the rows, each once, latest date first. */
    method FetchEntries() returns (r: seq<Entry>)
      requires tablePresent
      ensures DateDescending(r)
      ensures multiset(r) == multiset(entries)
    {
      r := SortByDateDesc(entries);
    }

    /** `get_summary`: one row per type that occurs, with the sums of hours and
        travel over its entries, and the grand totals, NULL on an empty table
        and otherwise the sums of the per-type rows. */
    method GetSummary() returns (rows: seq<TypeTotals>, totals: Totals)
      requires tablePresent
      ensures TypeTableOf(rows, entries)
      ensures totals.hours.None? <==> entries == []
      ensures totals.travel.None? <==> entries == []
      ensures entries != [] ==> totals == Totals(Some(RowsHours(rows)), Some(RowsTravel(rows)))
      ensures entries != [] ==> totals == Totals(Some(SumOf(entries, Hours)), Some(SumOf(entries, Travel)))
    {
      rows := TypeTable(entries);
      TypeTableAddsUp(rows, entries);
      totals := TotalsOf(entries);
    }
  }

  /** The fetched rows carry the same totals as the table. */
  lemma FetchKeepsTotals(s: seq<Entry>, m: Measure)
    ensures SumOf(SortByDateDesc(s), m) == SumOf(s, m)
  {
    SumOfPermutation(SortByDateDesc(s), s, m);
  }
}
