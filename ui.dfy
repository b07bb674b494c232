/** The main window's handlers: the entry form (date, category combo, custom
    tag, hours, travel), the `editing_id` that switches it between adding and
    updating, the table of fetched entries and the summary label. Widgets are
    reduced to the values they hold; the database is the `Store` model. */
module TrackerUi {
  import opened Basics
  import opened Entries
  import opened EntryStore
  import opened Dates

  /** The combo box items, in order (line 13). */
  const Categories: seq<string> := ["Event Cover", "Community Outreach", "Unit Running", "Other"]

  /** Lines 84-86: a non-empty custom tag overrides the selected category. */
  function SubmittedType(combo: string, tag: string): string {
    if tag != "" then tag else combo
  }

  /** Lines 117-122: how the edit handler fills the combo and the tag from a stored type. */
  function FormFromType(kind: string): (r: (string, string))
    ensures r.0 in Categories
  {
    if kind in Categories then (kind, "") else ("Other", kind)
  }

  /** Editing an entry and submitting the form unchanged reproduces its type,
      unless the type is empty: then the form shows no tag and "Other" is submitted. */
  lemma EditRoundTrip(kind: string)
    ensures kind != "" ==> SubmittedType(FormFromType(kind).0, FormFromType(kind).1) == kind
    ensures kind == "" ==> SubmittedType(FormFromType(kind).0, FormFromType(kind).1) == "Other"
  {
    assert "" !in Categories;
  }

  /** Lines 113-125: the form after `handle_edit` loads `e`. `QDateEdit.setDate`
      ignores an invalid date, so a stored date that is not `yyyy-MM-dd` leaves
      the date widget as it was. */
  function EditForm(f: Form, e: Entry): (r: Form)
    ensures IsIsoDate(f.date) ==> IsIsoDate(r.date)
  {
    var (combo, tag) := FormFromType(e.kind);
    Form(if IsIsoDate(e.date) then e.date else f.date, combo, tag, e.hours, e.travel)
  }

  /** Loading an entry into the form and submitting it unchanged gives back the
      entry's values, provided its date is `yyyy-MM-dd`, its type is not empty
      and it has hours or travel (otherwise `handle_submit` does nothing). */
  lemma EditThenSubmit(f: Form, e: Entry)
    requires IsIsoDate(e.date) && e.kind != ""
    ensures var g := EditForm(f, e);
            && g.date == e.date && SubmittedType(g.combo, g.tag) == e.kind
            && g.hours == e.hours && g.travel == e.travel
  {
    EditRoundTrip(e.kind);
  }

  /** Every row's date is `yyyy-MM-dd`, the text the form's date widget gives. */
  ghost predicate IsoDated(s: seq<Entry>) {
    forall i :: 0 <= i < |s| ==> IsIsoDate(s[i].date)
  }

  /** Adding or updating a row with a `yyyy-MM-dd` date keeps every date of the table in that form. */
  lemma SaveKeepsIsoDates(s: seq<Entry>, id: int, n: int, date: string, kind: string, hours: real, travel: real)
    requires IsoDated(s) && IsIsoDate(date)
    ensures IsoDated(s + [Entry(n, date, kind, hours, travel)])
    ensures IsoDated(WithFields(s, id, date, kind, hours, travel))
  {
    var t := s + [Entry(n, date, kind, hours, travel)];
    assert forall i :: 0 <= i < |s| ==> t[i] == s[i];
  }

  /** Deleting rows keeps every remaining date in `yyyy-MM-dd` form. */
  lemma WithoutKeepsIsoDates(s: seq<Entry>, id: int)
    requires IsoDated(s)
    ensures IsoDated(Without(s, id))
  {
    var r := Without(s, id);
    WithoutMembers(s, id);
    forall i | 0 <= i < |r| ensures IsIsoDate(r[i].date) {
      assert r[i] in s;
    }
  }

  /** Python's truth value of `self.editing_id`: `None` and `0` are false. */
  predicate Truthy(id: Option<int>) {
    id.Some? && id.value != 0
  }

  /** The form's widgets: the date as `yyyy-MM-dd`, the combo box's current
      text, the custom tag, and the hours and travel spin boxes. */
  datatype Form = Form(date: string, combo: string, tag: string, hours: real, travel: real)

  /** The summary label: a line per type, the overall hours and the total including travel. */
  datatype SummaryLabel = SummaryLabel(lines: seq<TypeTotals>, hours: real, overall: real)

  /** `fetched` is what `fetch_entries` promises for `rows` (each row once, latest
      date first) and `table` shows it row by row. */
  ghost predicate ShowsTable(fetched: seq<Entry>, table: seq<TotalRow>, rows: seq<Entry>) {
    && DateDescending(fetched) && multiset(fetched) == multiset(rows)
    && RowsOf(table, fetched)
  }

  /** The label `shown` has a line per type of `rows` with its sums, as `get_summary`
      promises, the overall hours, and the total including travel. */
  ghost predicate ShowsSummary(shown: SummaryLabel, rows: seq<Entry>) {
    && TypeTableOf(shown.lines, rows)
    && shown.hours == SumOf(rows, Hours)
    && shown.overall == SumOf(rows, Total)
  }

  /** Lines 153-154: a line per row of `get_summary`, in its order. */
  method SummaryLines(rows: seq<TypeTotals>) returns (lines: seq<TypeTotals>)
    ensures |lines| == |rows|
    ensures forall i :: 0 <= i < |rows| ==> lines[i] == rows[i]
  {
    lines := [];
    for i := 0 to |rows|
      invariant |lines| == i
      invariant forall j :: 0 <= j < i ==> lines[j] == rows[j]
    {
      var row := rows[i];
      lines := lines + [TypeTotals(row.kind, row.hours, row.travel)];
    }
  }

  class TimeTrackerUI {
    /** The database the module-level store functions work on. */
    const store: Store
    /** `editing_id`: the id of the entry being edited, `None` in add mode. */
    var editingId: Option<int>
    /** `self.entries`: the rows last fetched, in table order. */
    var entries: seq<Entry>
    /** The table widget's rows. */
    var table: seq<TotalRow>
    var form: Form
    /** The submit button's caption. */
    var submitLabel: string
    var summary: SummaryLabel

    /** The store is open and `editing_id`, when set, is an id the store handed out. */
    ghost predicate StoreReady()
      reads this`editingId, store
    {
      && store.Valid() && store.tablePresent
      && (editingId.Some? ==> editingId.value in store.issued)
    }

    /** `self.entries` holds the store's rows as `fetch_entries` returns them,
        and the table shows them row by row. */
    ghost predicate TableShown()
      reads this`entries, this`table, store
    {
      ShowsTable(entries, table, store.entries)
    }

    /** The summary label shows the store's rows as `get_summary` sums them. */
    ghost predicate SummaryShown()
      reads this`summary, store
    {
      ShowsSummary(summary, store.entries)
    }

    /** The window shows the store: the table and the summary label. */
    ghost predicate Shown()
      reads this`entries, this`table, this`summary, store
    {
      TableShown() && SummaryShown()
    }

    /** What every handler leaves behind: the store is open and the window shows it. */
    ghost predicate Valid()
      reads this`editingId, this`entries, this`table, this`summary, store
    {
      StoreReady() && Shown()
    }

    /** The date widget shows a date, so its text is `yyyy-MM-dd`. */
    ghost predicate DateIsIso()
      reads this`form
    {
      IsIsoDate(form.date)
    }

    /** Lines 9-19 with the widgets' initial values: today's date, the first
        category, no tag, zero hours and travel, add mode; then `refresh_table`. */
    constructor (s: Store, today: string)
      requires s.Valid() && s.tablePresent && IsIsoDate(today)
      ensures Valid() && DateIsIso() && store == s
      ensures editingId == None && form == Form(today, Categories[0], "", 0.0, 0.0) && submitLabel == "Add Entry"
    {
      store := s;
      editingId := None;
      entries := [];
      table := [];
      form := Form(today, Categories[0], "", 0.0, 0.0);
      submitLabel := "Add Entry";
      summary := SummaryLabel([], 0.0, 0.0);
      new;
      RefreshTable();
    }

    /** `refresh_table`: fetch the entries and rebuild the table row by row, then the summary. */
    method RefreshTable()
      requires StoreReady()
      modifies this`entries, this`table, this`summary
      ensures Valid()
    {
      var fetched := store.FetchEntries();
      var rows := TotalRows(fetched);
      entries := fetched;
      table := rows;
      assert TableShown();
      RefreshSummary();
    }

    /** `refresh_summary`: a line per type of `get_summary`, and the grand
        totals with NULL read as 0; the overall figure adds travel. */
    method RefreshSummary()
      requires store.tablePresent
      modifies this`summary
      ensures SummaryShown()
    {
      var rows, totals := store.GetSummary();
      var lines := SummaryLines(rows);
      assert lines == rows;
      var h := totals.hours.GetOr(0.0);
      var t := totals.travel.GetOr(0.0);
      assert h == SumOf(store.entries, Hours) && t == SumOf(store.entries, Travel);
      SumOfTotal(store.entries);
      summary := SummaryLabel(lines, h, h + t);
    }

    /** `handle_submit`: with zero hours and zero travel nothing happens; otherwise
        the entry being edited is updated (and the form returns to add mode) or a
        new entry is added, the tag, hours and travel are cleared and the window
        shows the new table. Only the store's invariant is needed beforehand,
        since the display is rebuilt from the store. */
    method HandleSubmit()
      requires StoreReady() && DateIsIso()
      modifies this`editingId, this`submitLabel, this`form, this`entries, this`table, this`summary, store
      ensures DateIsIso()
      ensures IsoDated(old(store.entries)) ==> IsoDated(store.entries)
      ensures old(form.hours) == 0.0 && old(form.travel) == 0.0 ==> unchanged(this) && unchanged(store)
      ensures !(old(form.hours) == 0.0 && old(form.travel) == 0.0) ==>
                && Valid()
                && editingId == None && form == old(form).(tag := "", hours := 0.0, travel := 0.0)
      ensures !(old(form.hours) == 0.0 && old(form.travel) == 0.0) && old(editingId).Some? ==> submitLabel == "Add Entry"
      ensures old(editingId).None? ==> submitLabel == old(submitLabel)
      ensures !(old(form.hours) == 0.0 && old(form.travel) == 0.0) && old(editingId).Some? ==>
                && store.entries == WithFields(old(store.entries), old(editingId).value, old(form.date),
                                               SubmittedType(old(form.combo), old(form.tag)), old(form.hours), old(form.travel))
                && store.lastId == old(store.lastId)
      ensures !(old(form.hours) == 0.0 && old(form.travel) == 0.0) && old(editingId).None? ==>
                && store.entries == old(store.entries) + [Entry(store.lastId, old(form.date), SubmittedType(old(form.combo), old(form.tag)),
                                                                old(form.hours), old(form.travel))]
                && store.lastId == old(store.lastId) + 1 && store.lastId !in old(store.issued)
    {
      var type_ := form.combo;
      if form.tag != "" {
        type_ := form.tag;
      }
      var hours, travel := form.hours, form.travel;
      if hours == 0.0 && travel == 0.0 {
        return;
      }
      ghost var before := store.entries;
      Submit(form.date, type_, hours, travel);
      if IsoDated(before) {
        SaveKeepsIsoDates(before, old(editingId).GetOr(0), old(store.lastId) + 1, old(form.date), type_, hours, travel);
      }
    }

    /** Lines 94-105: save the form's values, then clear the tag, refresh the
        table, clear the tag again and put hours and travel back to 0. */
    method Submit(date: string, kind: string, hours: real, travel: real)
      requires StoreReady()
      modifies this`editingId, this`submitLabel, this`form, this`entries, this`table, this`summary, store
      ensures Valid() && editingId == None && form == old(form).(tag := "", hours := 0.0, travel := 0.0)
      ensures old(editingId).Some? ==>
                && submitLabel == "Add Entry"
                && store.entries == WithFields(old(store.entries), old(editingId).value, date, kind, hours, travel)
                && store.lastId == old(store.lastId)
      ensures old(editingId).None? ==>
                && submitLabel == old(submitLabel)
                && store.entries == old(store.entries) + [Entry(store.lastId, date, kind, hours, travel)]
                && store.lastId == old(store.lastId) + 1 && store.lastId !in old(store.issued)
    {
      Save(date, kind, hours, travel);
      ghost var saved, savedId := store.entries, store.lastId;
      form := form.(tag := "");
      RefreshTable();
      assert store.entries == saved && store.lastId == savedId;
      form := form.(tag := "", hours := 0.0, travel := 0.0);
    }

    /** Lines 94-99: `update_entry` on the entry being edited, back to add mode; or `add_entry`. */
    method Save(date: string, kind: string, hours: real, travel: real)
      requires StoreReady()
      modifies this`editingId, this`submitLabel, store
      ensures StoreReady() && editingId == None
      ensures old(editingId).Some? ==> submitLabel == "Add Entry"
      ensures old(editingId).None? ==> submitLabel == old(submitLabel)
      ensures old(editingId).Some? ==>
                && store.entries == WithFields(old(store.entries), old(editingId).value, date, kind, hours, travel)
                && store.lastId == old(store.lastId)
      ensures old(editingId).None? ==>
                && store.entries == old(store.entries) + [Entry(store.lastId, date, kind, hours, travel)]
                && store.lastId == old(store.lastId) + 1 && store.lastId !in old(store.issued)
    {
      // Ids start at 1, so `editing_id` is truthy exactly when it is set.
      assert Truthy(editingId) <==> editingId.Some?;
      if Truthy(editingId) {
        store.Update(editingId.value, date, kind, hours, travel);
        submitLabel := "Add Entry";
        editingId := None;
      } else {
        store.Add(date, kind, hours, travel);
      }
    }

    /** `handle_edit` on the row `selected` (`-1` when none is): puts the entry's
        id in `editing_id` and its values into the form. */
    method HandleEdit(selected: int)
      requires StoreReady() && Shown() && DateIsIso() && selected < |table|
      modifies this`editingId, this`form, this`submitLabel
      ensures StoreReady() && Shown() && DateIsIso()
      ensures selected < 0 ==> unchanged(this)
      ensures selected >= 0 ==>
                && editingId == Some(entries[selected].id)
                && form == EditForm(old(form), entries[selected])
                && submitLabel == "Update Entry"
    {
      if selected < 0 {
        return;
      }
      var entry := entries[selected];
      assert entry in multiset(entries);
      assert entry in store.entries;
      editingId := Some(entry.id);
      form := EditForm(form, entry);
      submitLabel := "Update Entry";
    }

    /** `handle_delete` on the row `selected`: deletes that entry from the store,
        exactly one row, and refreshes the table. */
    method HandleDelete(selected: int)
      requires StoreReady() && Shown() && selected < |table|
      modifies this`entries, this`table, this`summary, store
      ensures StoreReady() && Shown()
      ensures IsoDated(old(store.entries)) ==> IsoDated(store.entries)
      ensures selected < 0 ==> unchanged(this) && unchanged(store)
      ensures selected >= 0 ==>
                && store.entries == Without(old(store.entries), old(entries)[selected].id)
                && |store.entries| == |old(store.entries)| - 1
                && store.lastId == old(store.lastId)
    {
      if selected < 0 {
        return;
      }
      var entryId := entries[selected].id;
      assert entries[selected] in multiset(store.entries);
      assert exists i :: 0 <= i < |store.entries| && store.entries[i].id == entryId;
      ghost var before := store.entries;
      Remove(entryId);
      if IsoDated(before) {
        WithoutKeepsIsoDates(before, entryId);
      }
    }

    /** Lines 134-135: delete the entry with id `id`, which the store holds, and refresh the table. */
    method Remove(id: int)
      requires StoreReady() && exists i :: 0 <= i < |store.entries| && store.entries[i].id == id
      modifies this`entries, this`table, this`summary, store
      ensures Valid()
      ensures store.entries == Without(old(store.entries), id)
      ensures |store.entries| == |old(store.entries)| - 1
      ensures store.lastId == old(store.lastId)
    {
      store.Delete(id);
      RefreshTable();
    }
  }
}
