/** The journal's three tables as values, and what each SQL statement the
    import scripts issue does to them. Both scripts create the same
    `entries` and `activities` tables (`id INTEGER PRIMARY KEY AUTOINCREMENT`,
    `name TEXT UNIQUE`); they differ in the join table, which each script's
    module models itself. */
module Tables {
  import opened Text

  datatype Option<T> = None | Some(value: T)

  /** One spreadsheet row, as `csv.DictReader` hands it over: every column a string. */
  datatype Row = Row(
    fullDate: string, date: string, weekday: string, time: string,
    mood: string, noteTitle: string, note: string, activities: string)

  /** One row of the `entries` table. */
  datatype Entry = Entry(
    id: nat, fullDate: string, date: string, weekday: string, time: string,
    mood: string, noteTitle: string, note: string)

  /** One row of `entry_activities`: `(entry_id, activity_id)`. */
  type Link = (nat, nat)

  /** The `activities` table: each unique name with its id. */
  type ActivityIds = map<string, nat>

  /** The row `INSERT INTO entries (...) VALUES (...)` stores for a spreadsheet
      row under the id `id`: every column copied, the note cleaned. */
  function StoredEntry(id: nat, row: Row): Entry
  {
    Entry(id, row.fullDate, row.date, row.weekday, row.time, row.mood, row.noteTitle, CleanNote(row.note))
  }

  /** An `entries` table whose AUTOINCREMENT counter is `next`: ids are
      positive, below the counter, and increase in insertion order. */
  predicate EntriesValid(entries: seq<Entry>, next: nat)
  {
    && next >= 1
    && (forall i | 0 <= i < |entries| :: 1 <= entries[i].id < next)
    && (forall i, j | 0 <= i < j < |entries| :: entries[i].id < entries[j].id)
  }

  /** The ids present in an `entries` table. */
  function EntryIds(entries: seq<Entry>): set<nat>
  {
    set e | e in entries :: e.id
  }

  /** An `activities` table whose AUTOINCREMENT counter is `next`: ids are
      positive and below the counter, and no two names share an id. Names are
      unique because they are the keys of the map. */
  predicate ActivitiesValid(ids: ActivityIds, next: nat)
  {
    && next >= 1
    && (forall n | n in ids :: 1 <= ids[n] < next)
    && (forall n, m | n in ids && m in ids && n != m :: ids[n] != ids[m])
  }

  /** `INSERT INTO entries ...` followed by `lastrowid`: the new row gets the
      counter's value, which is fresh. */
  lemma InsertEntryFresh(entries: seq<Entry>, next: nat, row: Row)
    requires EntriesValid(entries, next)
    ensures EntriesValid(entries + [StoredEntry(next, row)], next + 1)
    ensures next !in EntryIds(entries)
    ensures EntryIds(entries + [StoredEntry(next, row)]) == EntryIds(entries) + {next}
  {
    var es := entries + [StoredEntry(next, row)];
    assert forall i | 0 <= i < |entries| :: es[i] == entries[i];
    forall e | e in entries ensures e.id < next {
      var i :| 0 <= i < |entries| && entries[i] == e;
    }
    forall id | id in EntryIds(es) ensures id in EntryIds(entries) + {next} {
      var e :| e in es && e.id == id;
      var i :| 0 <= i < |es| && es[i] == e;
      if i < |entries| { assert e in entries; }
    }
    forall id | id in EntryIds(entries) + {next} ensures id in EntryIds(es) {
      if id == next {
        assert es[|entries|] in es;
      } else {
        var e :| e in entries && e.id == id;
        var i :| 0 <= i < |entries| && entries[i] == e;
        assert es[i] in es;
      }
    }
  }

  /** `INSERT OR IGNORE INTO activities (name) VALUES (?)`: a new name gets the
      counter's value; a name already in the table is ignored. Either way the
      AUTOINCREMENT counter moves past the rowid the statement picked: SQLite
      records that rowid before the UNIQUE check that drops the row, so an
      ignored insert leaves a gap in the ids. */
  function InsertOrIgnore(ids: ActivityIds, next: nat, name: string): (r: (ActivityIds, nat))
    ensures r.0.Keys == ids.Keys + {name}
    ensures forall n | n in ids :: r.0[n] == ids[n]
    ensures name in ids ==> r.0 == ids
    ensures name !in ids ==> r.0[name] == next
    ensures r.1 == next + 1
    ensures ActivitiesValid(ids, next) ==> ActivitiesValid(r.0, r.1) && ids.Values <= r.0.Values
  {
    if name in ids then (ids, next + 1) else (ids[name := next], next + 1)
  }

  /** `SELECT id FROM activities WHERE name = ?`: at most one row since names are unique. */
  function SelectId(ids: ActivityIds, name: string): Option<nat>
  {
    if name in ids then Some(ids[name]) else None
  }

  /** Since names are unique, the lookup yields at most one row: a name in the
      table gives a positive id below the counter that no other name has, and
      the name an id was found for is the only name with that id. */
  lemma SelectIdUnique(ids: ActivityIds, next: nat, name: string)
    requires ActivitiesValid(ids, next)
    ensures SelectId(ids, name).Some? <==> name in ids
    ensures SelectId(ids, name).Some? ==>
              && 1 <= SelectId(ids, name).value < next
              && SelectId(ids, name).value in ids.Values
              && forall m | m in ids && ids[m] == SelectId(ids, name).value :: m == name
  {
  }

  /** The entries a row loop inserts for `rows`, ids counted from `first`. */
  function ImportedEntries(first: nat, rows: seq<Row>): seq<Entry>
    decreases |rows|
  {
    if rows == [] then []
    else ImportedEntries(first, rows[..|rows| - 1]) + [StoredEntry(first + |rows| - 1, rows[|rows| - 1])]
  }

  /** Row `k` becomes the entry with id `first + k`: one entry per row, in order. */
  lemma {:induction false} ImportedEntriesAt(first: nat, rows: seq<Row>)
    ensures |ImportedEntries(first, rows)| == |rows|
    ensures forall k | 0 <= k < |rows| :: ImportedEntries(first, rows)[k] == StoredEntry(first + k, rows[k])
    decreases |rows|
  {
    if rows != [] {
      var init := rows[..|rows| - 1];
      ImportedEntriesAt(first, init);
      var es := ImportedEntries(first, rows);
      forall k | 0 <= k < |rows| ensures es[k] == StoredEntry(first + k, rows[k]) {
        if k < |init| { assert es[k] == ImportedEntries(first, init)[k] && init[k] == rows[k]; }
      }
    }
  }

  /** One more row: the entries of the first `i + 1` rows are those of the
      first `i` and the row's own entry. */
  lemma ImportedEntriesStep(first: nat, rows: seq<Row>, i: nat, entryId: nat, e0: seq<Entry>, e1: seq<Entry>, e2: seq<Entry>)
    requires i < |rows| && entryId == first + i
    requires e1 == e0 + ImportedEntries(first, rows[..i]) && e2 == e1 + [StoredEntry(entryId, rows[i])]
    ensures e2 == e0 + ImportedEntries(first, rows[..i + 1])
  {
    assert rows[..i + 1][..i] == rows[..i];
  }

  /** Associativity as a separate fact: stating it inside a larger proof makes
      the solver reason about sequence extensionality with everything else in
      scope, while a call only adds the equation. */
  lemma AppendAssoc<T>(a: seq<T>, b: seq<T>, c: seq<T>)
    ensures a + b + c == a + (b + c)
  {
  }
}
