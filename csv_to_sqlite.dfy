/** `helper-scripts/csv_to_sqlite.py`: open (or create) the journal database,
    seed the fixed activity vocabulary with `INSERT OR IGNORE`, then import
    the spreadsheet rows. Each row becomes one entry, and each of its
    `' | '`-separated activity names that is already in the vocabulary
    becomes one link; unknown names are skipped and no activity is created.
    The join table has no key, so links are a sequence that may repeat. */
module CsvToSqlite {
  import opened Text
  import opened Tables

  /** The vocabulary `create_database` seeds. */
  const PredefinedActivities: set<string> := {
    "work", "relax", "friends", "date", "sport", "celebration",
    "watching", "reading", "gaming", "shopping", "travel",
    "good meal", "cleaning", "thinking", "beaten up", "art",
    "sleeping", "adrenaline", "IDEA"
  }

  /** The separator of the `activities` column. */
  const ActivitySeparator: string := " | "

  // ---------------------------------------------------------------------------
  // Seeding

  /** The seeding loop: `INSERT OR IGNORE` of each of `names`, in order. */
  function SeedAll(ids: ActivityIds, next: nat, names: seq<string>): (ActivityIds, nat)
    decreases |names|
  {
    if names == [] then (ids, next)
    else
      var prev := SeedAll(ids, next, names[..|names| - 1]);
      InsertOrIgnore(prev.0, prev.1, names[|names| - 1])
  }

  /** Seeding keeps the table valid, adds exactly the seeded names, keeps the
      ids of names already present and gives every new name a fresh id. */
  lemma {:induction false} SeedAllTable(ids: ActivityIds, next: nat, names: seq<string>)
    requires ActivitiesValid(ids, next)
    ensures var r := SeedAll(ids, next, names);
      && ActivitiesValid(r.0, r.1)
      && r.0.Keys == ids.Keys + (set n | n in names)
      && (forall n | n in ids :: r.0[n] == ids[n])
      && ids.Values <= r.0.Values
      && r.1 == next + |names|
      && (forall n | n in r.0 && n !in ids :: next <= r.0[n])
    decreases |names|
  {
    if names != [] {
      var init := names[..|names| - 1];
      var last := names[|names| - 1];
      SeedAllTable(ids, next, init);
      assert names == init + [last];
      SeedNamesSnoc(init, last);
      var prev := SeedAll(ids, next, init);
      assert SeedAll(ids, next, names) == InsertOrIgnore(prev.0, prev.1, last);
      SeedStep(ids, next, prev, (set n | n in init), |init|, last);
    }
  }

  /** `SeedAllTable` for one more name `last`, after `count` names forming the set `seeded`. */
  lemma SeedStep(ids: ActivityIds, next: nat, prev: (ActivityIds, nat), seeded: set<string>, count: nat, last: string)
    requires ActivitiesValid(prev.0, prev.1)
    requires prev.0.Keys == ids.Keys + seeded
    requires (forall n | n in ids :: prev.0[n] == ids[n]) && ids.Values <= prev.0.Values && prev.1 == next + count
    requires forall n | n in prev.0 && n !in ids :: next <= prev.0[n]
    ensures var r := InsertOrIgnore(prev.0, prev.1, last);
      && ActivitiesValid(r.0, r.1)
      && r.0.Keys == ids.Keys + (seeded + {last})
      && (forall n | n in ids :: r.0[n] == ids[n])
      && ids.Values <= r.0.Values
      && r.1 == next + count + 1
      && (forall n | n in r.0 && n !in ids :: next <= r.0[n])
  {
  }

  /** One more name for the seeding loop. */
  lemma SeedAllSnoc(ids: ActivityIds, next: nat, names: seq<string>, i: nat, prev: (ActivityIds, nat))
    requires i < |names| && prev == SeedAll(ids, next, names[..i])
    ensures SeedAll(ids, next, names[..i + 1]) == InsertOrIgnore(prev.0, prev.1, names[i])
  {
    assert names[..i + 1][..i] == names[..i];
  }

  lemma SeedNamesSnoc(init: seq<string>, last: string)
    ensures (set n | n in init + [last]) == (set n | n in init) + {last}
  {
    forall n ensures n in init + [last] <==> n in init || n == last {
    }
  }

  /** Seeding names that are all present already changes no name or id; only
      the counter moves, once per ignored insert. */
  lemma {:induction false} SeedAllIdempotent(ids: ActivityIds, next: nat, names: seq<string>)
    requires forall i | 0 <= i < |names| :: names[i] in ids
    ensures SeedAll(ids, next, names) == (ids, next + |names|)
    decreases |names|
  {
    if names != [] {
      SeedAllIdempotent(ids, next, names[..|names| - 1]);
    }
  }

  /** Every seeded name is in the table afterwards. */
  lemma {:induction false} SeedAllContains(ids: ActivityIds, next: nat, names: seq<string>)
    ensures forall i | 0 <= i < |names| :: names[i] in SeedAll(ids, next, names).0
    decreases |names|
  {
    if names != [] {
      var init := names[..|names| - 1];
      SeedAllContains(ids, next, init);
      forall i | 0 <= i < |names| ensures names[i] in SeedAll(ids, next, names).0 {
        if i < |init| { assert names[i] == init[i]; }
      }
    }
  }

  /** Running the seeding loop a second time leaves the names and ids as the
      first run left them, the counter moved on by one per name. */
  lemma SeedTwice(ids: ActivityIds, next: nat, names: seq<string>)
    ensures var once := SeedAll(ids, next, names);
      SeedAll(once.0, once.1, names) == (once.0, once.1 + |names|)
  {
    SeedAllContains(ids, next, names);
    var once := SeedAll(ids, next, names);
    SeedAllIdempotent(once.0, once.1, names);
  }

  /** Seeding the vocabulary, in any iteration order: afterwards every
      predefined name is in the table, the ids already present are kept, new
      names get fresh ids, and a table that already held the whole vocabulary
      keeps exactly its names and ids. The counter moves by one per name
      visited. */
  lemma SeedVocabulary(ids: ActivityIds, next: nat, order: seq<string>)
    requires ActivitiesValid(ids, next)
    requires forall i | 0 <= i < |order| :: order[i] in PredefinedActivities
    requires forall n | n in PredefinedActivities :: n in order
    ensures var r := SeedAll(ids, next, order);
      && ActivitiesValid(r.0, r.1)
      && r.0.Keys == ids.Keys + PredefinedActivities
      && (forall n | n in ids :: r.0[n] == ids[n])
      && ids.Values <= r.0.Values
      && (forall n | n in r.0 && n !in ids :: next <= r.0[n])
      && r.1 == next + |order|
      && (PredefinedActivities <= ids.Keys ==> r.0 == ids)
  {
    SeedAllTable(ids, next, order);
    assert (set n | n in order) == PredefinedActivities;
    if PredefinedActivities <= ids.Keys {
      forall j | 0 <= j < |order| ensures order[j] in ids {
        assert order[j] in PredefinedActivities;
      }
      SeedAllIdempotent(ids, next, order);
    }
  }

  // ---------------------------------------------------------------------------
  // Links of one row

  /** `[a.strip() for a in row['activities'].split(' | ')]`. */
  function ActivityNames(field: string): seq<string>
  {
    SplitStrip(field, ActivitySeparator)
  }

  /** What `INSERT INTO entry_activities SELECT ?, id FROM activities WHERE name = ?`
      adds: one link when the name is in the table, none otherwise. */
  function SelectLink(entryId: nat, name: string, ids: ActivityIds): seq<Link>
  {
    match SelectId(ids, name)
    case None => []
    case Some(activityId) => [(entryId, activityId)]
  }

  /** The links the statement above adds for each of `names`, in order. */
  function MatchLinks(entryId: nat, names: seq<string>, ids: ActivityIds): seq<Link>
    decreases |names|
  {
    if names == [] then []
    else MatchLinks(entryId, names[..|names| - 1], ids) + SelectLink(entryId, names[|names| - 1], ids)
  }

  /** One more name: its link, if any, comes after those of the names before it. */
  lemma MatchLinksSnoc(entryId: nat, names: seq<string>, i: nat, ids: ActivityIds, prev: seq<Link>)
    requires i < |names| && prev == MatchLinks(entryId, names[..i], ids)
    ensures MatchLinks(entryId, names[..i + 1], ids) == prev + SelectLink(entryId, names[i], ids)
  {
    assert names[..i + 1][..i] == names[..i];
  }

  /** The links `process_csv` adds for a row whose entry got `entryId`: none
      when the column is empty. */
  function RowLinks(entryId: nat, field: string, ids: ActivityIds): seq<Link>
  {
    if field == "" then [] else MatchLinks(entryId, ActivityNames(field), ids)
  }

  /** Every link added for a row points from that row's entry to an activity in the table. */
  lemma {:induction false} MatchLinksReference(entryId: nat, names: seq<string>, ids: ActivityIds)
    ensures |MatchLinks(entryId, names, ids)| <= |names|
    ensures forall k | 0 <= k < |MatchLinks(entryId, names, ids)| ::
              MatchLinks(entryId, names, ids)[k].0 == entryId && MatchLinks(entryId, names, ids)[k].1 in ids.Values
    decreases |names|
  {
    if names != [] {
      var prev := MatchLinks(entryId, names[..|names| - 1], ids);
      MatchLinksReference(entryId, names[..|names| - 1], ids);
      var r := MatchLinks(entryId, names, ids);
      forall k | 0 <= k < |r| ensures r[k].0 == entryId && r[k].1 in ids.Values {
        if k < |prev| { assert r[k] == prev[k]; }
      }
    }
  }

  /** Each activity receives exactly as many links as there are names naming it
      (repeats included); names that match no activity add nothing. */
  lemma {:induction false} MatchLinksCount(entryId: nat, names: seq<string>, ids: ActivityIds, next: nat)
    requires ActivitiesValid(ids, next)
    ensures forall n | n in ids :: multiset(MatchLinks(entryId, names, ids))[(entryId, ids[n])] == multiset(names)[n]
    decreases |names|
  {
    if names != [] {
      var init := names[..|names| - 1];
      var last := names[|names| - 1];
      MatchLinksCount(entryId, init, ids, next);
      assert names == init + [last];
      forall n | n in ids
        ensures multiset(MatchLinks(entryId, names, ids))[(entryId, ids[n])] == multiset(names)[n]
      {
        assert multiset(names) == multiset(init) + multiset{last};
        if last in ids && last != n {
          assert ids[last] != ids[n];
        }
      }
    }
  }

  /** When no name is in the table, a row adds no links. */
  lemma {:induction false} NoKnownNamesNoLinks(entryId: nat, names: seq<string>, ids: ActivityIds)
    requires forall i | 0 <= i < |names| :: names[i] !in ids
    ensures MatchLinks(entryId, names, ids) == []
    decreases |names|
  {
    if names != [] {
      NoKnownNamesNoLinks(entryId, names[..|names| - 1], ids);
    }
  }

  /** The links `process_csv` adds for `rows`, whose entries got consecutive ids from `first`. */
  function CsvLinks(first: nat, rows: seq<Row>, ids: ActivityIds): seq<Link>
    decreases |rows|
  {
    if rows == [] then []
    else CsvLinks(first, rows[..|rows| - 1], ids) + RowLinks(first + |rows| - 1, rows[|rows| - 1].activities, ids)
  }

  /** Every link of an import points from one of the imported entries to an activity in the table. */
  lemma {:induction false} CsvLinksReference(first: nat, rows: seq<Row>, ids: ActivityIds)
    ensures forall k | 0 <= k < |CsvLinks(first, rows, ids)| ::
              first <= CsvLinks(first, rows, ids)[k].0 < first + |rows| && CsvLinks(first, rows, ids)[k].1 in ids.Values
    decreases |rows|
  {
    if rows != [] {
      var prev := CsvLinks(first, rows[..|rows| - 1], ids);
      CsvLinksReference(first, rows[..|rows| - 1], ids);
      var field := rows[|rows| - 1].activities;
      var row := RowLinks(first + |rows| - 1, field, ids);
      if field != "" {
        MatchLinksReference(first + |rows| - 1, ActivityNames(field), ids);
      }
      var r := CsvLinks(first, rows, ids);
      forall k | 0 <= k < |r| ensures first <= r[k].0 < first + |rows| && r[k].1 in ids.Values {
        if k < |prev| { assert r[k] == prev[k]; } else { assert r[k] == row[k - |prev|]; }
      }
    }
  }

  /** One more row of the import: the links of the first `i + 1` rows are
      those of the first `i` and the row's own. */
  lemma CsvLinksStep(first: nat, rows: seq<Row>, i: nat, entryId: nat, ids: ActivityIds, l0: seq<Link>, l1: seq<Link>, l2: seq<Link>)
    requires i < |rows| && entryId == first + i
    requires l1 == l0 + CsvLinks(first, rows[..i], ids) && l2 == l1 + RowLinks(entryId, rows[i].activities, ids)
    ensures l2 == l0 + CsvLinks(first, rows[..i + 1], ids)
  {
    var p := rows[..i + 1];
    assert p[..|p| - 1] == rows[..i] && p[|p| - 1] == rows[i] && first + |p| - 1 == entryId;
    var prev := CsvLinks(first, rows[..i], ids);
    var row := RowLinks(entryId, rows[i].activities, ids);
    assert CsvLinks(first, p, ids) == prev + row;
    AppendAssoc(l0, prev, row);
  }

  // ---------------------------------------------------------------------------
  // The database

  class JournalDb {
    var entries: seq<Entry>
    var nextEntryId: nat
    var activities: ActivityIds
    var nextActivityId: nat
    var links: seq<Link>

    /** Ids are fresh and unique, names unique, and every link references an
        existing entry and an existing activity. */
    predicate Valid()
      reads this
    {
      && EntriesValid(entries, nextEntryId)
      && ActivitiesValid(activities, nextActivityId)
      && (forall k | 0 <= k < |links| :: links[k].0 in EntryIds(entries) && links[k].1 in activities.Values)
    }

    /** A database file that did not exist: the three `CREATE TABLE IF NOT
        EXISTS` statements leave three empty tables. */
    constructor ()
      ensures Valid()
      ensures entries == [] && activities == map[] && links == []
      ensures nextEntryId == 1 && nextActivityId == 1
    {
      entries, nextEntryId := [], 1;
      activities, nextActivityId := map[], 1;
      links := [];
    }

    /** `create_database` on an existing database: seed the vocabulary, visited
        in `order` (the iteration order of the Python set). */
    method CreateDatabase(order: seq<string>)
      requires Valid()
      requires forall i | 0 <= i < |order| :: order[i] in PredefinedActivities
      requires forall n | n in PredefinedActivities :: n in order
      modifies this`activities, this`nextActivityId
      ensures Valid()
      ensures activities.Keys == old(activities).Keys + PredefinedActivities
      ensures forall n | n in old(activities) :: activities[n] == old(activities)[n]
      ensures forall n | n in activities && n !in old(activities) :: old(nextActivityId) <= activities[n]
      ensures nextActivityId == old(nextActivityId) + |order|
      ensures PredefinedActivities <= old(activities).Keys ==> activities == old(activities)
    {
      SeedActivities(order);
      SeedVocabulary(old(activities), old(nextActivityId), order);
    }

    /** The `INSERT OR IGNORE` loop of `create_database`. */
    method SeedActivities(names: seq<string>)
      requires Valid()
      modifies this`activities, this`nextActivityId
      ensures Valid()
      ensures (activities, nextActivityId) == SeedAll(old(activities), old(nextActivityId), names)
    {
      var i := 0;
      while i < |names|
        invariant 0 <= i <= |names|
        invariant (activities, nextActivityId) == SeedAll(old(activities), old(nextActivityId), names[..i])
        invariant ActivitiesValid(activities, nextActivityId) && old(activities).Values <= activities.Values
      {
        SeedAllSnoc(old(activities), old(nextActivityId), names, i, (activities, nextActivityId));
        var r := InsertOrIgnore(activities, nextActivityId, names[i]);
        activities, nextActivityId := r.0, r.1;
        i := i + 1;
      }
      assert names[..i] == names;
    }

    /** One iteration of the row loop of `process_csv`: insert the entry, take
        its id, then add a link for each activity name found in the table. */
    method ProcessRow(row: Row) returns (entryId: nat)
      requires Valid()
      modifies this`entries, this`nextEntryId, this`links
      ensures Valid()
      ensures entryId == old(nextEntryId) && nextEntryId == entryId + 1
      ensures forall k | 0 <= k < |old(entries)| :: old(entries)[k].id < entryId
      ensures entries == old(entries) + [StoredEntry(entryId, row)]
      ensures links == old(links) + RowLinks(entryId, row.activities, activities)
    {
      InsertEntryFresh(entries, nextEntryId, row);
      entryId := nextEntryId;
      entries := entries + [StoredEntry(entryId, row)];
      nextEntryId := nextEntryId + 1;
      assert Valid();
      if row.activities != "" {
        InsertLinks(entryId, ActivityNames(row.activities));
      }
    }

    /** The inner loop of `process_csv`: one `INSERT ... SELECT` per name. */
    method InsertLinks(entryId: nat, names: seq<string>)
      requires Valid() && entryId in EntryIds(entries)
      modifies this`links
      ensures Valid()
      ensures links == old(links) + MatchLinks(entryId, names, activities)
    {
      var i := 0;
      while i < |names|
        invariant 0 <= i <= |names|
        invariant links == old(links) + MatchLinks(entryId, names[..i], activities)
        invariant Valid()
      {
        MatchLinksSnoc(entryId, names, i, activities, MatchLinks(entryId, names[..i], activities));
        var found := SelectId(activities, names[i]);
        if found.Some? {
          links := links + [(entryId, found.value)];
        }
        i := i + 1;
      }
      assert names[..i] == names;
    }

    /** The row loop of `process_csv` over the spreadsheet's rows. */
    method ProcessCsv(rows: seq<Row>)
      requires Valid()
      modifies this`entries, this`nextEntryId, this`links
      ensures Valid()
      ensures nextEntryId == old(nextEntryId) + |rows|
      ensures entries == old(entries) + ImportedEntries(old(nextEntryId), rows)
      ensures links == old(links) + CsvLinks(old(nextEntryId), rows, activities)
    {
      var i := 0;
      while i < |rows|
        invariant 0 <= i <= |rows|
        invariant Valid()
        invariant nextEntryId == old(nextEntryId) + i
        invariant entries == old(entries) + ImportedEntries(old(nextEntryId), rows[..i])
        invariant links == old(links) + CsvLinks(old(nextEntryId), rows[..i], activities)
      {
        ghost var entriesBefore, linksBefore := entries, links;
        var id := ProcessRow(rows[i]);
        ImportedEntriesStep(old(nextEntryId), rows, i, id, old(entries), entriesBefore, entries);
        CsvLinksStep(old(nextEntryId), rows, i, id, activities, old(links), linksBefore, links);
        i := i + 1;
      }
      assert rows[..i] == rows;
    }
  }
}
