/** `helper-scripts/csv_to_sql.py`: a fresh database whose activities are
    created on demand through a name-to-id cache, and whose join table has the
    composite primary key `(entry_id, activity_id)`, so that linking an entry to
    the same activity twice is a constraint error that ends the script. */
module CsvToSql {
  import opened Text
  import opened Tables

  /** The separator of the `activities` column in this script. */
  const ActivitySeparator: string := "|"

  // ---------------------------------------------------------------------------
  // get_or_create_activity_id

  /** The `activities` table with its AUTOINCREMENT counter, and the
      module-level `activity_cache` dict. */
  datatype Registry = Registry(ids: ActivityIds, next: nat, cache: map<string, nat>)

  /** A valid table, and a cache that agrees with the table on every cached name. */
  predicate Coherent(reg: Registry)
  {
    && ActivitiesValid(reg.ids, reg.next)
    && (forall n | n in reg.cache :: n in reg.ids && reg.cache[n] == reg.ids[n])
  }

  /** `reg2` is `reg` with rows added: no name lost, no id changed, the counter
      not moved back, and every added name numbered from the old counter on. */
  predicate Extends(reg: Registry, reg2: Registry)
  {
    && reg.ids.Keys <= reg2.ids.Keys
    && (forall n | n in reg.ids :: reg2.ids[n] == reg.ids[n])
    && reg.ids.Values <= reg2.ids.Values
    && reg.next <= reg2.next
    && (forall n | n in reg2.ids && n !in reg.ids :: reg.next <= reg2.ids[n])
  }

  lemma ExtendsTrans(a: Registry, b: Registry, c: Registry)
    requires Extends(a, b) && Extends(b, c)
    ensures Extends(a, c)
  {
  }

  /** `get_or_create_activity_id(name)`: the id it returns and the registry afterwards. */
  function GetOrCreate(reg: Registry, name: string): (Option<nat>, Registry)
  {
    var n := Strip(name);
    if n == [] then (None, reg)
    else if n in reg.cache then (Some(reg.cache[n]), reg)
    else
      var (ids, next) := InsertOrIgnore(reg.ids, reg.next, n);
      match SelectId(ids, n)
      case Some(id) => (Some(id), Registry(ids, next, reg.cache[n := id]))
      case None => (None, Registry(ids, next, reg.cache))
  }

  /** A name that is blank once stripped gives None and changes neither the
      table nor the cache. */
  lemma GetOrCreateBlank(reg: Registry, name: string)
    requires AllSpace(name)
    ensures GetOrCreate(reg, name) == (None, reg)
  {
    StripEmptyIff(name);
  }

  /** A non-blank name gives the id the table holds for the stripped name,
      which is in the table and in the cache afterwards. */
  lemma GetOrCreateResolves(reg: Registry, name: string)
    requires Coherent(reg) && !AllSpace(name)
    ensures var (id, reg2) := GetOrCreate(reg, name);
      && Strip(name) in reg2.ids && Strip(name) in reg2.cache
      && id == Some(reg2.ids[Strip(name)])
  {
    StripEmptyIff(name);
  }

  /** A call keeps the cache coherent, adds at most the stripped name to the
      table, never renumbers an existing activity, and returns only positive
      ids of the table. */
  lemma GetOrCreateKeeps(reg: Registry, name: string)
    requires Coherent(reg)
    ensures var (id, reg2) := GetOrCreate(reg, name);
      && Coherent(reg2)
      && Extends(reg, reg2)
      && reg2.ids.Keys <= reg.ids.Keys + {Strip(name)}
      && reg.cache.Keys <= reg2.cache.Keys
      && (id.Some? ==> 1 <= id.value && id.value in reg2.ids.Values)
  {
    var n := Strip(name);
    if n != [] && n !in reg.cache {
      var (ids, next) := InsertOrIgnore(reg.ids, reg.next, n);
      assert n in ids;
      assert ids[n] in ids.Values;
    } else if n != [] {
      assert reg.ids[n] in reg.ids.Values;
    }
  }

  /** The `if activity_id:` test holds exactly for the ids returned for non-blank
      names: it is the same as "not None". */
  lemma GetOrCreateTruthy(reg: Registry, name: string)
    requires Coherent(reg)
    ensures var id := GetOrCreate(reg, name).0;
      && ((id.Some? && id.value != 0) <==> id.Some?)
      && (id.Some? <==> !AllSpace(name))
  {
    GetOrCreateKeeps(reg, name);
    StripEmptyIff(name);
    if !AllSpace(name) {
      GetOrCreateResolves(reg, name);
    }
  }

  /** Asking again for the same name returns the same id and changes nothing. */
  lemma GetOrCreateTwice(reg: Registry, name: string)
    requires Coherent(reg)
    ensures var (id, reg2) := GetOrCreate(reg, name);
      GetOrCreate(reg2, name) == (id, reg2)
  {
    StripEmptyIff(name);
    if !AllSpace(name) {
      GetOrCreateResolves(reg, name);
      GetOrCreateKeeps(reg, name);
    }
  }

  // ---------------------------------------------------------------------------
  // Links of one row

  /** Why the script stops: `INSERT INTO entry_activities` raised an
      IntegrityError on the composite key. */
  datatype ImportError = DuplicateLink(entryId: nat, activityId: nat)

  /** The state of a row's inner loop: the registry, the join table, and the
      error that ended it, if any. */
  datatype Linking = Linking(reg: Registry, links: set<Link>, failure: Option<ImportError>)

  /** `[a.strip() for a in raw_activities.split('|')]`. */
  function RowPieces(field: string): seq<string>
  {
    SplitStrip(field, ActivitySeparator)
  }

  /** One iteration of the inner loop: look the piece up, and insert the link
      when an id came back; a pair already present is the constraint error. */
  function LinkPiece(s: Linking, entryId: nat, piece: string): Linking
  {
    var (id, reg) := GetOrCreate(s.reg, piece);
    if id.Some? && id.value != 0 then
      if (entryId, id.value) in s.links then Linking(reg, s.links, Some(DuplicateLink(entryId, id.value)))
      else Linking(reg, s.links + {(entryId, id.value)}, s.failure)
    else Linking(reg, s.links, s.failure)
  }

  /** `LinkPiece` once the lookup's outcome `(id, reg)` is known, for a state without failure. */
  lemma LinkPieceOutcome(s: Linking, entryId: nat, piece: string, id: Option<nat>, reg: Registry)
    requires (id, reg) == GetOrCreate(s.reg, piece) && s.failure.None?
    ensures !(id.Some? && id.value != 0) ==> LinkPiece(s, entryId, piece) == Linking(reg, s.links, None)
    ensures id.Some? && id.value != 0 && (entryId, id.value) in s.links ==>
              LinkPiece(s, entryId, piece) == Linking(reg, s.links, Some(DuplicateLink(entryId, id.value)))
    ensures id.Some? && id.value != 0 && (entryId, id.value) !in s.links ==>
              LinkPiece(s, entryId, piece) == Linking(reg, s.links + {(entryId, id.value)}, None)
  {
  }

  /** The inner loop over `pieces`, which stops at the first error. */
  function LinkPieces(s: Linking, entryId: nat, pieces: seq<string>): Linking
    decreases |pieces|
  {
    if pieces == [] then s
    else
      var prev := LinkPieces(s, entryId, pieces[..|pieces| - 1]);
      if prev.failure.Some? then prev else LinkPiece(prev, entryId, pieces[|pieces| - 1])
  }

  /** A row whose entry got `entryId`: nothing happens when the column is blank. */
  function LinkRow(reg: Registry, links: set<Link>, entryId: nat, field: string): Linking
  {
    var s := Linking(reg, links, None);
    if Strip(field) == [] then s else LinkPieces(s, entryId, RowPieces(field))
  }

  /** The activity names a list of pieces refers to: each non-blank piece, stripped. */
  function Names(pieces: seq<string>): set<string>
  {
    set i | 0 <= i < |pieces| && Strip(pieces[i]) != [] :: Strip(pieces[i])
  }

  /** Two non-blank pieces name the same activity. */
  predicate Repeats(pieces: seq<string>)
  {
    exists i, j | 0 <= i < j < |pieces| :: Strip(pieces[i]) != [] && Strip(pieces[i]) == Strip(pieces[j])
  }

  /** The links from `entryId` to each of `names` held in `ids`. */
  function EntryLinks(entryId: nat, names: set<string>, ids: ActivityIds): set<Link>
  {
    set n | n in names && n in ids :: (entryId, ids[n])
  }

  /** No link of `links` starts at `entryId`. */
  predicate NewEntry(links: set<Link>, entryId: nat)
  {
    forall l | l in links :: l.0 != entryId
  }

  lemma NamesSnoc(q: seq<string>, x: string)
    ensures Names(q + [x]) == if Strip(x) == [] then Names(q) else Names(q) + {Strip(x)}
  {
    var p := q + [x];
    assert forall i | 0 <= i < |q| :: p[i] == q[i];
    assert p[|q|] == x;
    forall n | n in Names(p) ensures n in Names(q) || (Strip(x) != [] && n == Strip(x)) {
      var i :| 0 <= i < |p| && Strip(p[i]) != [] && Strip(p[i]) == n;
      if i < |q| { assert Strip(q[i]) == n; }
    }
  }

  lemma RepeatsSnoc(q: seq<string>, x: string)
    ensures Repeats(q + [x]) <==> Repeats(q) || (Strip(x) != [] && Strip(x) in Names(q))
  {
    var p := q + [x];
    assert forall i | 0 <= i < |q| :: p[i] == q[i];
    assert p[|q|] == x;
    if Repeats(p) {
      var i, j :| 0 <= i < j < |p| && Strip(p[i]) != [] && Strip(p[i]) == Strip(p[j]);
      if j == |q| {
        assert Strip(q[i]) in Names(q);
      } else {
        assert Strip(q[i]) == Strip(q[j]);
      }
    }
    if Repeats(q) {
      var i, j :| 0 <= i < j < |q| && Strip(q[i]) != [] && Strip(q[i]) == Strip(q[j]);
      assert Strip(p[i]) == Strip(p[j]);
    }
    if Strip(x) != [] && Strip(x) in Names(q) {
      var i :| 0 <= i < |q| && Strip(q[i]) != [] && Strip(q[i]) == Strip(x);
      assert Strip(p[i]) == Strip(p[|q|]);
    }
  }

  /** Links to names already in a table are unaffected by adding rows to it. */
  lemma EntryLinksStable(entryId: nat, names: set<string>, reg: Registry, reg2: Registry)
    requires names <= reg.ids.Keys && Extends(reg, reg2)
    ensures EntryLinks(entryId, names, reg2.ids) == EntryLinks(entryId, names, reg.ids)
  {
  }

  /** What the inner loop has achieved after the pieces `q`, starting from `s`:
      the registry only grew and stayed coherent, the links added all start at
      the new entry and reach an activity of the table, an error happened exactly
      when two pieces name the same activity, and otherwise each named activity
      exists and is linked once. */
  predicate Progress(s: Linking, r: Linking, entryId: nat, q: seq<string>)
  {
    Advanced(s, r, entryId, Names(q), Repeats(q))
  }

  /** `Progress` for pieces whose named activities are `names` and which
      repeat a name exactly when `repeats` holds. */
  predicate Advanced(s: Linking, r: Linking, entryId: nat, names: set<string>, repeats: bool)
  {
    && Coherent(r.reg)
    && Extends(s.reg, r.reg)
    && s.links <= r.links
    && (forall l | l in r.links && l !in s.links :: l.0 == entryId && l.1 in r.reg.ids.Values)
    && (r.failure.Some? <==> repeats)
    && (r.failure.None? ==>
          && r.reg.ids.Keys == s.reg.ids.Keys + names
          && r.links == s.links + EntryLinks(entryId, names, r.reg.ids))
  }

  /** The link for a name `n` with id `v`, whose table `ids2` extends `ids`:
      it is already present exactly when `n` came earlier in the row, and
      adding it completes the row's links so far. */
  lemma EntryLinksAdd(links: set<Link>, entryId: nat, names: set<string>, ids: ActivityIds, reg: Registry, reg2: Registry, n: string)
    requires NewEntry(links, entryId)
    requires names <= reg.ids.Keys && ids == reg.ids && Extends(reg, reg2) && Coherent(reg2) && n in reg2.ids
    ensures (entryId, reg2.ids[n]) in links + EntryLinks(entryId, names, ids) <==> n in names
    ensures EntryLinks(entryId, names + {n}, reg2.ids) == EntryLinks(entryId, names, ids) + {(entryId, reg2.ids[n])}
  {
    var v := reg2.ids[n];
    EntryLinksStable(entryId, names, reg, reg2);
    if n !in names {
      forall m | m in names ensures ids[m] != v {
        assert reg2.ids[m] == ids[m];
      }
    }
  }

  /** One piece keeps `Progress`. */
  lemma LinkPieceStep(s: Linking, prev: Linking, entryId: nat, q: seq<string>, x: string)
    requires s.failure.None? && NewEntry(s.links, entryId)
    requires Progress(s, prev, entryId, q) && prev.failure.None?
    ensures Progress(s, LinkPiece(prev, entryId, x), entryId, q + [x])
  {
    NamesSnoc(q, x);
    RepeatsSnoc(q, x);
    StripEmptyIff(x);
    if AllSpace(x) {
      GetOrCreateBlank(prev.reg, x);
      assert LinkPiece(prev, entryId, x) == prev;
    } else {
      LinkNamedStep(s, prev, entryId, Names(q), x);
    }
  }

  /** A non-blank piece: linked anew, or the constraint error when its name came before. */
  lemma LinkNamedStep(s: Linking, prev: Linking, entryId: nat, names: set<string>, x: string)
    requires s.failure.None? && NewEntry(s.links, entryId)
    requires Advanced(s, prev, entryId, names, false) && prev.failure.None?
    requires !AllSpace(x)
    ensures Advanced(s, LinkPiece(prev, entryId, x), entryId, names + {Strip(x)}, Strip(x) in names)
  {
    var r := LinkPiece(prev, entryId, x);
    var reg := GetOrCreate(prev.reg, x).1;
    GetOrCreateKeeps(prev.reg, x);
    GetOrCreateResolves(prev.reg, x);
    var n := Strip(x);
    EntryLinksAdd(s.links, entryId, names, prev.reg.ids, prev.reg, reg, n);
    if n in names {
      assert r == Linking(reg, prev.links, Some(DuplicateLink(entryId, reg.ids[n])));
    } else {
      assert r == Linking(reg, prev.links + {(entryId, reg.ids[n])}, None);
    }
    LinkNamedProgress(s, prev, r, entryId, names, n);
  }

  /** The registry and links after a non-blank piece whose name is `n`,
      following pieces that named `names` without a repeat. */
  lemma LinkNamedProgress(s: Linking, prev: Linking, r: Linking, entryId: nat, names: set<string>, n: string)
    requires s.failure.None? && NewEntry(s.links, entryId)
    requires Advanced(s, prev, entryId, names, false) && prev.failure.None?
    requires Coherent(r.reg) && Extends(prev.reg, r.reg) && r.reg.ids.Keys == prev.reg.ids.Keys + {n}
    requires n in r.reg.ids
    requires n in names ==> r == Linking(r.reg, prev.links, Some(DuplicateLink(entryId, r.reg.ids[n])))
    requires n !in names ==>
               && r == Linking(r.reg, prev.links + {(entryId, r.reg.ids[n])}, None)
               && EntryLinks(entryId, names + {n}, r.reg.ids) == EntryLinks(entryId, names, prev.reg.ids) + {(entryId, r.reg.ids[n])}
    ensures Advanced(s, r, entryId, names + {n}, n in names)
  {
    ExtendsTrans(s.reg, prev.reg, r.reg);
    assert r.reg.ids[n] in r.reg.ids.Values;
  }

  /** The inner loop over any pieces: `Progress` for all of them. */
  lemma {:induction false} LinkPiecesProgress(s: Linking, entryId: nat, pieces: seq<string>)
    requires s.failure.None? && Coherent(s.reg) && NewEntry(s.links, entryId)
    ensures Progress(s, LinkPieces(s, entryId, pieces), entryId, pieces)
    decreases |pieces|
  {
    if pieces == [] {
      assert Names(pieces) == {};
    } else {
      var q := pieces[..|pieces| - 1];
      var x := pieces[|pieces| - 1];
      assert pieces == q + [x];
      LinkPiecesProgress(s, entryId, q);
      var prev := LinkPieces(s, entryId, q);
      if prev.failure.Some? {
        RepeatsSnoc(q, x);
      } else {
        LinkPieceStep(s, prev, entryId, q, x);
      }
    }
  }

  lemma LinkPiecesSnoc(s: Linking, entryId: nat, pieces: seq<string>, i: nat, prev: Linking)
    requires i < |pieces| && LinkPieces(s, entryId, pieces[..i]) == prev && prev.failure.None?
    ensures LinkPieces(s, entryId, pieces[..i + 1]) == LinkPiece(prev, entryId, pieces[i])
  {
    assert pieces[..i + 1][..i] == pieces[..i];
  }

  /** Once the loop has failed, the rest of the pieces are not looked at. */
  lemma {:induction false} LinkPiecesStops(s: Linking, entryId: nat, pieces: seq<string>, j: nat)
    requires j <= |pieces| && LinkPieces(s, entryId, pieces[..j]).failure.Some?
    ensures LinkPieces(s, entryId, pieces) == LinkPieces(s, entryId, pieces[..j])
    decreases |pieces|
  {
    if j < |pieces| {
      var q := pieces[..|pieces| - 1];
      assert q[..j] == pieces[..j];
      LinkPiecesStops(s, entryId, q, j);
    } else {
      assert pieces[..j] == pieces;
    }
  }

  /** Blank pieces change nothing. */
  lemma {:induction false} LinkBlankPieces(s: Linking, entryId: nat, pieces: seq<string>)
    requires forall i | 0 <= i < |pieces| :: Strip(pieces[i]) == []
    ensures LinkPieces(s, entryId, pieces) == s
    decreases |pieces|
  {
    if pieces != [] {
      LinkBlankPieces(s, entryId, pieces[..|pieces| - 1]);
    }
  }

  /** A blank column splits into blank pieces only, so the `raw_activities.strip()`
      guard changes nothing: the loop would add no link and no activity anyway. */
  lemma BlankFieldPieces(field: string)
    requires AllSpace(field)
    ensures forall i | 0 <= i < |RowPieces(field)| :: Strip(RowPieces(field)[i]) == []
    ensures Names(RowPieces(field)) == {} && !Repeats(RowPieces(field))
  {
    var parts := Split(field, ActivitySeparator);
    SplitAllSpace(field, ActivitySeparator);
    StripAllAt(parts);
    forall i | 0 <= i < |RowPieces(field)| ensures Strip(RowPieces(field)[i]) == [] {
      StripEmptyIff(parts[i]);
    }
  }

  lemma LinkRowGuard(reg: Registry, links: set<Link>, entryId: nat, field: string)
    ensures LinkRow(reg, links, entryId, field) == LinkPieces(Linking(reg, links, None), entryId, RowPieces(field))
  {
    StripEmptyIff(field);
    if AllSpace(field) {
      BlankFieldPieces(field);
      LinkBlankPieces(Linking(reg, links, None), entryId, RowPieces(field));
    }
  }

  /** Two pieces of the row's column name the same activity. */
  predicate RowRepeats(row: Row)
  {
    Repeats(RowPieces(row.activities))
  }

  /** The activity names a row refers to. */
  function RowNames(row: Row): set<string>
  {
    Names(RowPieces(row.activities))
  }

  /** A row whose entry is new: the registry grows and stays coherent, every
      link added goes from the new entry to an activity of the table, the row
      fails exactly when it names an activity twice; otherwise the table gains
      exactly the row's names and the join table one link per name. */
  lemma LinkRowSpec(reg: Registry, links: set<Link>, entryId: nat, row: Row)
    requires Coherent(reg) && NewEntry(links, entryId)
    ensures var r := LinkRow(reg, links, entryId, row.activities);
      && Coherent(r.reg) && Extends(reg, r.reg)
      && links <= r.links
      && (forall l | l in r.links && l !in links :: l.0 == entryId && l.1 in r.reg.ids.Values)
      && (r.failure.Some? <==> RowRepeats(row))
      && (r.failure.None? ==>
            && r.reg.ids.Keys == reg.ids.Keys + RowNames(row)
            && r.links == links + EntryLinks(entryId, RowNames(row), r.reg.ids))
  {
    var s := Linking(reg, links, None);
    LinkRowGuard(reg, links, entryId, row.activities);
    LinkPiecesProgress(s, entryId, RowPieces(row.activities));
  }

  // ---------------------------------------------------------------------------
  // The whole import

  /** The activity names of each row, in row order. */
  function RowNameSets(rows: seq<Row>): seq<set<string>>
  {
    seq(|rows|, k requires 0 <= k < |rows| => RowNames(rows[k]))
  }

  /** The links a successful import of the first `n` rows adds, entry `first + k`
      for row `k`, given each row's activity names. */
  function CsvLinks(first: nat, names: seq<set<string>>, n: nat, ids: ActivityIds): set<Link>
    requires n <= |names|
  {
    if n == 0 then {} else CsvLinks(first, names, n - 1, ids) + EntryLinks(first + n - 1, names[n - 1], ids)
  }

  /** All activity names of the first `n` rows. */
  function CsvNames(names: seq<set<string>>, n: nat): set<string>
    requires n <= |names|
  {
    if n == 0 then {} else CsvNames(names, n - 1) + names[n - 1]
  }

  lemma {:induction false} CsvLinksStable(first: nat, names: seq<set<string>>, n: nat, reg: Registry, reg2: Registry)
    requires n <= |names| && CsvNames(names, n) <= reg.ids.Keys && Extends(reg, reg2)
    ensures CsvLinks(first, names, n, reg2.ids) == CsvLinks(first, names, n, reg.ids)
  {
    if n > 0 {
      CsvLinksStable(first, names, n - 1, reg, reg2);
      EntryLinksStable(first + n - 1, names[n - 1], reg, reg2);
    }
  }

  /** Every link of an import goes from one of its entries to an activity of the table. */
  lemma {:induction false} CsvLinksReference(first: nat, names: seq<set<string>>, n: nat, ids: ActivityIds)
    requires n <= |names|
    ensures forall l | l in CsvLinks(first, names, n, ids) :: first <= l.0 < first + n && l.1 in ids.Values
  {
    if n > 0 {
      CsvLinksReference(first, names, n - 1, ids);
    }
  }

  /** Row `k` of a successful import is linked to each activity it names. */
  lemma {:induction false} CsvLinksComplete(first: nat, names: seq<set<string>>, n: nat, ids: ActivityIds)
    requires n <= |names|
    ensures forall k | 0 <= k < n :: EntryLinks(first + k, names[k], ids) <= CsvLinks(first, names, n, ids)
  {
    if n > 0 {
      CsvLinksComplete(first, names, n - 1, ids);
    }
  }

  /** One more row of a successful import: the names and links of the first
      `i + 1` rows are those of the first `i` and the row's own. */
  lemma CsvLinksStep(first: nat, names: seq<set<string>>, i: nat, entryId: nat, reg0: Registry, reg1: Registry, reg2: Registry,
                     l0: set<Link>, l1: set<Link>, l2: set<Link>)
    requires i < |names| && entryId == first + i
    requires Extends(reg1, reg2)
    requires reg1.ids.Keys == reg0.ids.Keys + CsvNames(names, i) && l1 == l0 + CsvLinks(first, names, i, reg1.ids)
    requires reg2.ids.Keys == reg1.ids.Keys + names[i]
    requires l2 == l1 + EntryLinks(entryId, names[i], reg2.ids)
    ensures reg2.ids.Keys == reg0.ids.Keys + CsvNames(names, i + 1)
    ensures l2 == l0 + CsvLinks(first, names, i + 1, reg2.ids)
  {
    CsvLinksStable(first, names, i, reg1, reg2);
  }

  // ---------------------------------------------------------------------------
  // The database

  class Importer {
    var entries: seq<Entry>
    var nextEntryId: nat
    var activities: ActivityIds
    var nextActivityId: nat
    var cache: map<string, nat>
    var links: set<Link>

    /** The `activities` table and `activity_cache` as one value. */
    function Reg(): Registry
      reads this
    {
      Registry(activities, nextActivityId, cache)
    }

    /** Entry ids fresh and unique, activity names unique, the cache coherent,
        and every link referencing an existing entry and an existing activity. */
    predicate Valid()
      reads this
    {
      && EntriesValid(entries, nextEntryId)
      && Coherent(Reg())
      && (forall l | l in links :: l.0 in EntryIds(entries) && l.1 in activities.Values)
    }

    /** The database file deleted and created anew with the schema, and the
        cache empty. */
    constructor ()
      ensures Valid()
      ensures entries == [] && activities == map[] && cache == map[] && links == {}
      ensures nextEntryId == 1 && nextActivityId == 1
    {
      entries, nextEntryId := [], 1;
      activities, nextActivityId := map[], 1;
      cache := map[];
      links := {};
    }

    /** `get_or_create_activity_id`. */
    method GetOrCreateActivityId(name: string) returns (id: Option<nat>)
      requires Coherent(Reg())
      modifies this`activities, this`nextActivityId, this`cache
      ensures Coherent(Reg()) && Extends(old(Reg()), Reg())
      ensures (id, Reg()) == GetOrCreate(old(Reg()), name)
    {
      GetOrCreateKeeps(Reg(), name);
      var n := Strip(name);
      if n == [] {
        return None;
      }
      if n in cache {
        return Some(cache[n]);
      }
      var inserted := InsertOrIgnore(activities, nextActivityId, n);
      activities, nextActivityId := inserted.0, inserted.1;
      var result := SelectId(activities, n);
      if result.Some? {
        cache := cache[n := result.value];
        return result;
      }
      return None;
    }

    /** One iteration of the row loop: insert the entry, take its id, then link
        it to each activity its column names. */
    method ImportRow(row: Row) returns (entryId: nat, failure: Option<ImportError>)
      requires Valid()
      modifies this`entries, this`nextEntryId, this`activities, this`nextActivityId, this`cache, this`links
      ensures Valid()
      ensures entryId == old(nextEntryId) && nextEntryId == entryId + 1
      ensures entries == old(entries) + [StoredEntry(entryId, row)]
      ensures var r := LinkRow(old(Reg()), old(links), entryId, row.activities);
                Reg() == r.reg && links == r.links && failure == r.failure
      ensures Extends(old(Reg()), Reg()) && old(links) <= links
      ensures failure.Some? <==> RowRepeats(row)
      ensures failure.None? ==>
                && activities.Keys == old(activities).Keys + RowNames(row)
                && links == old(links) + EntryLinks(entryId, RowNames(row), activities)
    {
      InsertEntryFresh(entries, nextEntryId, row);
      entryId := nextEntryId;
      assert NewEntry(links, entryId) by {
        forall l | l in links ensures l.0 != entryId {
          var e :| e in entries && e.id == l.0;
        }
      }
      LinkRowSpec(Reg(), links, entryId, row);
      entries := entries + [StoredEntry(entryId, row)];
      nextEntryId := nextEntryId + 1;
      failure := None;
      if Strip(row.activities) != [] {
        failure := LinkActivities(entryId, RowPieces(row.activities));
      }
    }

    /** The inner loop of one row, which an IntegrityError ends. */
    method LinkActivities(entryId: nat, pieces: seq<string>) returns (failure: Option<ImportError>)
      requires Valid() && entryId in EntryIds(entries)
      modifies this`activities, this`nextActivityId, this`cache, this`links
      ensures Valid()
      ensures var r := LinkPieces(Linking(old(Reg()), old(links), None), entryId, pieces);
                Reg() == r.reg && links == r.links && failure == r.failure
    {
      ghost var s0 := Linking(Reg(), links, None);
      var i := 0;
      while i < |pieces|
        invariant 0 <= i <= |pieces|
        invariant Valid()
        invariant LinkPieces(s0, entryId, pieces[..i]) == Linking(Reg(), links, None)
      {
        failure := LinkNextPiece(s0, entryId, pieces, i);
        if failure.Some? {
          LinkPiecesStops(s0, entryId, pieces, i + 1);
          return;
        }
        i := i + 1;
      }
      assert pieces[..i] == pieces;
      failure := None;
    }

    /** Piece `i` of the loop over `pieces`, after pieces `0..i` went through
        without error from `s0`: look the name up, then link it unless the
        link is already there. */
    method LinkNextPiece(ghost s0: Linking, entryId: nat, pieces: seq<string>, i: nat) returns (failure: Option<ImportError>)
      requires Valid() && entryId in EntryIds(entries) && i < |pieces|
      requires LinkPieces(s0, entryId, pieces[..i]) == Linking(Reg(), links, None)
      modifies this`activities, this`nextActivityId, this`cache, this`links
      ensures Valid()
      ensures LinkPieces(s0, entryId, pieces[..i + 1]) == Linking(Reg(), links, failure)
    {
      ghost var prev := Linking(Reg(), links, None);
      GetOrCreateKeeps(prev.reg, pieces[i]);
      LinkPiecesSnoc(s0, entryId, pieces, i, prev);
      var id := GetOrCreateActivityId(pieces[i]);
      ghost var reg := Reg();
      LinkPieceOutcome(prev, entryId, pieces[i], id, reg);
      failure := None;
      if id.Some? && id.value != 0 {
        if (entryId, id.value) in links {
          failure := Some(DuplicateLink(entryId, id.value));
          return;
        }
        links := links + {(entryId, id.value)};
      }
      assert Reg() == reg;
    }

    /** The row loop over the spreadsheet. It stops at the first failing row,
        since the IntegrityError ends the script; `read` counts the rows whose
        entry was inserted, the failing one included. */
    method ImportCsv(rows: seq<Row>) returns (failure: Option<ImportError>, read: nat)
      requires Valid()
      modifies this`entries, this`nextEntryId, this`activities, this`nextActivityId, this`cache, this`links
      ensures Valid()
      ensures read <= |rows| && nextEntryId == old(nextEntryId) + read
      ensures entries == old(entries) + ImportedEntries(old(nextEntryId), rows[..read])
      ensures Extends(old(Reg()), Reg()) && old(links) <= links
      ensures failure.None? <==> forall k | 0 <= k < |rows| :: !RowRepeats(rows[k])
      ensures failure.Some? ==>
                && 1 <= read && RowRepeats(rows[read - 1])
                && forall k | 0 <= k < read - 1 :: !RowRepeats(rows[k])
      ensures failure.None? ==>
                && read == |rows|
                && activities.Keys == old(activities).Keys + CsvNames(RowNameSets(rows), |rows|)
                && links == old(links) + CsvLinks(old(nextEntryId), RowNameSets(rows), |rows|, activities)
    {
      var i := 0;
      while i < |rows|
        invariant 0 <= i <= |rows|
        invariant Valid()
        invariant nextEntryId == old(nextEntryId) + i
        invariant entries == old(entries) + ImportedEntries(old(nextEntryId), rows[..i])
        invariant Extends(old(Reg()), Reg()) && old(links) <= links
        invariant forall k | 0 <= k < i :: !RowRepeats(rows[k])
        invariant activities.Keys == old(activities).Keys + CsvNames(RowNameSets(rows), i)
        invariant links == old(links) + CsvLinks(old(nextEntryId), RowNameSets(rows), i, activities)
      {
        failure := ImportNextRow(rows, i, old(nextEntryId), old(Reg()), old(entries), old(links));
        if failure.Some? {
          read := i + 1;
          return;
        }
        i := i + 1;
      }
      assert rows[..i] == rows;
      read := i;
      failure := None;
    }

    /** Row `i` of the row loop, after rows `0..i` went through without error
        from the state `(reg0, e0, l0)`, whose entry counter was `first`. */
    method ImportNextRow(rows: seq<Row>, i: nat, ghost first: nat, ghost reg0: Registry, ghost e0: seq<Entry>, ghost l0: set<Link>)
        returns (failure: Option<ImportError>)
      requires Valid() && i < |rows|
      requires nextEntryId == first + i && entries == e0 + ImportedEntries(first, rows[..i])
      requires Extends(reg0, Reg()) && l0 <= links
      requires forall k | 0 <= k < i :: !RowRepeats(rows[k])
      requires activities.Keys == reg0.ids.Keys + CsvNames(RowNameSets(rows), i)
      requires links == l0 + CsvLinks(first, RowNameSets(rows), i, activities)
      modifies this`entries, this`nextEntryId, this`activities, this`nextActivityId, this`cache, this`links
      ensures Valid()
      ensures nextEntryId == first + i + 1 && entries == e0 + ImportedEntries(first, rows[..i + 1])
      ensures Extends(reg0, Reg()) && l0 <= links
      ensures failure.Some? <==> RowRepeats(rows[i])
      ensures failure.None? ==>
                && (forall k | 0 <= k < i + 1 :: !RowRepeats(rows[k]))
                && activities.Keys == reg0.ids.Keys + CsvNames(RowNameSets(rows), i + 1)
                && links == l0 + CsvLinks(first, RowNameSets(rows), i + 1, activities)
    {
      ghost var reg, entriesBefore, linksBefore := Reg(), entries, links;
      var entryId;
      entryId, failure := ImportRow(rows[i]);
      ImportedEntriesStep(first, rows, i, entryId, e0, entriesBefore, entries);
      ExtendsTrans(reg0, reg, Reg());
      if failure.None? {
        assert RowNameSets(rows)[i] == RowNames(rows[i]);
        CsvLinksStep(first, RowNameSets(rows), i, entryId, reg0, reg, Reg(), l0, linksBefore, links);
        ghost var clean := !RowRepeats(rows[i]);
        forall k | 0 <= k < i + 1 ensures !RowRepeats(rows[k]) {
          if k == i { assert clean; }
        }
      }
    }
  }
}
