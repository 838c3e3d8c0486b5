/**
 * The job archive: a CSV file of postings keyed by (title, date), the
 * duplicate filter in front of it, and the JSON mirror rebuilt from it.
 */
module Archive {
  import opened Wrappers
  import opened Csv
  import opened Venues

  /** The identity of a posting: (title, date). */
  type Key = (string, string)

  /** The archive's columns: the required keys without "url". */
  const Fieldnames: seq<string> := ["title", "category", "date", "location"]

  /** Reading the archive fails with KeyError when a row has no "title". */
  datatype LoadError = MissingTitle

  /** The JSON mirror of the archive: absent, or the list of archived rows. */
  datatype JsonFile = NoJson | Json(rows: seq<Row>)

  /** The archive file after an append, and the postings the append returned. */
  datatype Appended = Appended(returned: seq<Venue>, archive: CsvFile)

  /** The same, for an append that may raise while writing. */
  datatype WriteOutcome =
    | Wrote(returned: seq<Venue>, archive: CsvFile)
    | Raised(error: CsvError, archive: CsvFile)

  /** `(d["title"], d.get("date", ""))`; None where `d["title"]` raises KeyError. */
  function IdentityKey(d: Row): Option<Key>
  {
    if "title" in d then Some((d["title"], Get(d, "date", ""))) else None
  }

  /** The key of an extracted posting. */
  function JobKey(v: Venue): Key
  {
    (v.title, v.date)
  }

  /** `(job["title"], job.get("date", ""))` on a posting's dict is its (title, date): the date is always there, so the default "" never applies. */
  lemma JobKeyOfDict(v: Venue)
    ensures IdentityKey(AsDict(v)) == Some(JobKey(v))
  {
  }

  /** The keys of a list of postings. */
  function KeysOf(jobs: seq<Venue>): (keys: set<Key>)
    ensures forall j :: j in jobs ==> JobKey(j) in keys
    ensures forall k :: k in keys <==> exists j :: j in jobs && JobKey(j) == k
  {
    if jobs == [] then {}
    else
      assert forall j :: j in jobs <==> j == jobs[0] || j in jobs[1..];
      {JobKey(jobs[0])} + KeysOf(jobs[1..])
  }

  /** The row stored for a posting: its dict without "url". */
  function Project(v: Venue): (row: Row)
    ensures "url" !in row
    ensures forall k :: k in row <==> k in Fieldnames
    ensures forall k :: k in row ==> row[k] == AsDict(v)[k]
  {
    map["title" := v.title, "category" := v.category, "date" := v.date, "location" := v.location]
  }

  /** What DictReader reads back of a posting DictWriter wrote under the archive's columns is its projection. */
  lemma StoredRowIsProjection(v: Venue)
    ensures Columns(Fieldnames, AsDict(v)) == Project(v)
  {
    var c := Columns(Fieldnames, AsDict(v));
    assert c.Keys == Project(v).Keys;
  }

  /** The archive's columns are the required keys less "url", which every posting dict carries beyond them. */
  lemma PersistedColumns(v: Venue)
    ensures (set k | k in Fieldnames) == (set k | k in RequiredKeys) - {"url"}
    ensures Extras(Fieldnames, AsDict(v)) == {"url"}
  {
    assert "url" in AsDict(v);
  }

  /** The rows stored for `vs`, in order. */
  function ProjectAll(vs: seq<Venue>): (rows: seq<Row>)
    ensures |rows| == |vs| && forall i :: 0 <= i < |vs| ==> rows[i] == Project(vs[i])
  {
    seq(|vs|, i requires 0 <= i < |vs| => Project(vs[i]))
  }

  /** The rows DictReader yields for the archive; a missing file has none. */
  function ArchivedRows(archive: CsvFile): seq<Row>
  {
    if archive.Missing? then [] else ReadRows(archive.lines)
  }

  /** An archive this program can have written: missing, or headed by the archive's columns. */
  predicate WellFormed(archive: CsvFile)
  {
    archive.Missing? || (archive.lines != [] && archive.lines[0] == Fieldnames)
  }

  /** load_existing_jobs: the set of identity keys of the archived rows. */
  function LoadExistingJobs(archive: CsvFile): (r: Result<set<Key>, LoadError>)
    ensures archive.Missing? ==> r == Success({})
    ensures r.Success? <==> forall row <- ArchivedRows(archive) :: "title" in row
    ensures r.Success? ==>
              forall k :: k in r.value <==> exists row <- ArchivedRows(archive) :: IdentityKey(row) == Some(k)
  {
    var rows := ArchivedRows(archive);
    RowKeysMembers(rows);
    if archive.Missing? then Success({})
    else if forall row <- rows :: "title" in row then Success(RowKeys(rows))
    else Failure(MissingTitle)
  }

  /** The identity keys of the rows that have a title. */
  function RowKeys(rows: seq<Row>): set<Key>
  {
    if rows == [] then {}
    else (match IdentityKey(rows[0]) case Some(k) => {k} case None => {}) + RowKeys(rows[1..])
  }

  /** Each row with a title contributes exactly its identity key. */
  lemma {:induction false} RowKeysMembers(rows: seq<Row>)
    ensures forall k :: k in RowKeys(rows) <==> exists row <- rows :: IdentityKey(row) == Some(k)
  {
    if rows != [] {
      RowKeysMembers(rows[1..]);
      assert forall row :: row in rows <==> row == rows[0] || row in rows[1..];
    }
  }

  /** seen_titles: the first components of the loaded keys. */
  function SeenTitles(keys: set<Key>): (titles: set<string>)
    ensures forall t :: t in titles <==> exists d :: (t, d) in keys
  {
    set k <- keys :: k.0
  }

  /** The postings whose key is not yet known, in their original order, duplicates within the batch kept. */
  function NewJobs(jobs: seq<Venue>, existing: set<Key>): (r: seq<Venue>)
    ensures |r| <= |jobs|
    ensures forall j :: j in r ==> j in jobs && JobKey(j) !in existing
  {
    if jobs == [] then []
    else (if JobKey(jobs[0]) in existing then [] else [jobs[0]]) + NewJobs(jobs[1..], existing)
  }

  /** The archive after `written` lines were appended; the header goes first only into a new file. */
  function Extend(archive: CsvFile, written: seq<Line>): (f: CsvFile)
    ensures f.Present?
    ensures |f.lines| == (if archive.Missing? then 1 else |archive.lines|) + |written|
    ensures archive.Missing? ==> f.lines[0] == Fieldnames
    ensures archive.Present? ==> f.lines[..|archive.lines|] == archive.lines
    ensures f.lines[|f.lines| - |written|..] == written
  {
    Present((if archive.Missing? then [Fieldnames] else archive.lines) + written)
  }

  /** append_new_jobs as written: DictWriter keeps its default extrasaction "raise". */
  function AppendNewJobsAsWritten(jobs: seq<Venue>, archive: CsvFile, existing: set<Key>): (r: WriteOutcome)
    ensures NewJobs(jobs, existing) == [] ==> r == Wrote([], archive)
    ensures r.Wrote? ==> r.returned == NewJobs(jobs, existing)
    ensures r.Raised? ==> NewJobs(jobs, existing) != [] && r.archive.Present?
  {
    if jobs == [] then Wrote([], archive)
    else
      var newJobs := NewJobs(jobs, existing);
      if newJobs == [] then Wrote([], archive)
      else
        var w := WriteRows(Fieldnames, AsDicts(newJobs), Raise);
        if w.error.Some? then Raised(w.error.value, Extend(archive, w.lines))
        else Wrote(newJobs, Extend(archive, w.lines))
  }

  /** The lines DictWriter writes for `vs` when it ignores keys outside the archive's columns. */
  function StoredLines(vs: seq<Venue>): (lines: seq<Line>)
    ensures |lines| == |vs|
  {
    WriteRows(Fieldnames, AsDicts(vs), Ignore).lines
  }

  /** append_new_jobs with each posting projected onto the archive's columns (url dropped). */
  function AppendNewJobs(jobs: seq<Venue>, archive: CsvFile, existing: set<Key>): (r: Appended)
    ensures r.returned == NewJobs(jobs, existing)
    ensures r.returned == [] ==> r.archive == archive
    ensures r.returned != [] ==>
              && r.archive.Present?
              && |r.archive.lines| == (if archive.Missing? then 1 else |archive.lines|) + |r.returned|
              && (archive.Missing? ==> r.archive.lines[0] == Fieldnames)
              && (archive.Present? ==> r.archive.lines[..|archive.lines|] == archive.lines)
              && r.archive.lines[|r.archive.lines| - |r.returned|..] == StoredLines(r.returned)
  {
    if jobs == [] then Appended([], archive)
    else
      var newJobs := NewJobs(jobs, existing);
      if newJobs == [] then Appended([], archive)
      else Appended(newJobs, Extend(archive, StoredLines(newJobs)))
  }

  /** update_json_file: nothing when the CSV is missing, otherwise the mirror is every archived row. */
  function UpdateJsonFile(csv: CsvFile, mirror: JsonFile): (m: JsonFile)
    ensures csv.Missing? ==> m == mirror
    ensures csv.Present? ==> m.Json? && m.rows == ReadRows(csv.lines)
  {
    if csv.Missing? then mirror else Json(ArchivedRows(csv))
  }

  // ---------------------------------------------------------------------
  // The duplicate filter

  /** Filtering a concatenation filters each part, in order. */
  lemma {:induction false} NewJobsSplit(a: seq<Venue>, b: seq<Venue>, existing: set<Key>)
    ensures NewJobs(a + b, existing) == NewJobs(a, existing) + NewJobs(b, existing)
  {
    if a == [] {
      assert a + b == b;
    } else {
      assert (a + b)[1..] == a[1..] + b;
      NewJobsSplit(a[1..], b, existing);
    }
  }

  /** A posting with a new key is kept as often as it occurs; one with a known key is dropped. */
  lemma {:induction false} NewJobsCount(jobs: seq<Venue>, existing: set<Key>)
    ensures forall j :: multiset(NewJobs(jobs, existing))[j]
                        == if JobKey(j) in existing then 0 else multiset(jobs)[j]
  {
    if jobs != [] {
      NewJobsCount(jobs[1..], existing);
      assert jobs == [jobs[0]] + jobs[1..];
    }
  }

  /** The filter returns nothing exactly when every key is already known. */
  lemma {:induction false} NewJobsEmpty(jobs: seq<Venue>, existing: set<Key>)
    ensures NewJobs(jobs, existing) == [] <==> forall j :: j in jobs ==> JobKey(j) in existing
  {
    if jobs != [] {
      NewJobsEmpty(jobs[1..], existing);
      assert forall j :: j in jobs <==> j == jobs[0] || j in jobs[1..];
    }
  }

  /** With no key known, the filter keeps every posting. */
  lemma {:induction false} NewJobsKeepsUnknown(jobs: seq<Venue>, existing: set<Key>)
    requires forall j :: j in jobs ==> JobKey(j) !in existing
    ensures NewJobs(jobs, existing) == jobs
  {
    if jobs != [] {
      assert jobs[0] in jobs;
      NewJobsKeepsUnknown(jobs[1..], existing);
      assert jobs == [jobs[0]] + jobs[1..];
    }
  }

  /** Filtering again, once the returned keys are known, returns nothing. */
  lemma NewJobsIdempotent(jobs: seq<Venue>, existing: set<Key>)
    ensures NewJobs(jobs, existing + KeysOf(NewJobs(jobs, existing))) == []
  {
    var known := existing + KeysOf(NewJobs(jobs, existing));
    NewJobsCount(jobs, existing);
    forall j | j in jobs ensures JobKey(j) in known {
      if JobKey(j) !in existing {
        assert multiset(NewJobs(jobs, existing))[j] > 0;
      }
    }
    NewJobsEmpty(jobs, known);
  }

  // ---------------------------------------------------------------------
  // The archive file

  /** A stored row yields the same identity key as the posting it came from. */
  lemma StoredRowKeepsKey(v: Venue)
    ensures IdentityKey(Project(v)) == Some(JobKey(v))
  {
  }

  /** append_new_jobs returns nothing and leaves the archive alone exactly when every key is already known, an empty batch included. */
  lemma AppendNothingNew(jobs: seq<Venue>, archive: CsvFile, existing: set<Key>)
    ensures var r := AppendNewJobs(jobs, archive, existing);
            (r.returned == [] <==> forall j :: j in jobs ==> JobKey(j) in existing)
            && (r.returned == [] ==> r.archive == archive)
  {
    NewJobsEmpty(jobs, existing);
  }

  /** The stored lines of some postings read back, under the archive's header, as their projections. */
  lemma StoredLinesReadBack(vs: seq<Venue>)
    ensures DataRows(Fieldnames, StoredLines(vs)) == ProjectAll(vs)
  {
    ReadBackWritten(Fieldnames, AsDicts(vs));
    forall i | 0 <= i < |vs| ensures Columns(Fieldnames, AsDicts(vs)[i]) == Project(vs[i]) {
      StoredRowIsProjection(vs[i]);
    }
  }

  /** An append keeps the archive readable and adds exactly the returned postings, projected, after the old rows. */
  lemma AppendReadBack(jobs: seq<Venue>, archive: CsvFile, existing: set<Key>)
    requires WellFormed(archive)
    ensures var r := AppendNewJobs(jobs, archive, existing);
            WellFormed(r.archive) && ArchivedRows(r.archive) == ArchivedRows(archive) + ProjectAll(r.returned)
  {
    var r := AppendNewJobs(jobs, archive, existing);
    if r.returned != [] {
      var written := StoredLines(r.returned);
      var base := if archive.Missing? then [Fieldnames] else archive.lines;
      assert r.archive.lines == base + written;
      assert (base + written)[1..] == base[1..] + written;
      assert ArchivedRows(r.archive) == DataRows(Fieldnames, base[1..] + written);
      DataRowsAppend(Fieldnames, base[1..], written);
      StoredLinesReadBack(r.returned);
      assert ArchivedRows(archive) == DataRows(Fieldnames, base[1..]);
    }
  }

  /** The keys of two stretches of rows together. */
  lemma {:induction false} RowKeysAppend(a: seq<Row>, b: seq<Row>)
    ensures RowKeys(a + b) == RowKeys(a) + RowKeys(b)
  {
    if a == [] {
      assert a + b == b;
    } else {
      assert (a + b)[1..] == a[1..] + b;
      RowKeysAppend(a[1..], b);
    }
  }

  /** The stored rows of some postings have titles and exactly those postings' keys. */
  lemma {:induction false} RowKeysProjected(vs: seq<Venue>)
    ensures (forall row <- ProjectAll(vs) :: "title" in row) && RowKeys(ProjectAll(vs)) == KeysOf(vs)
  {
    if vs != [] {
      assert ProjectAll(vs)[1..] == ProjectAll(vs[1..]);
      RowKeysProjected(vs[1..]);
      StoredRowKeepsKey(vs[0]);
      assert forall row :: row in ProjectAll(vs) <==> row == Project(vs[0]) || row in ProjectAll(vs[1..]);
    }
  }

  /** After an append the loaded keys are the old ones plus the keys of the returned postings. */
  lemma AppendGrowsKeys(jobs: seq<Venue>, archive: CsvFile, existing: set<Key>)
    requires WellFormed(archive) && LoadExistingJobs(archive).Success?
    ensures var r := AppendNewJobs(jobs, archive, existing);
            LoadExistingJobs(r.archive) == Success(LoadExistingJobs(archive).value + KeysOf(r.returned))
  {
    var r := AppendNewJobs(jobs, archive, existing);
    if r.returned != [] {
      var oldRows := ArchivedRows(archive);
      var added := ProjectAll(r.returned);
      assert ArchivedRows(r.archive) == oldRows + added by {
        AppendReadBack(jobs, archive, existing);
      }
      assert RowKeys(oldRows + added) == RowKeys(oldRows) + KeysOf(r.returned) by {
        RowKeysProjected(r.returned);
        RowKeysAppend(oldRows, added);
      }
      assert forall row <- oldRows + added :: "title" in row by {
        RowKeysProjected(r.returned);
        assert forall row :: row in oldRows + added <==> row in oldRows || row in added;
      }
      LoadIsRowKeys(archive);
      LoadIsRowKeys(r.archive);
    } else {
      var keys := LoadExistingJobs(archive).value;
      assert keys + KeysOf([]) == keys;
    }
  }

  /** Loading an archive whose rows all have a title yields exactly their keys. */
  lemma LoadIsRowKeys(archive: CsvFile)
    requires forall row <- ArchivedRows(archive) :: "title" in row
    ensures LoadExistingJobs(archive) == Success(RowKeys(ArchivedRows(archive)))
  {
  }

  /** The mirror rebuilt after an append is the whole archive, old rows and new, whatever it held before. */
  lemma MirrorIsSnapshot(jobs: seq<Venue>, archive: CsvFile, existing: set<Key>, mirror: JsonFile)
    requires WellFormed(archive)
    ensures var r := AppendNewJobs(jobs, archive, existing);
            r.returned != [] ==> UpdateJsonFile(r.archive, mirror) == Json(ArchivedRows(archive) + ProjectAll(r.returned))
  {
    AppendReadBack(jobs, archive, existing);
  }

  /** As written, an append with anything new raises ValueError on the url key, and no posting reaches the archive. */
  lemma AsWrittenAppendStoresNoJob(jobs: seq<Venue>, archive: CsvFile, existing: set<Key>)
    requires exists j :: j in jobs && JobKey(j) !in existing
    ensures var r := AppendNewJobsAsWritten(jobs, archive, existing);
            && r.Raised?
            && r.error == ExtraFields({"url"})
            && ArchivedRows(r.archive) == ArchivedRows(archive)
            && r.archive == Extend(archive, [])
  {
    var newJobs := NewJobs(jobs, existing);
    assert newJobs != [] by {
      NewJobsEmpty(jobs, existing);
    }
    var dicts := AsDicts(newJobs);
    assert Extras(Fieldnames, dicts[0]) == {"url"} by {
      PersistedColumns(newJobs[0]);
    }
    var w := WriteRows(Fieldnames, dicts, Raise);
    assert w.lines == [] && w.error == Some(ExtraFields({"url"}));
    var base := if archive.Missing? then [Fieldnames] else archive.lines;
    assert base + w.lines == base;
    if archive.Missing? {
      assert ReadRows([Fieldnames]) == [];
    }
  }
}
