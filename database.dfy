/** The Database class of src/database.ts, over the tables held in memory:
    each field is one table or one id sequence of the catalog. The SQL
    statements of importStrings become updates of these fields, in the order
    the transaction runs them. */
module Database {
  import opened Wrappers
  import opened Hasher
  import opened Catalog
  import opened Merge

  /** Database.INSERT_BATCH_SIZE */
  const INSERT_BATCH_SIZE: nat := 10_000

  /** The chunk loop of importStrings: walks the entries in chunks of
      batchSize, keeps the first entry of every string, builds its row and
      inserts each chunk's rows into temp_hashes, which draws its ids from the
      hash sequence starting at firstId. The rows do not depend on the chunk
      size. */
  method StageStrings(entries: seq<Entry>, batchSize: nat, firstId: Id, crc: Crc)
    returns (temp: map<Id, HashRow>, nextId: Id, seenCount: nat, totalSeenCount: nat)
    requires batchSize > 0
    ensures temp == Table(StagedRows(Dedup(entries), crc), firstId)
    ensures nextId == firstId + |Dedup(entries)|
    ensures seenCount == |Strings(entries)|
    ensures totalSeenCount == |entries|
  {
    var seenStrings: set<JsString> := {};
    ghost var rows: seq<HashRow> := [];
    temp := map[];
    nextId := firstId;
    totalSeenCount := 0;
    var i := 0;
    assert entries[..i] == [];
    while i < |entries|
      invariant 0 <= i <= |entries|
      invariant seenStrings == Strings(entries[..i])
      invariant rows == StagedRows(Dedup(entries[..i]), crc)
      invariant temp == Table(rows, firstId)
      invariant nextId == firstId + |rows|
      invariant totalSeenCount == i
    {
      // slice(i, i + batchSize) stops at the end of the entries
      var end := if i + batchSize <= |entries| then i + batchSize else |entries|;
      var chunk := entries[i..end];
      totalSeenCount := totalSeenCount + |chunk|;
      assert entries[..end] == entries[..i] + chunk;
      seenStrings, temp, nextId, rows := StageChunk(chunk, seenStrings, temp, nextId, crc, entries[..i], rows, firstId);
      i := end;
    }
    assert entries[..i] == entries;
    DedupCount(entries);
    seenCount := |seenStrings|;
  }

  /** One pass of the chunk loop: the chunk's new entries are staged and, when
      there are any, inserted after the rows staged so far. */
  method StageChunk(chunk: seq<Entry>, seenStrings: set<JsString>, temp: map<Id, HashRow>, nextId: Id, crc: Crc,
                    ghost before: seq<Entry>, ghost rows: seq<HashRow>, ghost firstId: Id)
    returns (seenStrings': set<JsString>, temp': map<Id, HashRow>, nextId': Id, ghost rows': seq<HashRow>)
    requires seenStrings == Strings(before)
    requires rows == StagedRows(Dedup(before), crc)
    requires temp == Table(rows, firstId) && nextId == firstId + |rows|
    ensures seenStrings' == Strings(before + chunk)
    ensures rows' == StagedRows(Dedup(before + chunk), crc)
    ensures temp' == Table(rows', firstId) && nextId' == firstId + |rows'|
  {
    var batch; ghost var pending;
    batch, seenStrings', pending := FilterChunk(chunk, seenStrings, crc, before);
    InsertedAfter(temp, rows, batch, firstId, nextId);
    if |batch| == 0 {
      // continue: nothing to insert
      assert Table(batch, nextId) == map[];
      UnionEmpty(temp);
      temp', nextId' := temp, nextId;
    } else {
      temp', nextId' := InsertTempRows(temp, nextId, batch);
    }
    StagedRowsConcat(Dedup(before), pending, crc);
    rows' := rows + batch;
  }

  lemma UnionEmpty(m: map<Id, HashRow>)
    ensures m + map[] == m
  {
  }

  /** The inner loop over one chunk: the entries whose string has not been
      seen, in order, each staged as a row. seenStrings holds the strings of
      the entries before the chunk. */
  method FilterChunk(chunk: seq<Entry>, seenStrings: set<JsString>, crc: Crc, ghost before: seq<Entry>)
    returns (batch: seq<HashRow>, seenStrings': set<JsString>, ghost pending: seq<Entry>)
    requires seenStrings == Strings(before)
    ensures Dedup(before + chunk) == Dedup(before) + pending
    ensures seenStrings' == Strings(before + chunk)
    ensures batch == StagedRows(pending, crc)
  {
    batch, seenStrings', pending := [], seenStrings, [];
    var j := 0;
    assert before + chunk[..0] == before;
    while j < |chunk|
      invariant 0 <= j <= |chunk|
      invariant Dedup(before + chunk[..j]) == Dedup(before) + pending
      invariant seenStrings' == Strings(before + chunk[..j])
      invariant batch == StagedRows(pending, crc)
    {
      var entry := chunk[j];
      ghost var prefix := before + chunk[..j];
      PrefixSnoc(before, chunk, j);
      StringsAppend(prefix, entry);
      FilterStep(before, prefix, entry, pending);
      if entry.str !in seenStrings' {
        seenStrings' := seenStrings' + {entry.str};
        StagedRowsStep(pending, entry, crc);
        batch := batch + [StagedRow(entry, crc)];
        pending := pending + [entry];
      }
      j := j + 1;
    }
    assert chunk[..j] == chunk;
  }

  lemma PrefixSnoc(before: seq<Entry>, chunk: seq<Entry>, j: nat)
    requires j < |chunk|
    ensures before + chunk[..j + 1] == (before + chunk[..j]) + [chunk[j]]
  {
    assert chunk[..j + 1] == chunk[..j] + [chunk[j]];
  }

  /** The filter's output after one more entry, as the chunk loop extends it. */
  lemma FilterStep(before: seq<Entry>, prefix: seq<Entry>, e: Entry, pending: seq<Entry>)
    requires Dedup(prefix) == Dedup(before) + pending
    ensures Dedup(prefix + [e]) == Dedup(before) + (if e.str in Strings(prefix) then pending else pending + [e])
  {
    DedupStep(prefix, e);
    assert (Dedup(before) + pending) + [e] == Dedup(before) + (pending + [e]);
  }

  /** INSERT INTO temp_hashes of one batch: the rows take the next values of
      the hash sequence, in order. */
  method InsertTempRows(temp: map<Id, HashRow>, nextId: Id, batch: seq<HashRow>)
    returns (temp': map<Id, HashRow>, nextId': Id)
    ensures temp' == temp + Table(batch, nextId)
    ensures nextId' == nextId + |batch|
  {
    temp', nextId' := temp, nextId;
    var k := 0;
    while k < |batch|
      invariant 0 <= k <= |batch|
      invariant temp' == temp + Table(batch[..k], nextId)
      invariant nextId' == nextId + k
    {
      TableAppend(batch[..k], batch[k], nextId);
      assert batch[..k + 1] == batch[..k] + [batch[k]];
      temp' := temp'[nextId' := batch[k]];
      nextId' := nextId' + 1;
      k := k + 1;
    }
    assert batch[..k] == batch;
  }

  class Database {
    var hashes: map<Id, HashRow>
    var hashImportMap: set<(Id, ImportId)>
    var hashArchiveMap: set<(Id, ArchiveId)>
    var imports: map<ImportId, ImportRow>
    /** The next values of the sequences behind hashes.id and imports.id. */
    var hashIdSeq: Id
    var importIdSeq: ImportId

    ghost function State(): Tables
      reads this
    {
      Tables(hashes, hashImportMap, hashArchiveMap, imports, hashIdSeq, importIdSeq)
    }

    ghost predicate Valid()
      reads this
    {
      WellFormed(State()) && UniqueStrings(hashes)
    }

    /** An empty catalog. */
    constructor ()
      ensures Valid()
      ensures hashes == map[] && imports == map[]
      ensures hashImportMap == {} && hashArchiveMap == {}
    {
      hashes := map[];
      hashImportMap := {};
      hashArchiveMap := {};
      imports := map[];
      hashIdSeq := 1;
      importIdSeq := 1;
    }

    /** The statements of importStrings after the first DELETE, for the rows
        left in temp_hashes: temp_duplicates pairs each staged row with the
        placeholders it matches; the placeholders and their links are deleted,
        the staged rows copied into hashes with their ids, the placeholders'
        links restored on them, and a new import created and linked to every
        staged row. The hash sequence does not move. */
    method MergeTempHashes(tempHashes: map<Id, HashRow>, imp: ImportRow, ghost before: Tables)
      requires State() == before
      modifies this
      ensures State() == Merged(before, tempHashes, before.hashIdSeq, imp)
    {
      // temp_duplicates, with the links of the matched placeholders
      var duplicates := Reconciled(hashes, tempHashes);
      var restoredImports := Relink(hashImportMap, duplicates);
      var restoredArchives := Relink(hashArchiveMap, duplicates);
      // delete the placeholders, and the links that name them
      var origIds := OrigIds(duplicates);
      hashes := hashes - origIds;
      hashImportMap := DropLinks(hashImportMap, origIds);
      hashArchiveMap := DropLinks(hashArchiveMap, origIds);
      // copy temp_hashes into hashes, ids included
      hashes := hashes + tempHashes;
      // restore the import and archive links on the new rows
      hashImportMap := hashImportMap + restoredImports;
      hashArchiveMap := hashArchiveMap + restoredArchives;
      // the new import, and its links to every row of temp_hashes
      var newImportId := importIdSeq;
      imports := imports[newImportId := imp];
      importIdSeq := importIdSeq + 1;
      hashImportMap := hashImportMap + LinkAll(tempHashes, newImportId);
    }

    /** importStrings, as one transaction: the tables end in the state the
        merge defines, and the count it logs is the number of distinct
        strings of the import that the catalog did not hold. */
    method ImportStrings(entries: seq<Entry>, importType: ImportType, source: Option<JsString>,
                         discordId: Option<JsString>, crc: Crc)
      returns (newStringCount: int)
      requires Valid()
      modifies this
      ensures Valid()
      ensures State() == AfterImport(old(State()), entries, ImportRow(importType, source, discordId), crc)
      ensures newStringCount == |Strings(entries) - CanonicalStrings(old(hashes))|
    {
      ghost var t := State();
      // stage the strings into temp_hashes
      var tempHashes, nextId, seenCount, totalSeenCount := StageStrings(entries, INSERT_BATCH_SIZE, hashIdSeq, crc);
      hashIdSeq := nextId;
      ghost var t' := t.(hashIdSeq := nextId);
      assert State() == t';
      // remove the strings the catalog holds from temp_hashes
      var staged := tempHashes;
      tempHashes := DropKnownStrings(tempHashes, hashes);
      var existingStringCount := |staged.Keys - tempHashes.Keys|;
      newStringCount := seenCount - existingStringCount;
      var imp := ImportRow(importType, source, discordId);
      ImportSteps(t, entries, imp, crc, staged, tempHashes, nextId, seenCount);
      MergeTempHashes(tempHashes, imp, t');
    }
  }
}
