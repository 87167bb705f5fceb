/** The merge that Database.importStrings performs (src/database.ts), as a
    function from the tables before the transaction to the tables after it,
    with the properties the merge promises proved about that function. */
module Merge {
  import opened Wrappers
  import opened Bits
  import opened Hasher
  import opened Codec
  import opened Catalog

  // ---------------------------------------------------------------------
  // Staging: the seenStrings filter and the temp_hashes rows

  function Strings(es: seq<Entry>): set<JsString>
  {
    set i | 0 <= i < |es| :: es[i].str
  }

  /** No two entries share a string. */
  predicate Distinct(ds: seq<Entry>)
  {
    forall i, j :: 0 <= i < j < |ds| ==> ds[i].str != ds[j].str
  }

  /** e is the first entry of es that carries its string. */
  predicate IsFirst(es: seq<Entry>, e: Entry)
  {
    exists i :: 0 <= i < |es| && es[i] == e && e.str !in Strings(es[..i])
  }

  /** The entries the seenStrings filter lets through, in their order. */
  function Dedup(es: seq<Entry>): seq<Entry>
  {
    if es == [] then []
    else if es[|es| - 1].str in Strings(es[..|es| - 1]) then Dedup(es[..|es| - 1])
    else Dedup(es[..|es| - 1]) + [es[|es| - 1]]
  }

  lemma StringsAppend(es: seq<Entry>, e: Entry)
    ensures Strings(es + [e]) == Strings(es) + {e.str}
  {
    var s := es + [e];
    forall x | x in Strings(s) ensures x in Strings(es) + {e.str} {
      var i :| 0 <= i < |s| && s[i].str == x;
      if i < |es| {
        assert es[i] == s[i];
      }
    }
    forall x | x in Strings(es) ensures x in Strings(s) {
      var i :| 0 <= i < |es| && es[i].str == x;
      assert s[i] == es[i];
    }
    assert s[|es|] == e;
  }

  /** The filter takes one more entry exactly when its string is new. */
  lemma DedupStep(es: seq<Entry>, e: Entry)
    ensures Dedup(es + [e]) == if e.str in Strings(es) then Dedup(es) else Dedup(es) + [e]
  {
    assert (es + [e])[..|es|] == es;
  }

  /** The filter keeps exactly the first entry of every distinct string. */
  lemma {:induction false} DedupSpec(es: seq<Entry>)
    ensures Distinct(Dedup(es))
    ensures Strings(Dedup(es)) == Strings(es)
    ensures forall k :: 0 <= k < |Dedup(es)| ==> IsFirst(es, Dedup(es)[k])
  {
    if es != [] {
      var init, last := es[..|es| - 1], es[|es| - 1];
      DedupSpec(init);
      assert es == init + [last];
      DedupDistinctStep(init, last);
      DedupStringsStep(init, last);
      DedupFirstStep(init, last);
    }
  }

  lemma DedupDistinctStep(init: seq<Entry>, last: Entry)
    requires Distinct(Dedup(init)) && Strings(Dedup(init)) == Strings(init)
    ensures Distinct(Dedup(init + [last]))
  {
    DedupStep(init, last);
    if last.str !in Strings(init) {
      DistinctSnoc(Dedup(init), last);
    }
  }

  lemma DedupStringsStep(init: seq<Entry>, last: Entry)
    requires Strings(Dedup(init)) == Strings(init)
    ensures Strings(Dedup(init + [last])) == Strings(init + [last])
  {
    DedupStep(init, last);
    StringsAppend(init, last);
    StringsAppend(Dedup(init), last);
  }

  lemma DedupFirstStep(init: seq<Entry>, last: Entry)
    requires Strings(Dedup(init)) == Strings(init)
    requires forall k :: 0 <= k < |Dedup(init)| ==> IsFirst(init, Dedup(init)[k])
    ensures forall k :: 0 <= k < |Dedup(init + [last])| ==> IsFirst(init + [last], Dedup(init + [last])[k])
  {
    DedupStep(init, last);
    var d := Dedup(init);
    forall k | 0 <= k < |d| ensures IsFirst(init + [last], d[k]) {
      IsFirstSnoc(init, last, d[k]);
    }
    if last.str !in Strings(init) {
      IsFirstLast(init, last);
      forall k | 0 <= k < |d| + 1 ensures IsFirst(init + [last], (d + [last])[k]) {
        if k < |d| {
          assert (d + [last])[k] == d[k];
        }
      }
    }
  }

  lemma IsFirstSnoc(es: seq<Entry>, last: Entry, e: Entry)
    requires IsFirst(es, e)
    ensures IsFirst(es + [last], e)
  {
    var i :| 0 <= i < |es| && es[i] == e && e.str !in Strings(es[..i]);
    assert (es + [last])[..i] == es[..i];
    assert (es + [last])[i] == e;
  }

  lemma IsFirstLast(es: seq<Entry>, last: Entry)
    requires last.str !in Strings(es)
    ensures IsFirst(es + [last], last)
  {
    assert (es + [last])[..|es|] == es;
    assert (es + [last])[|es|] == last;
  }

  lemma DistinctSnoc(d: seq<Entry>, last: Entry)
    requires Distinct(d) && last.str !in Strings(d)
    ensures Distinct(d + [last])
  {
    var ds := d + [last];
    forall i, j | 0 <= i < j < |ds| ensures ds[i].str != ds[j].str {
      if j == |ds| - 1 {
        assert ds[i] == d[i];
      } else {
        assert ds[i] == d[i] && ds[j] == d[j];
      }
    }
  }

  /** Entries with distinct strings are as many as their strings. */
  lemma {:induction false} DistinctCard(ds: seq<Entry>)
    requires Distinct(ds)
    ensures |Strings(ds)| == |ds|
  {
    if ds != [] {
      var init, last := ds[..|ds| - 1], ds[|ds| - 1];
      assert ds == init + [last];
      assert Distinct(init) by {
        forall i, j | 0 <= i < j < |init| ensures init[i].str != init[j].str {
          assert init[i] == ds[i] && init[j] == ds[j];
        }
      }
      DistinctCard(init);
      StringsAppend(init, last);
    }
  }

  /** seenStrings.size: the number of distinct strings of the import. */
  lemma DedupCount(es: seq<Entry>)
    ensures |Dedup(es)| == |Strings(es)|
  {
    DedupSpec(es);
    DistinctCard(Dedup(es));
  }

  function StringTypeOr(t: Option<StringType>): StringType
  {
    if t.Some? then t.value else Unknwon
  }

  /** The temp_hashes row the chunk loop builds for an entry. */
  function StagedRow(e: Entry, crc: Crc): HashRow
  {
    HashRow(
      Some(ToDBBigint(HashWDFnv32(e.str), 32)),
      Some(ToDBBigint(HashWDFnv64(e.str), 64)),
      Some(ToDBBigint(crc.crc32(e.str), 32)),
      Some(ToDBBigint(crc.crc64(e.str), 64)),
      Some(e.str),
      e.description,
      StringTypeOr(e.stringType))
  }

  /** A staged row fits its columns, reads back as the four unsigned
      fingerprints of its string, and its stored fnv64 is negative: the tag
      0b101 sets the top bit of every WD-FNV64 fingerprint. */
  lemma StagedRowSpec(e: Entry, crc: Crc)
    ensures StoredInRange(StagedRow(e, crc))
    ensures DecodeRow(StagedRow(e, crc)) == HashRow(
      Some(HashWDFnv32(e.str)), Some(HashWDFnv64(e.str)),
      Some(crc.crc32(e.str) as int), Some(crc.crc64(e.str) as int),
      Some(e.str), e.description, StringTypeOr(e.stringType))
    ensures StagedRow(e, crc).fnv64.value < 0
  {
    HashWDFnv64Tagged(e.str);
    HashWDFnv32Spec(e.str);
    RoundTrip(HashWDFnv32(e.str), 32);
    RoundTrip(HashWDFnv64(e.str), 64);
    RoundTrip(crc.crc32(e.str), 32);
    RoundTrip(crc.crc64(e.str), 64);
  }

  /** The row the chunk loop builds with toDBBigint as written. */
  function StagedRowAsWritten(e: Entry, crc: Crc): HashRow
  {
    HashRow(
      Some(ToDBBigintAsWritten(HashWDFnv32(e.str), 32)),
      Some(ToDBBigintAsWritten(HashWDFnv64(e.str), 64)),
      Some(ToDBBigintAsWritten(crc.crc32(e.str), 32)),
      Some(ToDBBigintAsWritten(crc.crc64(e.str), 64)),
      Some(e.str),
      e.description,
      StringTypeOr(e.stringType))
  }

  /** With the strict comparison a staged row fits its columns exactly when
      neither 32-bit fingerprint is 2^31 and the CRC64 is not 2^63 (WD-FNV64
      is always above 2^63); a row that fits is the corrected row. A CRC64 of
      2^63 is past the int8 maximum, so the INSERT into temp_hashes rejects it;
      whether a 32-bit fingerprint of 2^31 is rejected or stored as it is
      depends on the column type. */
  lemma StagedRowAsWrittenFits(e: Entry, crc: Crc)
    ensures StoredInRange(StagedRowAsWritten(e, crc)) <==>
      && HashWDFnv32(e.str) != 0x8000_0000
      && crc.crc32(e.str) != 0x8000_0000
      && crc.crc64(e.str) != 0x8000_0000_0000_0000
    ensures StoredInRange(StagedRowAsWritten(e, crc)) ==> StagedRowAsWritten(e, crc) == StagedRow(e, crc)
  {
    HashWDFnv64Tagged(e.str);
    HashWDFnv32Spec(e.str);
    AsWrittenBoundary(HashWDFnv32(e.str), 32);
    AsWrittenBoundary(HashWDFnv64(e.str), 64);
    AsWrittenBoundary(crc.crc32(e.str), 32);
    AsWrittenBoundary(crc.crc64(e.str), 64);
  }

  /** The rows the chunk loop builds, one per entry, in order. */
  function StagedRows(ds: seq<Entry>, crc: Crc): (rows: seq<HashRow>)
    ensures |rows| == |ds|
  {
    if ds == [] then [] else StagedRows(ds[..|ds| - 1], crc) + [StagedRow(ds[|ds| - 1], crc)]
  }

  lemma {:induction false} StagedRowsAt(ds: seq<Entry>, crc: Crc, k: nat)
    requires k < |ds|
    ensures StagedRows(ds, crc)[k] == StagedRow(ds[k], crc)
  {
    if k < |ds| - 1 {
      StagedRowsAt(ds[..|ds| - 1], crc, k);
    }
  }

  /** Staging one more entry appends its row. */
  lemma StagedRowsStep(ds: seq<Entry>, e: Entry, crc: Crc)
    ensures StagedRows(ds + [e], crc) == StagedRows(ds, crc) + [StagedRow(e, crc)]
  {
    assert (ds + [e])[..|ds|] == ds;
  }

  /** Staging two runs of entries stages the rows of each, in order. */
  lemma {:induction false} StagedRowsConcat(a: seq<Entry>, b: seq<Entry>, crc: Crc)
    ensures StagedRows(a + b, crc) == StagedRows(a, crc) + StagedRows(b, crc)
  {
    if b != [] {
      var init, last := b[..|b| - 1], b[|b| - 1];
      StagedRowsConcat(a, init, crc);
      ConcatSnoc(a, b);
    } else {
      assert a + b == a;
    }
  }

  /** The last element of a + b, and what precedes it, for a non-empty b. */
  lemma ConcatSnoc<T>(a: seq<T>, b: seq<T>)
    requires b != []
    ensures (a + b)[..|a + b| - 1] == a + b[..|b| - 1]
    ensures (a + b)[|a + b| - 1] == b[|b| - 1]
  {
  }

  /** Every staged row fits its columns and carries its entry's string. */
  lemma StagedRowsFit(ds: seq<Entry>, crc: Crc)
    ensures forall k :: 0 <= k < |ds| ==>
      StoredInRange(StagedRows(ds, crc)[k]) && StagedRows(ds, crc)[k].str == Some(ds[k].str)
  {
    forall k | 0 <= k < |ds|
      ensures StoredInRange(StagedRows(ds, crc)[k]) && StagedRows(ds, crc)[k].str == Some(ds[k].str)
    {
      StagedRowsAt(ds, crc, k);
      StagedRowSpec(ds[k], crc);
    }
  }

  /** temp_hashes: rows inserted one after the other, with ids drawn from
      firstId on. */
  function Table(rows: seq<HashRow>, firstId: Id): map<Id, HashRow>
  {
    if rows == [] then map[]
    else Table(rows[..|rows| - 1], firstId)[firstId + |rows| - 1 := rows[|rows| - 1]]
  }

  /** Inserting one more row gives it the next id. */
  lemma TableAppend(rows: seq<HashRow>, row: HashRow, firstId: Id)
    ensures Table(rows + [row], firstId) == Table(rows, firstId)[firstId + |rows| := row]
  {
    assert (rows + [row])[..|rows|] == rows;
  }

  /** Inserting two runs of rows: the second run takes the ids after the first. */
  lemma {:induction false} TableConcat(a: seq<HashRow>, b: seq<HashRow>, firstId: Id)
    ensures Table(a + b, firstId) == Table(a, firstId) + Table(b, firstId + |a|)
  {
    if b == [] {
      assert a + b == a;
    } else {
      var init, last := b[..|b| - 1], b[|b| - 1];
      var k := firstId + |a| + |init|;
      SnocSplit(a, b);
      calc {
        Table(a + b, firstId);
        Table((a + init) + [last], firstId);
        { TableAppend(a + init, last, firstId); }
        Table(a + init, firstId)[k := last];
        { TableConcat(a, init, firstId); }
        (Table(a, firstId) + Table(init, firstId + |a|))[k := last];
        { MapUnionUpdate(Table(a, firstId), Table(init, firstId + |a|), k, last); }
        Table(a, firstId) + Table(init, firstId + |a|)[k := last];
        { TableAppend(init, last, firstId + |a|); }
        Table(a, firstId) + Table(b, firstId + |a|);
      }
    }
  }

  lemma SnocSplit<T>(a: seq<T>, b: seq<T>)
    requires b != []
    ensures a + b == (a + b[..|b| - 1]) + [b[|b| - 1]]
    ensures b == b[..|b| - 1] + [b[|b| - 1]]
  {
  }

  lemma MapUnionUpdate<K, V>(m1: map<K, V>, m2: map<K, V>, k: K, v: V)
    ensures (m1 + m2)[k := v] == m1 + m2[k := v]
  {
  }

  /** A batch inserted into a table at the sequence's next value continues it. */
  lemma InsertedAfter(temp: map<Id, HashRow>, rows: seq<HashRow>, batch: seq<HashRow>, firstId: Id, nextId: Id)
    requires temp == Table(rows, firstId) && nextId == firstId + |rows|
    ensures temp + Table(batch, nextId) == Table(rows + batch, firstId)
  {
    TableConcat(rows, batch, firstId);
  }

  /** The rows take the ids firstId, firstId + 1, ... in order. */
  lemma {:induction false} TableSpec(rows: seq<HashRow>, firstId: Id)
    ensures forall id :: id in Table(rows, firstId) <==> firstId <= id < firstId + |rows|
    ensures forall id :: id in Table(rows, firstId) ==> Table(rows, firstId)[id] == rows[id - firstId]
    ensures |Table(rows, firstId).Keys| == |rows|
  {
    if rows != [] {
      var init, last := rows[..|rows| - 1], rows[|rows| - 1];
      var k := firstId + |init|;
      TableSpec(init, firstId);
      var m := Table(init, firstId);
      assert Table(rows, firstId) == m[k := last];
      assert k !in m;
      NewKeyCard(m, k, last);
      forall id | id in m ensures rows[id - firstId] == init[id - firstId] {
      }
    }
  }

  lemma NewKeyCard<K, V>(m: map<K, V>, k: K, v: V)
    requires k !in m
    ensures |m[k := v].Keys| == |m.Keys| + 1
  {
    assert m[k := v].Keys == m.Keys + {k};
  }

  // ---------------------------------------------------------------------
  // The statements of the transaction, on values

  /** DELETE FROM temp_hashes t USING hashes h WHERE t.string = h.string */
  function DropKnownStrings(temp: map<Id, HashRow>, hashes: map<Id, HashRow>): map<Id, HashRow>
  {
    map id | id in temp && !(temp[id].str.Some? && temp[id].str.value in CanonicalStrings(hashes)) :: temp[id]
  }

  /** `h.col = t.col OR h.col IS NULL`: a column the catalog row lacks
      matches anything. */
  predicate WildcardEq(h: Option<int>, t: Option<int>)
  {
    h.None? || h == t
  }

  predicate Matches(h: HashRow, t: HashRow)
  {
    && WildcardEq(h.fnv32, t.fnv32)
    && WildcardEq(h.fnv64, t.fnv64)
    && WildcardEq(h.crc32, t.crc32)
    && WildcardEq(h.crc64, t.crc64)
  }

  /** The (new_id, orig_id) pairs of temp_duplicates: a placeholder of hashes
      and a staged row that matches it. */
  function Reconciled(hashes: map<Id, HashRow>, temp: map<Id, HashRow>): set<(Id, Id)>
  {
    set n, o | n in temp && o in hashes && IsPlaceholder(hashes[o]) && Matches(hashes[o], temp[n]) :: (n, o)
  }

  function OrigIds(pairs: set<(Id, Id)>): set<Id>
  {
    set p | p in pairs :: p.1
  }

  /** The links of the rows whose ids are not in ids. */
  function DropLinks<L(==)>(links: set<(Id, L)>, ids: set<Id>): set<(Id, L)>
  {
    set p | p in links && p.0 !in ids
  }

  /** For every (new_id, orig_id) pair, the links of orig_id moved to new_id
      (the GROUP BY leaves each pair once). */
  function Relink<L(==)>(links: set<(Id, L)>, pairs: set<(Id, Id)>): set<(Id, L)>
  {
    set p, q | p in pairs && q in links && q.0 == p.1 :: (p.0, q.1)
  }

  /** Every pair of temp_duplicates joins a row of temp_hashes to a
      placeholder of hashes. */
  lemma ReconciledPairs(hashes: map<Id, HashRow>, temp: map<Id, HashRow>)
    ensures forall p :: p in Reconciled(hashes, temp) ==>
      p.0 in temp && p.1 in hashes && IsPlaceholder(hashes[p.1]) && Matches(hashes[p.1], temp[p.0])
  {
    forall p | p in Reconciled(hashes, temp)
      ensures p.0 in temp && p.1 in hashes && IsPlaceholder(hashes[p.1]) && Matches(hashes[p.1], temp[p.0])
    {
      var n, o :| n in temp && o in hashes && IsPlaceholder(hashes[o]) && Matches(hashes[o], temp[n]) && p == (n, o);
    }
  }

  /** A restored link comes from a link of the original row of its pair. */
  lemma RelinkedFrom<L>(links: set<(Id, L)>, pairs: set<(Id, Id)>, q: (Id, L))
    requires q in Relink(links, pairs)
    ensures exists p :: p in pairs && p.0 == q.0 && (p.1, q.1) in links
  {
    var p, b :| p in pairs && b in links && b.0 == p.1 && q == (p.0, b.1);
    assert (p.1, q.1) == b;
  }

  /** The links of every row of temp_hashes to the new import. */
  function LinkAll(temp: map<Id, HashRow>, importId: ImportId): set<(Id, ImportId)>
  {
    set id | id in temp :: (id, importId)
  }

  /** The rows of temp_hashes once the strings the catalog holds are gone,
      for the staged rows rows. */
  function RemainingRows(t: Tables, rows: seq<HashRow>): map<Id, HashRow>
  {
    DropKnownStrings(Table(rows, t.hashIdSeq), t.hashes)
  }

  function Remaining(t: Tables, entries: seq<Entry>, crc: Crc): map<Id, HashRow>
  {
    RemainingRows(t, StagedRows(Dedup(entries), crc))
  }

  /** The rest of the transaction, from temp_duplicates to the new import's
      links, for the rows temp left in temp_hashes; nextId is where the hash
      sequence stands after staging. */
  function Merged(t: Tables, temp: map<Id, HashRow>, nextId: Id, imp: ImportRow): Tables
  {
    var pairs := Reconciled(t.hashes, temp);
    var deleted := OrigIds(pairs);
    Tables(
      (t.hashes - deleted) + temp,
      DropLinks(t.hashImportMap, deleted) + Relink(t.hashImportMap, pairs) + LinkAll(temp, t.importIdSeq),
      DropLinks(t.hashArchiveMap, deleted) + Relink(t.hashArchiveMap, pairs),
      t.imports[t.importIdSeq := imp],
      nextId,
      t.importIdSeq + 1)
  }

  /** Where the hash sequence stood before the merge does not matter to it. */
  lemma MergedIgnoresHashSeq(t: Tables, t': Tables, temp: map<Id, HashRow>, nextId: Id, imp: ImportRow)
    requires t' == t.(hashIdSeq := t'.hashIdSeq)
    ensures Merged(t', temp, nextId, imp) == Merged(t, temp, nextId, imp)
  {
  }

  /** The tables after importStrings commits, for the import row imp. */
  function AfterImport(t: Tables, entries: seq<Entry>, imp: ImportRow, crc: Crc): Tables
  {
    Merged(t, Remaining(t, entries, crc), t.hashIdSeq + |Dedup(entries)|, imp)
  }

  /** newStringCount: staged strings minus the rows the first DELETE removed. */
  function NewCount(t: Tables, rows: seq<HashRow>): int
  {
    |rows| - |Table(rows, t.hashIdSeq).Keys - RemainingRows(t, rows).Keys|
  }

  function NewStringCount(t: Tables, entries: seq<Entry>, crc: Crc): int
  {
    NewCount(t, StagedRows(Dedup(entries), crc))
  }

  // ---------------------------------------------------------------------
  // What the staged rows bring to the merge

  /** Rows under fresh ids below nextId that fit their columns, each with a
      string the catalog does not hold, no two with the same string. */
  predicate FreshRows(t: Tables, temp: map<Id, HashRow>, nextId: Id)
  {
    && t.hashIdSeq <= nextId
    && (forall id :: id in temp ==>
          && t.hashIdSeq <= id < nextId
          && StoredInRange(temp[id])
          && temp[id].str.Some?
          && temp[id].str.value !in CanonicalStrings(t.hashes))
    && (forall a, b :: a in temp && b in temp && temp[a].str == temp[b].str ==> a == b)
  }

  /** Staged rows for entries ds with distinct strings: each fits its
      columns and carries its entry's string. */
  predicate RowsFor(ds: seq<Entry>, rows: seq<HashRow>)
  {
    && |rows| == |ds|
    && Distinct(ds)
    && forall k :: 0 <= k < |ds| ==> StoredInRange(rows[k]) && rows[k].str == Some(ds[k].str)
  }

  /** The rows left in temp_hashes keep their staged ids and contents. */
  lemma RemainingRowsAt(t: Tables, ds: seq<Entry>, rows: seq<HashRow>)
    requires RowsFor(ds, rows)
    ensures forall id :: id in RemainingRows(t, rows) ==>
      t.hashIdSeq <= id < t.hashIdSeq + |ds| && RemainingRows(t, rows)[id] == rows[id - t.hashIdSeq]
    ensures forall id :: id in RemainingRows(t, rows) ==> RemainingRows(t, rows)[id].str.value in Strings(ds)
  {
    forall id | id in RemainingRows(t, rows)
      ensures t.hashIdSeq <= id < t.hashIdSeq + |ds| && RemainingRows(t, rows)[id] == rows[id - t.hashIdSeq]
      ensures RemainingRows(t, rows)[id].str.value in Strings(ds)
    {
      RemainingRowAt(t, ds, rows, id);
      var k := id - t.hashIdSeq;
      assert ds[k].str in Strings(ds);
    }
  }

  lemma RemainingRowAt(t: Tables, ds: seq<Entry>, rows: seq<HashRow>, id: Id)
    requires RowsFor(ds, rows) && id in RemainingRows(t, rows)
    ensures t.hashIdSeq <= id < t.hashIdSeq + |ds|
    ensures RemainingRows(t, rows)[id] == rows[id - t.hashIdSeq]
    ensures RemainingRows(t, rows)[id].str == Some(ds[id - t.hashIdSeq].str)
  {
    TableSpec(rows, t.hashIdSeq);
  }

  /** The rows left in temp_hashes are fresh rows with new strings. */
  lemma RemainingRowsFresh(t: Tables, ds: seq<Entry>, rows: seq<HashRow>)
    requires WellFormed(t) && RowsFor(ds, rows)
    ensures FreshRows(t, RemainingRows(t, rows), t.hashIdSeq + |ds|)
  {
    var temp := RemainingRows(t, rows);
    RemainingRowsAt(t, ds, rows);
    forall a, b | a in temp && b in temp && temp[a].str == temp[b].str ensures a == b {
      assert ds[a - t.hashIdSeq].str == ds[b - t.hashIdSeq].str;
    }
  }

  /** Every string of ds the catalog lacks has a row left in temp_hashes. */
  lemma RemainingRowsCover(t: Tables, ds: seq<Entry>, rows: seq<HashRow>)
    requires RowsFor(ds, rows)
    ensures forall s :: s in Strings(ds) && s !in CanonicalStrings(t.hashes) ==>
      exists id :: id in RemainingRows(t, rows) && RemainingRows(t, rows)[id].str == Some(s)
  {
    forall s | s in Strings(ds) && s !in CanonicalStrings(t.hashes)
      ensures exists id :: id in RemainingRows(t, rows) && RemainingRows(t, rows)[id].str == Some(s)
    {
      var k :| 0 <= k < |ds| && ds[k].str == s;
      RemainingRowOf(t, ds, rows, k);
    }
  }

  /** The row staged for a string the catalog lacks stays in temp_hashes. */
  lemma RemainingRowOf(t: Tables, ds: seq<Entry>, rows: seq<HashRow>, k: nat)
    requires RowsFor(ds, rows) && k < |ds| && ds[k].str !in CanonicalStrings(t.hashes)
    ensures t.hashIdSeq + k in RemainingRows(t, rows)
    ensures RemainingRows(t, rows)[t.hashIdSeq + k].str == Some(ds[k].str)
  {
    TableSpec(rows, t.hashIdSeq);
    assert Table(rows, t.hashIdSeq)[t.hashIdSeq + k] == rows[k];
  }

  /** The staged rows of an import are rows for its deduplicated entries. */
  lemma StagedRowsFor(entries: seq<Entry>, crc: Crc)
    ensures RowsFor(Dedup(entries), StagedRows(Dedup(entries), crc))
    ensures Strings(Dedup(entries)) == Strings(entries)
  {
    DedupSpec(entries);
    StagedRowsFit(Dedup(entries), crc);
  }

  /** The rows left in temp_hashes after an import's first DELETE. */
  lemma RemainingSpec(t: Tables, entries: seq<Entry>, crc: Crc)
    requires WellFormed(t)
    ensures FreshRows(t, Remaining(t, entries, crc), t.hashIdSeq + |Dedup(entries)|)
    ensures forall s :: s in Strings(entries) && s !in CanonicalStrings(t.hashes) ==>
      exists id :: id in Remaining(t, entries, crc) && Remaining(t, entries, crc)[id].str == Some(s)
    ensures forall id :: id in Remaining(t, entries, crc) ==> Remaining(t, entries, crc)[id].str.value in Strings(entries)
  {
    StagedRowsFor(entries, crc);
    var ds := Dedup(entries);
    var rows := StagedRows(ds, crc);
    RemainingRowsAt(t, ds, rows);
    RemainingRowsFresh(t, ds, rows);
    RemainingRowsCover(t, ds, rows);
  }

  // ---------------------------------------------------------------------
  // Properties of the merge

  /** The merge keeps the tables well formed. */
  lemma MergedWellFormed(t: Tables, temp: map<Id, HashRow>, nextId: Id, imp: ImportRow)
    requires WellFormed(t) && FreshRows(t, temp, nextId)
    ensures WellFormed(Merged(t, temp, nextId, imp))
  {
    var pairs := Reconciled(t.hashes, temp);
    var r := Merged(t, temp, nextId, imp);
    forall id | id in r.hashes ensures id < nextId && StoredInRange(r.hashes[id]) {
      if id !in temp {
        assert id in t.hashes && r.hashes[id] == t.hashes[id];
      }
    }
    ReconciledPairs(t.hashes, temp);
    RelinkedBelow(t.hashImportMap, pairs, t.importIdSeq);
    RelinkedOnto(t.hashImportMap, pairs, nextId);
    RelinkedOnto(t.hashArchiveMap, pairs, nextId);
  }

  /** Restored links name only the new ids of the pairs. */
  lemma RelinkedOnto<L>(links: set<(Id, L)>, pairs: set<(Id, Id)>, bound: nat)
    requires forall p :: p in pairs ==> p.0 < bound
    ensures forall q :: q in Relink(links, pairs) ==> q.0 < bound
  {
    forall q | q in Relink(links, pairs) ensures q.0 < bound {
      RelinkedFrom(links, pairs, q);
    }
  }

  /** At most one catalog row per string, before and after. */
  lemma MergedUniqueStrings(t: Tables, temp: map<Id, HashRow>, nextId: Id, imp: ImportRow)
    requires WellFormed(t) && FreshRows(t, temp, nextId) && UniqueStrings(t.hashes)
    ensures UniqueStrings(Merged(t, temp, nextId, imp).hashes)
  {
    var h := Merged(t, temp, nextId, imp).hashes;
    forall a, b | a in h && b in h && h[a].str.Some? && h[a].str == h[b].str ensures a == b {
      if a in temp && b !in temp {
        FreshStringIsNew(t, temp, nextId, imp, a, b);
      } else if b in temp && a !in temp {
        FreshStringIsNew(t, temp, nextId, imp, b, a);
      }
    }
  }

  /** A row of temp_hashes never shares its string with a row the merge kept. */
  lemma FreshStringIsNew(t: Tables, temp: map<Id, HashRow>, nextId: Id, imp: ImportRow, a: Id, b: Id)
    requires WellFormed(t) && FreshRows(t, temp, nextId)
    requires a in temp && b in Merged(t, temp, nextId, imp).hashes && b !in temp
    ensures Merged(t, temp, nextId, imp).hashes[b].str != temp[a].str
  {
    var h := Merged(t, temp, nextId, imp).hashes;
    assert b in t.hashes && h[b] == t.hashes[b];
    if h[b].str.Some? {
      assert h[b].str.value in CanonicalStrings(t.hashes);
    }
  }

  /** Canonical rows are never deleted or changed. A placeholder is deleted
      exactly when a row of temp_hashes matches it on every fingerprint it
      has; otherwise it stays as it was. */
  lemma MergedKeepsRows(t: Tables, temp: map<Id, HashRow>, nextId: Id, imp: ImportRow, o: Id)
    requires WellFormed(t) && FreshRows(t, temp, nextId) && o in t.hashes
    ensures var r := Merged(t, temp, nextId, imp);
      && (o !in r.hashes <==> IsPlaceholder(t.hashes[o]) && exists n :: n in temp && Matches(t.hashes[o], temp[n]))
      && (o in r.hashes ==> r.hashes[o] == t.hashes[o])
      && (!IsPlaceholder(t.hashes[o]) ==> o in r.hashes)
  {
    var pairs := Reconciled(t.hashes, temp);
    assert o !in temp;
    if IsPlaceholder(t.hashes[o]) && exists n :: n in temp && Matches(t.hashes[o], temp[n]) {
      var n :| n in temp && Matches(t.hashes[o], temp[n]);
      assert (n, o) in pairs;
      assert o in OrigIds(pairs);
    }
    if o in OrigIds(pairs) {
      var p :| p in pairs && p.1 == o;
    }
  }

  /** A placeholder without any fingerprint matches every row, so any import
      that leaves a row in temp_hashes deletes it. */
  lemma EmptyPlaceholderMatchesAll(t: Tables, temp: map<Id, HashRow>, nextId: Id, imp: ImportRow, o: Id, n: Id)
    requires WellFormed(t) && FreshRows(t, temp, nextId) && o in t.hashes && n in temp
    requires t.hashes[o] == HashRow(None, None, None, None, None, t.hashes[o].description, t.hashes[o].stringType)
    ensures o !in Merged(t, temp, nextId, imp).hashes
  {
    MergedKeepsRows(t, temp, nextId, imp, o);
  }

  /** The rows of temp_hashes are inserted under their own, fresh ids (not
      the ids of the placeholders they replace), and nothing else is. */
  lemma MergedInserts(t: Tables, temp: map<Id, HashRow>, nextId: Id, imp: ImportRow)
    requires WellFormed(t) && FreshRows(t, temp, nextId)
    ensures var r := Merged(t, temp, nextId, imp);
      && (forall id :: id in temp ==> id !in t.hashes && id in r.hashes && r.hashes[id] == temp[id])
      && (forall id :: id in r.hashes && id !in t.hashes ==> id in temp)
  {
  }

  /** Every import and archive link of a deleted placeholder is restored on
      each row that matched it, as a link the catalog did not have. */
  lemma MergedRestoresLinks(t: Tables, temp: map<Id, HashRow>, nextId: Id, imp: ImportRow, n: Id, o: Id)
    requires WellFormed(t) && FreshRows(t, temp, nextId)
    requires (n, o) in Reconciled(t.hashes, temp)
    ensures var r := Merged(t, temp, nextId, imp);
      && (forall i :: (o, i) in t.hashImportMap ==> (n, i) in r.hashImportMap && (n, i) !in t.hashImportMap)
      && (forall a :: (o, a) in t.hashArchiveMap ==> (n, a) in r.hashArchiveMap && (n, a) !in t.hashArchiveMap)
  {
    var pairs := Reconciled(t.hashes, temp);
    ReconciledPairs(t.hashes, temp);
    assert n in temp && n >= t.hashIdSeq;
    RelinkCarries(t.hashImportMap, pairs, n, o);
    RelinkCarries(t.hashArchiveMap, pairs, n, o);
  }

  /** No link to a deleted placeholder is left. */
  lemma MergedDropsLinks(t: Tables, temp: map<Id, HashRow>, nextId: Id, imp: ImportRow, n: Id, o: Id)
    requires WellFormed(t) && FreshRows(t, temp, nextId)
    requires (n, o) in Reconciled(t.hashes, temp)
    ensures var r := Merged(t, temp, nextId, imp);
      && (forall i :: (o, i) !in r.hashImportMap)
      && (forall a :: (o, a) !in r.hashArchiveMap)
  {
    var pairs := Reconciled(t.hashes, temp);
    ReconciledPairs(t.hashes, temp);
    assert o in OrigIds(pairs);
    assert o !in temp;
    NoLinksLeft(t.hashImportMap, pairs, temp.Keys, o);
    NoLinksLeft(t.hashArchiveMap, pairs, temp.Keys, o);
    assert forall i :: (o, i) !in LinkAll(temp, t.importIdSeq);
  }

  /** Once an original row is deleted, neither its kept nor its restored links name it. */
  lemma NoLinksLeft<L>(links: set<(Id, L)>, pairs: set<(Id, Id)>, ids: set<Id>, o: Id)
    requires o in OrigIds(pairs) && o !in ids
    requires forall p :: p in pairs ==> p.0 in ids
    ensures forall x :: (o, x) !in DropLinks(links, OrigIds(pairs)) + Relink(links, pairs)
  {
    RelinkedIn(links, pairs, ids);
  }

  /** Each link of the original row of a pair is restored on its new row. */
  lemma RelinkCarries<L>(links: set<(Id, L)>, pairs: set<(Id, Id)>, n: Id, o: Id)
    requires (n, o) in pairs
    ensures forall x :: (o, x) in links ==> (n, x) in Relink(links, pairs)
  {
    forall x | (o, x) in links ensures (n, x) in Relink(links, pairs) {
      var p, q := (n, o), (o, x);
      assert (p.0, q.1) in Relink(links, pairs);
    }
  }

  /** Restored links name only new ids of the pairs. */
  lemma RelinkedIn<L>(links: set<(Id, L)>, pairs: set<(Id, Id)>, ids: set<Id>)
    requires forall p :: p in pairs ==> p.0 in ids
    ensures forall q :: q in Relink(links, pairs) ==> q.0 in ids
  {
    forall q | q in Relink(links, pairs) ensures q.0 in ids {
      RelinkedFrom(links, pairs, q);
    }
  }

  /** The links of rows the merge keeps are kept. */
  lemma MergedKeepsLinks(t: Tables, temp: map<Id, HashRow>, nextId: Id, imp: ImportRow)
    requires WellFormed(t) && FreshRows(t, temp, nextId)
    ensures var r := Merged(t, temp, nextId, imp);
      && (forall p :: p in t.hashImportMap && p.0 in r.hashes ==> p in r.hashImportMap)
      && (forall p :: p in t.hashArchiveMap && p.0 in r.hashes ==> p in r.hashArchiveMap)
  {
    var deleted := OrigIds(Reconciled(t.hashes, temp));
    var r := Merged(t, temp, nextId, imp);
    forall p | p in t.hashImportMap && p.0 in r.hashes ensures p.0 !in deleted {
      assert p.0 < t.hashIdSeq;
    }
    forall p | p in t.hashArchiveMap && p.0 in r.hashes ensures p.0 !in deleted {
      assert p.0 < t.hashIdSeq;
    }
  }

  /** Exactly one import is added, and the hashes linked to it are exactly the
      rows of temp_hashes. */
  lemma MergedNewImport(t: Tables, temp: map<Id, HashRow>, nextId: Id, imp: ImportRow)
    requires WellFormed(t)
    ensures var r := Merged(t, temp, nextId, imp);
      && t.importIdSeq !in t.imports
      && r.imports == t.imports[t.importIdSeq := imp]
      && |r.imports| == |t.imports| + 1
      && (forall id :: (id, t.importIdSeq) in r.hashImportMap <==> id in temp)
  {
    var pairs := Reconciled(t.hashes, temp);
    var kept := DropLinks(t.hashImportMap, OrigIds(pairs));
    var restored := Relink(t.hashImportMap, pairs);
    RelinkedBelow(t.hashImportMap, pairs, t.importIdSeq);
    forall id ensures (id, t.importIdSeq) in kept + restored + LinkAll(temp, t.importIdSeq) <==> id in temp {
      assert (id, t.importIdSeq) in LinkAll(temp, t.importIdSeq) <==> id in temp;
      assert (id, t.importIdSeq) !in kept && (id, t.importIdSeq) !in restored;
    }
  }

  /** Restoring links carries over no label the links did not have. */
  lemma RelinkedBelow(links: set<(Id, nat)>, pairs: set<(Id, Id)>, bound: nat)
    requires forall q :: q in links ==> q.1 < bound
    ensures forall q :: q in Relink(links, pairs) ==> q.1 < bound
  {
    forall q | q in Relink(links, pairs) ensures q.1 < bound {
      RelinkedFrom(links, pairs, q);
    }
  }

  /** An import keeps the catalog well formed and free of duplicate strings. */
  lemma AfterImportInvariant(t: Tables, entries: seq<Entry>, imp: ImportRow, crc: Crc)
    requires WellFormed(t) && UniqueStrings(t.hashes)
    ensures WellFormed(AfterImport(t, entries, imp, crc))
    ensures UniqueStrings(AfterImport(t, entries, imp, crc).hashes)
  {
    RemainingSpec(t, entries, crc);
    var next := t.hashIdSeq + |Dedup(entries)|;
    MergedWellFormed(t, Remaining(t, entries, crc), next, imp);
    MergedUniqueStrings(t, Remaining(t, entries, crc), next, imp);
  }

  /** A string the catalog already held gets no link to the new import, on
      its own row or on any other. */
  lemma AfterImportSkipsKnownStrings(t: Tables, entries: seq<Entry>, imp: ImportRow, crc: Crc, id: Id)
    requires WellFormed(t)
    requires (id, t.importIdSeq) in AfterImport(t, entries, imp, crc).hashImportMap
    ensures id !in t.hashes
    ensures var r := AfterImport(t, entries, imp, crc);
      id in r.hashes && r.hashes[id].str.Some? && r.hashes[id].str.value !in CanonicalStrings(t.hashes)
  {
    RemainingSpec(t, entries, crc);
    var next := t.hashIdSeq + |Dedup(entries)|;
    MergedNewImport(t, Remaining(t, entries, crc), next, imp);
    MergedInserts(t, Remaining(t, entries, crc), next, imp);
  }

  /** Rows with distinct strings have as many strings as rows. */
  lemma {:induction false} CanonicalStringsCard(m: map<Id, HashRow>)
    requires forall id :: id in m ==> m[id].str.Some?
    requires forall a, b :: a in m && b in m && m[a].str == m[b].str ==> a == b
    ensures |CanonicalStrings(m)| == |m|
  {
    if m != map[] {
      var x :| x in m;
      var rest := m - {x};
      CanonicalStringsCard(rest);
      CanonicalStringsRemove(m, x);
      assert m[x].str.value !in CanonicalStrings(rest);
      assert m.Keys == rest.Keys + {x};
      MapCard(m);
      MapCard(rest);
    }
  }

  lemma CanonicalStringsRemove(m: map<Id, HashRow>, x: Id)
    requires x in m && m[x].str.Some?
    ensures CanonicalStrings(m) == CanonicalStrings(m - {x}) + {m[x].str.value}
  {
    var rest := m - {x};
    forall s | s in CanonicalStrings(m) ensures s in CanonicalStrings(rest) + {m[x].str.value} {
      var id :| id in m && m[id].str.Some? && m[id].str.value == s;
      if id != x {
        assert id in rest;
      }
    }
    forall s | s in CanonicalStrings(rest) ensures s in CanonicalStrings(m) {
      var id :| id in rest && rest[id].str.Some? && rest[id].str.value == s;
      assert id in m;
    }
  }

  /** The count for staged rows rows is the number of their strings that
      the catalog lacks, which is the number of rows left in temp_hashes. */
  lemma NewCountSpec(t: Tables, ds: seq<Entry>, rows: seq<HashRow>)
    requires WellFormed(t) && RowsFor(ds, rows)
    ensures NewCount(t, rows) == |Strings(ds) - CanonicalStrings(t.hashes)|
    ensures NewCount(t, rows) == |RemainingRows(t, rows)|
  {
    RemainingCount(t, rows);
    RemainingStringsCard(t, ds, rows);
  }

  /** The rows the first DELETE removed are the staged rows less the rows left. */
  lemma RemainingCount(t: Tables, rows: seq<HashRow>)
    ensures NewCount(t, rows) == |RemainingRows(t, rows)|
  {
    var staged := Table(rows, t.hashIdSeq);
    var temp := RemainingRows(t, rows);
    TableSpec(rows, t.hashIdSeq);
    assert temp.Keys <= staged.Keys;
    SubsetDiffCard(staged.Keys, temp.Keys);
  }

  lemma SubsetDiffCard<T>(a: set<T>, b: set<T>)
    requires b <= a
    ensures |a - b| == |a| - |b|
  {
    assert a == (a - b) + b;
  }

  /** One row is left per string of ds that the catalog lacks. */
  lemma RemainingStringsCard(t: Tables, ds: seq<Entry>, rows: seq<HashRow>)
    requires WellFormed(t) && RowsFor(ds, rows)
    ensures |RemainingRows(t, rows)| == |Strings(ds) - CanonicalStrings(t.hashes)|
  {
    var temp := RemainingRows(t, rows);
    RemainingRowsAt(t, ds, rows);
    RemainingRowsCover(t, ds, rows);
    RemainingRowsFresh(t, ds, rows);
    CanonicalStringsCard(temp);
    forall s | s in Strings(ds) - CanonicalStrings(t.hashes) ensures s in CanonicalStrings(temp) {
      var id :| id in temp && temp[id].str == Some(s);
    }
    assert CanonicalStrings(temp) == Strings(ds) - CanonicalStrings(t.hashes);
  }

  lemma MapCard<K, V>(m: map<K, V>)
    ensures |m| == |m.Keys|
  {
  }

  /** newStringCount is the number of distinct strings of the import that the
      catalog did not hold, which is also the number of rows inserted. */
  lemma NewStringCountSpec(t: Tables, entries: seq<Entry>, crc: Crc)
    requires WellFormed(t)
    ensures NewStringCount(t, entries, crc) == |Strings(entries) - CanonicalStrings(t.hashes)|
    ensures NewStringCount(t, entries, crc) == |Remaining(t, entries, crc)|
  {
    StagedRowsFor(entries, crc);
    NewCountSpec(t, Dedup(entries), StagedRows(Dedup(entries), crc));
  }

  /** The steps of importStrings compose to AfterImport: staging, then the
      first DELETE, then the merge with the hash sequence already advanced. */
  lemma ImportSteps(t: Tables, entries: seq<Entry>, imp: ImportRow, crc: Crc,
                    staged: map<Id, HashRow>, temp: map<Id, HashRow>, nextId: Id, seenCount: nat)
    requires WellFormed(t) && UniqueStrings(t.hashes)
    requires staged == Table(StagedRows(Dedup(entries), crc), t.hashIdSeq)
    requires nextId == t.hashIdSeq + |Dedup(entries)| && seenCount == |Strings(entries)|
    requires temp == DropKnownStrings(staged, t.hashes)
    ensures Merged(t.(hashIdSeq := nextId), temp, nextId, imp) == AfterImport(t, entries, imp, crc)
    ensures WellFormed(AfterImport(t, entries, imp, crc)) && UniqueStrings(AfterImport(t, entries, imp, crc).hashes)
    ensures seenCount - |staged.Keys - temp.Keys| == |Strings(entries) - CanonicalStrings(t.hashes)|
  {
    MergedIgnoresHashSeq(t, t.(hashIdSeq := nextId), temp, nextId, imp);
    assert t.(hashIdSeq := nextId).hashIdSeq == nextId;
    AfterImportInvariant(t, entries, imp, crc);
    DedupCount(entries);
    NewStringCountSpec(t, entries, crc);
  }

  /** After an import every string of it is held by a canonical row. */
  lemma AfterImportHoldsStrings(t: Tables, entries: seq<Entry>, imp: ImportRow, crc: Crc)
    requires WellFormed(t)
    ensures Strings(entries) <= CanonicalStrings(AfterImport(t, entries, imp, crc).hashes)
  {
    var r := AfterImport(t, entries, imp, crc);
    var temp := Remaining(t, entries, crc);
    var next := t.hashIdSeq + |Dedup(entries)|;
    RemainingSpec(t, entries, crc);
    MergedInserts(t, temp, next, imp);
    forall s | s in Strings(entries) ensures s in CanonicalStrings(r.hashes) {
      if s in CanonicalStrings(t.hashes) {
        var o :| o in t.hashes && t.hashes[o].str.Some? && t.hashes[o].str.value == s;
        MergedKeepsRows(t, temp, next, imp, o);
        assert r.hashes[o].str.value == s;
      } else {
        var id :| id in temp && temp[id].str == Some(s);
        assert r.hashes[id].str.value == s;
      }
    }
  }

  /** With nothing left in temp_hashes the merge changes no hash row and
      links nothing to the new import. */
  lemma MergedNothingStaged(t: Tables, nextId: Id, imp: ImportRow)
    requires WellFormed(t)
    ensures Merged(t, map[], nextId, imp).hashes == t.hashes
    ensures forall id :: (id, t.importIdSeq) !in Merged(t, map[], nextId, imp).hashImportMap
  {
    assert Reconciled(t.hashes, map[]) == {};
    assert OrigIds({}) == {};
    assert t.hashes - {} == t.hashes;
    forall id | (id, t.importIdSeq) in t.hashImportMap ensures false {
    }
  }

  /** Importing the same strings again changes no hash row, counts no new
      string, and links nothing to the second import. */
  lemma ReimportAddsNothing(t: Tables, entries: seq<Entry>, imp: ImportRow, imp2: ImportRow, crc: Crc)
    requires WellFormed(t)
    ensures var r := AfterImport(t, entries, imp, crc);
      var r2 := AfterImport(r, entries, imp2, crc);
      && r2.hashes == r.hashes
      && NewStringCount(r, entries, crc) == 0
      && (forall id :: (id, r.importIdSeq) !in r2.hashImportMap)
  {
    var r := AfterImport(t, entries, imp, crc);
    ReimportLeavesNothing(t, entries, imp, crc);
    NewStringCountSpec(r, entries, crc);
    MergedNothingStaged(r, r.hashIdSeq + |Dedup(entries)|, imp2);
  }

  /** After an import, the same strings leave nothing in temp_hashes. */
  lemma ReimportLeavesNothing(t: Tables, entries: seq<Entry>, imp: ImportRow, crc: Crc)
    requires WellFormed(t)
    ensures WellFormed(AfterImport(t, entries, imp, crc))
    ensures Remaining(AfterImport(t, entries, imp, crc), entries, crc) == map[]
  {
    AfterImportWellFormed(t, entries, imp, crc);
    AfterImportHoldsStrings(t, entries, imp, crc);
    NothingNewLeft(AfterImport(t, entries, imp, crc), entries, crc);
  }

  /** Strings the catalog already holds leave nothing in temp_hashes. */
  lemma NothingNewLeft(t: Tables, entries: seq<Entry>, crc: Crc)
    requires WellFormed(t) && Strings(entries) <= CanonicalStrings(t.hashes)
    ensures Remaining(t, entries, crc) == map[]
  {
    var temp := Remaining(t, entries, crc);
    RemainingSpec(t, entries, crc);
    forall id | id in temp ensures false {
    }
  }

  lemma AfterImportWellFormed(t: Tables, entries: seq<Entry>, imp: ImportRow, crc: Crc)
    requires WellFormed(t)
    ensures WellFormed(AfterImport(t, entries, imp, crc))
  {
    RemainingSpec(t, entries, crc);
    MergedWellFormed(t, Remaining(t, entries, crc), t.hashIdSeq + |Dedup(entries)|, imp);
  }

  /** Finding: a staged fnv64 is stored negative, so looking the fingerprint
      up as written never finds the row, while the encoded lookup does. */
  lemma FindStagedFnv64(hashes: map<Id, HashRow>, id: Id, e: Entry, crc: Crc)
    requires id in hashes && hashes[id] == StagedRow(e, crc)
    ensures id !in FindHashAsWritten(hashes, ByFnv64(HashWDFnv64(e.str)))
    ensures id in FindHash(hashes, ByFnv64(HashWDFnv64(e.str)))
  {
    StagedRowSpec(e, crc);
    HashWDFnv64Tagged(e.str);
  }
}
