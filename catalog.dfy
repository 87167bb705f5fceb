/** The tables of the hash catalog (src/database.ts: DBHashes, DBImports,
    DBHashImportMap, DBHashArchiveMap) and the lookup findHash. */
module Catalog {
  import opened Wrappers
  import opened Hasher
  import opened Codec

  /** hashes.id, drawn from the sequence hashes shares with temp_hashes. */
  type Id = nat
  type ImportId = nat
  type ArchiveId = nat

  /** ImportTypes */
  datatype ImportType = Unknown | Discord | Leak

  /** StringTypes; the source spells the first member UNKNWON. */
  datatype StringType = Unknwon | FilePath

  /** A row of `hashes` without its id, which is the key of the table. A row
      whose str is None is a placeholder; one with a string is canonical. */
  datatype HashRow = HashRow(
    fnv32: Option<int>,
    fnv64: Option<int>,
    crc32: Option<int>,
    crc64: Option<int>,
    str: Option<JsString>,
    description: Option<JsString>,
    stringType: StringType)

  /** A row of `imports` without its id and its creation time. */
  datatype ImportRow = ImportRow(importType: ImportType, source: Option<JsString>, discordId: Option<JsString>)

  /** ImportStringsStringObject */
  datatype Entry = Entry(str: JsString, description: Option<JsString>, stringType: Option<StringType>)

  predicate IsPlaceholder(row: HashRow)
  {
    row.str.None?
  }

  /** The persistent tables, and the next values of the two id sequences. */
  datatype Tables = Tables(
    hashes: map<Id, HashRow>,
    hashImportMap: set<(Id, ImportId)>,
    hashArchiveMap: set<(Id, ArchiveId)>,
    imports: map<ImportId, ImportRow>,
    hashIdSeq: Id,
    importIdSeq: ImportId)

  predicate OptInSignedRange(v: Option<int>, pow: Width)
  {
    v.Some? ==> InSignedRange(v.value, pow)
  }

  /** Every stored fingerprint fits its signed column. */
  predicate StoredInRange(row: HashRow)
  {
    && OptInSignedRange(row.fnv32, 32)
    && OptInSignedRange(row.fnv64, 64)
    && OptInSignedRange(row.crc32, 32)
    && OptInSignedRange(row.crc64, 64)
  }

  /** Ids handed out so far lie below the sequences; every link names a hash
      id handed out so far, and an import link an import id handed out so far. */
  predicate WellFormed(t: Tables)
  {
    && (forall id :: id in t.hashes ==> id < t.hashIdSeq && StoredInRange(t.hashes[id]))
    && (forall i :: i in t.imports ==> i < t.importIdSeq)
    && (forall p :: p in t.hashImportMap ==> p.0 < t.hashIdSeq && p.1 < t.importIdSeq)
    && (forall p :: p in t.hashArchiveMap ==> p.0 < t.hashIdSeq)
  }

  /** No two rows share a non-null string. */
  predicate UniqueStrings(hashes: map<Id, HashRow>)
  {
    forall a, b :: a in hashes && b in hashes && hashes[a].str.Some? && hashes[a].str == hashes[b].str ==> a == b
  }

  /** The strings of the canonical rows. */
  function CanonicalStrings(hashes: map<Id, HashRow>): set<JsString>
  {
    set id | id in hashes && hashes[id].str.Some? :: hashes[id].str.value
  }

  // ---------------------------------------------------------------------
  // findHash

  /** OneHash: exactly one of the four fingerprints, as the caller gives it. */
  datatype HashQuery = ByFnv32(value: int) | ByFnv64(value: int) | ByCrc32(value: int) | ByCrc64(value: int)

  /** The column the query names, in a row. */
  function Column(row: HashRow, q: HashQuery): Option<int>
  {
    match q
    case ByFnv32(_) => row.fnv32
    case ByFnv64(_) => row.fnv64
    case ByCrc32(_) => row.crc32
    case ByCrc64(_) => row.crc64
  }

  function ColumnWidth(q: HashQuery): Width
  {
    if q.ByFnv32? || q.ByCrc32? then 32 else 64
  }

  /** The row with its four fingerprints decoded to unsigned values. */
  function DecodeRow(row: HashRow): (r: HashRow)
    ensures StoredInRange(row) ==>
      && (r.fnv32.Some? ==> InUnsignedRange(r.fnv32.value, 32))
      && (r.fnv64.Some? ==> InUnsignedRange(r.fnv64.value, 64))
      && (r.crc32.Some? ==> InUnsignedRange(r.crc32.value, 32))
      && (r.crc64.Some? ==> InUnsignedRange(r.crc64.value, 64))
    ensures r.str == row.str && r.description == row.description && r.stringType == row.stringType
  {
    row.(fnv32 := FromDBBigint(row.fnv32, 32),
         fnv64 := FromDBBigint(row.fnv64, 64),
         crc32 := FromDBBigint(row.crc32, 32),
         crc64 := FromDBBigint(row.crc64, 64))
  }

  /** findHash as written: the query value is compared with the stored,
      signed column as it is. A value of 2^(N-1) or more, which every WD-FNV64
      fingerprint is, never equals a stored value that fits the column. */
  function FindHashAsWritten(hashes: map<Id, HashRow>, q: HashQuery): (r: map<Id, HashRow>)
    ensures forall id :: id in r ==> id in hashes && r[id] == DecodeRow(hashes[id])
    ensures forall id :: id in hashes ==> (id in r <==> Column(hashes[id], q) == Some(q.value))
    ensures q.value >= POWERS_OF_TWO[ColumnWidth(q) - 1] ==>
      forall id :: id in hashes && StoredInRange(hashes[id]) ==> id !in r
  {
    map id | id in hashes && Column(hashes[id], q) == Some(q.value) :: DecodeRow(hashes[id])
  }

  /** findHash with the query value encoded as the column stores it: for an
      unsigned query value, a row (with fingerprints that fit their columns)
      is found exactly when its decoded fingerprint equals the query. */
  function FindHash(hashes: map<Id, HashRow>, q: HashQuery): (r: map<Id, HashRow>)
    ensures forall id :: id in r ==> id in hashes && r[id] == DecodeRow(hashes[id])
    ensures InUnsignedRange(q.value, ColumnWidth(q)) ==>
      forall id :: id in hashes && StoredInRange(hashes[id]) ==>
        (id in r <==> Column(DecodeRow(hashes[id]), q) == Some(q.value))
  {
    var stored := ToDBBigint(q.value, ColumnWidth(q));
    assert forall id :: id in hashes && StoredInRange(hashes[id]) && InUnsignedRange(q.value, ColumnWidth(q)) ==>
      (Column(hashes[id], q) == Some(stored) <==> Column(DecodeRow(hashes[id]), q) == Some(q.value)) by {
      forall id | id in hashes && StoredInRange(hashes[id]) && InUnsignedRange(q.value, ColumnWidth(q))
        ensures Column(hashes[id], q) == Some(stored) <==> Column(DecodeRow(hashes[id]), q) == Some(q.value)
      {
        var c := Column(hashes[id], q);
        if c.Some? {
          assert InSignedRange(c.value, ColumnWidth(q));
          EncodeDecode(c.value, ColumnWidth(q));
          RoundTrip(q.value, ColumnWidth(q));
        }
      }
    }
    map id | id in hashes && Column(hashes[id], q) == Some(stored) :: DecodeRow(hashes[id])
  }
}
