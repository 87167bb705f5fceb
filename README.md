# WDHashHelpAPI hash catalog, in Dafny

This project models the core of WDHashHelpAPI, a service that fingerprints
file-path strings and merges them into a catalog of known hashes. The model
covers two parts.

- **The fingerprint helpers of `src/hasher.ts`.**
  - `normalizeString`.
  - The WD-FNV64 loop `internalWDFnv64`, and the fingerprints `hashWDFnv64` and `hashWDFnv32`.
  - `toHexString`, `reverseHexString` and `toReverseHexString`.
  - Strings are sequences of UTF-16 code units (`Hasher.JsString`).
  - BigInt operators on non-negative values are recursive functions on `nat` (module `Bits`).
- **The storage codec and the import merge of `src/database.ts`.**
  - `toDBBigint` and `fromDBBigint` convert between unsigned fingerprints and signed 32- and 64-bit columns (module `Codec`).
  - `findHash` is modelled in module `Catalog`.
  - `importStrings` is modelled in module `Database` as a `Database` class. Its fields are the tables `hashes`, `hash_import_map`, `hash_archive_map` and `imports`, plus the next values of the two id sequences. `hashes` and `temp_hashes` share the hash sequence.

The module's methods run the steps of the transaction in order:

1. The chunk loop with its `seenStrings` filter.
2. The inserts into `temp_hashes`.
3. The first DELETE and the count.
4. `temp_duplicates`.
5. The delete of matched placeholders.
6. The copy into `hashes`.
7. The restored links.
8. The new import and its links.

Module `Merge` defines the same transaction as a function `AfterImport` from the tables before to the tables after. It proves what the merge promises about that function:

- the tables stay well formed;
- no two rows share a string;
- canonical rows are never deleted;
- placeholders are deleted exactly when a staged row matches them on every fingerprint they have;
- links are restored under the new ids;
- exactly one import is created;
- the count is the number of new distinct strings.

`Database.ImportStrings` is proved to produce exactly `AfterImport` and that count.

Three behaviours of the code are easy to misread. The model follows the code in the last two; in the first it returns the count the code only logs:

- `importStrings` returns nothing; the count is only logged. The model returns it.
- A string the catalog already holds is removed from `temp_hashes` before the new import is linked. So re-importing a string does not link the second import to it (`Merge.ReimportAddsNothing`).
- A placeholder's replacement keeps its staged id, not the placeholder's id (`Merge.MergedInserts`).

Two parts of the code are evidently wrong (see Findings). For each, the model states the code as written and proves the discrepancy; the rest of the model then uses the corrected version:

- `toDBBigint` wraps only values strictly above 2^(N-1). `Codec.ToDBBigintAsWritten` and `Merge.StagedRowAsWritten` follow the code. The merge stages rows with the corrected `Codec.ToDBBigint` (see `Merge.StagedRow` under Left out).
- `findHash` compares the query with the stored column without encoding it. `Catalog.FindHashAsWritten` follows the code. `Catalog.FindHash` encodes the query first.

## Model

| member | source | states |
|---|---|---|
| Hasher.NormalizeString | src/hasher.ts:16 | the result has no ASCII upper-case letter, no `/`, no line feed and no carriage return, and is no longer than the input |
| Hasher.RemoveLineBreaks | src/hasher.ts:16 | the result is no longer than the input, holds only code units of the input, and holds no line feed or carriage return |
| Hasher.NormalizedIsFixed | src/hasher.ts:16 | a string that is already normalized is left unchanged |
| Hasher.NormalizeIdempotent | src/hasher.ts:16 | normalizing twice gives the same string as normalizing once |
| Hasher.InternalWDFnv64 | src/hasher.ts:4-14 | the loop computes the FNV fold of the normalized string, the hash stays below 2^64 throughout, and the empty string gives the offset basis 0xCBF29CE484222325 |
| Hasher.FnvStepTruncates | src/hasher.ts:9-11 | one iteration is the product with the prime, xor the code unit, reduced modulo 2^64 |
| Hasher.FnvFoldBelow | src/hasher.ts:6-13 | the folded hash of any string is below 2^64 |
| Hasher.HashWDFnv64Tagged | src/hasher.ts:29 | WD-FNV64 is the low 61 bits of the FNV value plus the tag 0xA000000000000000, so the value shifted right by 61 is 0b101, and the value is below 2^64 |
| Hasher.HashWDFnv64OfEmpty | src/hasher.ts:29 | the empty string hashes to 0xABF29CE484222325 |
| Hasher.HashWDFnv64IgnoresNormalization | src/hasher.ts:29 | hashing the normalized string gives the same WD-FNV64 as hashing the string |
| Hasher.HashWDFnv32Spec | src/hasher.ts:19-26 | WD-FNV32 is the low 32 bits of WD-FNV64, except that an upper halfword of 0xFFFF loses 0x10000 and becomes 0xFFFE; the result is below 2^32 and its upper halfword is never 0xFFFF |
| Hasher.HashWDFnv32IgnoresNormalization | src/hasher.ts:19-29 | hashing the normalized string gives the same WD-FNV32 as hashing the string |
| Bits.AndLowMask | src/hasher.ts:11 | masking with 2^k - 1 keeps the value modulo 2^k |
| Bits.TagAboveLowBits | src/hasher.ts:29 | keeping the low k bits and or-ing in a tag above them adds the tag times 2^k to the value modulo 2^k |
| Bits.AndUpperHalfword | src/hasher.ts:22 | for a 32-bit value, the mask 0xFFFF0000 keeps the upper halfword and clears the lower one |
| Bits.AndNotBit | src/hasher.ts:23 | clearing bit k subtracts 2^k exactly when that bit is set and otherwise changes nothing |
| Hasher.ToString16Length | src/hasher.ts:37 | toString(16) has at most k digits exactly when the value is below 16^k |
| Hasher.ToString16UpperDigits | src/hasher.ts:37-43 | the upper-cased hex rendering holds only the digits 0-9 and A-F and parses back to the value |
| Hasher.ToHexStringPadding | src/hasher.ts:36-44 | up to 0xFFFFFFFF the digits are padded to 8; below 2^64 they are padded to 16; from 2^64 up they have more than 16 digits and are not padded |
| Hasher.ToHexStringSpec | src/hasher.ts:36-44 | toHexString uses only upper-case hex digits and parses back to its argument; its length is exactly 8 up to 0xFFFFFFFF, exactly 16 below 2^64, and more than 16 above |
| Hasher.ReverseHexString | src/hasher.ts:48-59 | the loop stepping down by two returns what ReversedHex defines: a failure on odd length, and otherwise the two-unit pairs in reverse order |
| Hasher.ReversePairsLength | src/hasher.ts:54-58 | reversing the pairs keeps the length |
| Hasher.ReversePairsAt | src/hasher.ts:54-58 | for an input of n units, pair k of the result is pair n/2 - 1 - k of the input, with its two units in their original order |
| Hasher.ReversePairsAppend | src/hasher.ts:54-58 | reversing the pairs of a + b gives the reversed pairs of b followed by the reversed pairs of a |
| Hasher.ReversePairsInvolution | src/hasher.ts:54-58 | reversing the pairs twice gives the input back |
| Hasher.ReversedHexSpec | src/hasher.ts:48-59 | reverseHexString fails exactly on odd-length input; otherwise the result has the input's length, and applying the function to it again gives the input back |
| Hasher.ToReverseHexString | src/hasher.ts:46 | a string argument is reversed as given and a number is rendered by toHexString first; every number below 2^64 succeeds with 8 or 16 units |
| Hasher.ReverseOfSeventeenDigitsFails | src/hasher.ts:36-48 | 2^64 renders as 17 digits without padding, which reverseHexString rejects |
| Codec.ToDBBigintAsWritten | src/database.ts:293-298 | with the strict comparison, an unsigned N-bit value maps into (-2^(N-1), 2^(N-1)], and the result fits the signed column exactly when the value is not 2^(N-1) |
| Codec.ToDBBigint | src/database.ts:293-298 | with the comparison corrected to `>=`, every unsigned N-bit value fits the signed column, and is stored negative exactly when it is 2^(N-1) or more |
| Codec.FromDBBigint | src/database.ts:300-308 | null decodes to null and only null does, a signed N-bit value decodes to an unsigned N-bit value, and a non-negative value is unchanged |
| Codec.RoundTrip | src/database.ts:293-308 | decoding undoes both encodings on every unsigned N-bit value |
| Codec.EncodeDecode | src/database.ts:293-308 | every signed N-bit value is the corrected encoding of what it decodes to |
| Codec.EncodeInjective | src/database.ts:293-298 | distinct unsigned values get distinct stored values |
| Codec.AsWrittenBoundary | src/database.ts:294 | the written comparison agrees with the corrected one except at 2^(N-1), where the written one stores a value outside the signed range |
| Catalog.DecodeRow | src/database.ts:128-134 | a row whose fingerprints fit their columns decodes to unsigned fingerprints, with every other column unchanged |
| Catalog.FindHashAsWritten | src/database.ts:123-135 | returns exactly the rows whose chosen column equals the raw query value, decoded; a query of 2^(N-1) or more finds no row whose fingerprints fit their columns |
| Catalog.FindHash | src/database.ts:123-135 | with the query encoded first, a row whose fingerprints fit their columns is found exactly when its decoded fingerprint equals the query |
| Merge.DedupSpec | src/database.ts:156-178 | the kept entries have distinct strings, cover every string of the input, and each is the first entry that carries its string |
| Merge.DedupCount | src/database.ts:185-186 | `seenStrings.size` is the number of kept entries, which is the number of distinct strings |
| Merge.StagedRowSpec | src/database.ts:169-177 | a staged row fits its columns and decodes to the four unsigned fingerprints of the raw string; a missing description stays null and a missing type becomes UNKNWON; the stored fnv64 is negative |
| Merge.StagedRowAsWrittenFits | src/database.ts:169-177 | with toDBBigint as written, a staged row fits its columns exactly when neither 32-bit fingerprint is 2^31 and the CRC64 is not 2^63, and a row that fits equals the corrected row |
| Merge.StagedRowsConcat | src/database.ts:158-184 | staging two runs of entries gives the rows of each, in order |
| Merge.StagedRowsFit | src/database.ts:169-177 | every staged row fits its columns and carries its entry's string |
| Merge.TableSpec | src/database.ts:143-144 | inserted rows take consecutive ids from the sequence's value on, one row per id, in order |
| Merge.TableConcat | src/database.ts:183 | inserting two batches one after the other gives the second batch the ids after the first |
| Merge.RemainingSpec | src/database.ts:192-196 | after the first DELETE, every row left in temp_hashes has a fresh id, fits its columns, and has a string of the import that the catalog lacks, with no two rows sharing a string; every such string has a row |
| Merge.MergedWellFormed | src/database.ts:201-285 | the merge keeps every id below its sequence, every stored fingerprint in range, and every link pointing at ids handed out |
| Merge.MergedUniqueStrings | src/database.ts:192-238 | if no two rows shared a string before the merge, none do after it |
| Merge.MergedKeepsRows | src/database.ts:201-232 | a row is deleted exactly when it is a placeholder that some staged row matches; a row that stays is unchanged; rows with a string always stay |
| Merge.EmptyPlaceholderMatchesAll | src/database.ts:207-212 | a placeholder with no fingerprint is deleted whenever any row is staged |
| Merge.MergedInserts | src/database.ts:234-238 | every staged row is inserted under its own fresh id, which collided with no existing id; no other id is added |
| Merge.MergedRestoresLinks | src/database.ts:240-262 | every import and archive link of a deleted placeholder reappears on each staged id that matched it, as a new link |
| Merge.MergedDropsLinks | src/database.ts:228-232 | no link names a deleted placeholder afterwards |
| Merge.MergedKeepsLinks | src/database.ts:228-262 | the links of every row the merge keeps are kept |
| Merge.MergedNewImport | src/database.ts:264-285 | exactly one import is added under a fresh id, even when nothing was staged, and the rows linked to it are exactly the rows of temp_hashes |
| Merge.AfterImportInvariant | src/database.ts:137-291 | an import keeps the catalog well formed and free of duplicate strings |
| Merge.AfterImportSkipsKnownStrings | src/database.ts:278-285 | only a newly inserted row with a string the catalog lacked is linked to the new import |
| Merge.AfterImportHoldsStrings | src/database.ts:192-238 | after an import, every string of it is held by a canonical row |
| Merge.NewCountSpec | src/database.ts:192-197 | the count is the number of staged strings the catalog lacks, which is the number of rows left in temp_hashes |
| Merge.NewStringCountSpec | src/database.ts:192-197 | newStringCount is the number of distinct strings of the import that the catalog did not hold, which is also the number of rows inserted |
| Merge.MergedNothingStaged | src/database.ts:201-285 | with temp_hashes empty the merge changes no hash row and links nothing to the new import |
| Merge.ReimportLeavesNothing | src/database.ts:192-196 | importing the same strings again leaves nothing in temp_hashes |
| Merge.ReimportAddsNothing | src/database.ts:137-291 | a second import of the same strings changes no hash row, counts no new string and links nothing to the second import |
| Merge.ImportSteps | src/database.ts:137-291 | staging, the first DELETE and the merge, with the hash sequence already advanced, compose to AfterImport, and the count they compute is the number of new distinct strings |
| Merge.FindStagedFnv64 | src/database.ts:123-135 | a staged row is never found by its WD-FNV64 fingerprint in findHash as it is written, but is found when the query is encoded |
| Database.FilterChunk | src/database.ts:162-178 | the inner loop extends the deduplicated entries by exactly the chunk's entries with unseen strings, updates seenStrings, and builds their rows |
| Database.StageChunk | src/database.ts:159-183 | one pass of the chunk loop appends the chunk's new rows to temp_hashes under the next ids |
| Database.InsertTempRows | src/database.ts:183 | the batch's rows take the next values of the sequence, in order |
| Database.StageStrings | src/database.ts:156-184 | for any positive chunk size, temp_hashes ends holding the rows of the first entry of every string under consecutive ids; the sequence advances by that many, seenStrings.size is the number of distinct strings and totalSeenCount is the number of entries |
| Database.Database.MergeTempHashes | src/database.ts:200-285 | the statements from temp_duplicates to the new import's links leave the tables exactly as Merge.Merged defines them |
| Database.Database.ImportStrings | src/database.ts:137-291 | the transaction leaves the tables as AfterImport defines them, keeps them well formed with unique strings, and returns the number of distinct strings the catalog did not hold |

## Left out

- The pg-promise plumbing:
  - connecting (`init`);
  - SQL text generation;
  - `CREATE TEMP TABLE` and `ON COMMIT DELETE ROWS`;
  - `ANALYZE`;
  - logging.
  The temp tables are values inside `ImportStrings`.
- Transaction atomicity, rollback on failure and concurrent imports. `ImportStrings` is one state transition that does not fail.
- The two CRC fingerprints (src/hasher.ts:31-33): the node-crc and bigint-buffer libraries compute them. The model takes them as a parameter `Hasher.Crc` of two functions with results below 2^32 and 2^64.
- Full Unicode `toLowerCase` and `toUpperCase`: both are ASCII per-code-unit maps. JavaScript's full mapping can change a string's length.
- `imports.created_at` is a clock value and is not modelled.
- `createArchive` (src/database.ts:118-121) is a single INSERT outside the merge.
- The description-conflict TODO (src/database.ts:237) has no policy to model. A staged row's description is copied as it is.
- The `Database` constructor (src/database.ts:95-111) only configures the connection. The model's constructor builds an empty catalog instead.
- The source does not show whether deleting a placeholder cascades to its link rows. The model removes a deleted placeholder's links together with the row, and restores copies of them on the staged ids.
- `temp_duplicates` is modelled as the set of (staged id, placeholder id) pairs. The restored links are that set joined with the placeholder's links, which is what the LEFT JOINs, the `IS NOT NULL` filters and the GROUP BYs select. Rows with a null import or archive id are never materialized.
- `RequireOnlyOne` (src/utils.ts) is the datatype `Catalog.HashQuery`, which names exactly one fingerprint. findHash's result order is not modelled: the result is a map from id to decoded row.
- `src/index.ts`, `src/config.ts` and `ecosystem.config.js` are I/O, startup and configuration. They are not part of this model.
- Merge.StagedRow: stages with the corrected `Codec.ToDBBigint`. The source's strict `>` (src/database.ts:173-176, 294) leaves an fnv32 or crc32 of 2^31, or a crc64 of 2^63, unchanged. For crc64 = 2^63 the value is one past the largest int8, so the INSERT into temp_hashes (src/database.ts:183) fails and the whole transaction rolls back. For fnv32 or crc32 = 2^31 the outcome depends on the column type, which the source does not show: a 32-bit column rejects the value and the transaction rolls back; a BIGINT column (which the bigint fields of `DBHashes`, src/database.ts:29-32, and the bigint addition of src/database.ts:305 suggest) commits 2^31, which then matches no placeholder stored as -2^31. `Merge.StagedRowAsWrittenFits` states exactly which entries are affected. The model commits the corrected row instead, and models neither the rollback nor the unmatched 2^31.
- Merge.StagedRowSpec: "fits its columns" holds for the corrected encoding only. Under the written `>`, it fails for the inputs named at `Merge.StagedRow`.
- Merge.StagedRowsFit: "fits its columns" holds for the corrected encoding only, as at `Merge.StagedRowSpec`.
- Merge.RemainingSpec: the rows left in temp_hashes fit their columns because they are staged with the corrected encoding, as at `Merge.StagedRow`.
- Database.Database.ImportStrings: commits with the corrected encoding. For an entry whose crc64 is 2^63 the source's transaction fails and rolls back instead; for an entry whose fnv32 or crc32 is 2^31 it either rolls back or commits 2^31, depending on the column type (see `Merge.StagedRow`). The invariants `WellFormed` and `UniqueStrings` are proved for the corrected encoding.
- Hasher.ToReverseHexString: numbers are non-negative (`nat`) in the model, as every fingerprint is. For a negative bigint, `toHexString` would render a minus sign inside the padding (for example `000000-1`); this is not modelled, and neither is the same case in `Hasher.ToHexString`.
- Hasher.HashWDFnv64OfEmpty: stated for the empty string only, which is the example value the fingerprint is known by.
- Hasher.ReverseOfSeventeenDigitsFails: stated for the single value 2^64, as an example of a number that toReverseHexString rejects.

## Findings

| source | as written | input that shows it | evidently intended | confidence | as-written member | corrected member |
|---|---|---|---|---|---|---|
| src/database.ts:294 | `toDBBigint` wraps only values strictly greater than 2^(pow-1) | 2147483648 with pow 32, or 9223372036854775808 with pow 64: stored unchanged, one past the largest signed value of that width (for pow 64 the int8 INSERT fails; for pow 32 the outcome depends on the column type) | values of 2^(pow-1) and up are stored as value - 2^pow, so every unsigned value fits its signed column | not executed | Codec.ToDBBigintAsWritten, Codec.AsWrittenBoundary | Codec.ToDBBigint |
| src/database.ts:125-127 | `findHash` compares the caller's unsigned fingerprint directly with the signed stored column | any staged string looked up by its WD-FNV64 fingerprint: the tag makes that fingerprint at least 2^63, while the stored fnv64 is negative, so the row is not found | the query value is encoded with toDBBigint before the comparison, and the rows whose decoded fingerprint equals it are returned | not executed | Catalog.FindHashAsWritten, Merge.FindStagedFnv64 | Catalog.FindHash |
