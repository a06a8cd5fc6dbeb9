# choco core, modelled in Dafny

choco is an in-memory columnar tablet store. This project models its core in Dafny:

- **Values and schemas:**
  - the column `Type` table and the `Variant` value holder;
  - `Schema` with its name and cid lookups.
- **Error reporting:** `Status` and its encoded state array.
- **Byte strings:**
  - `Slice`: compare, prefix and suffix tests, trim, split, join;
  - the string pool's `SString` record layout, equality and ordering;
  - `MString::create`, and the copy-on-write `StringPool` with its segments.
- **The chunked hash index:** tag, home chunk, odd probe step, `find`, `add`, `set`.
- **Hashing:** the 64-bit `HashCode` mix and its stub overloads.
- **Column deltas:** the `DeltaIndex::find_idx` binary search, and `ColumnDelta::alloc`.
- **Partial rows:** the batch, its writer and its reader, which encode one partial row as:
  - a 16-bit bitmap length;
  - a set/null bitmap;
  - the values of the set, non-null columns.
- **The memtablet:**
  - the scan-spec parser;
  - `MemTabletScan` setup, keyed get and block iteration;
  - `MemTablet` versioned schemas, scan creation and commit.

Code that changes state in place is modelled that way:

- Classes have fields, `modifies` clauses and loops with invariants. This covers `Variant`, `Slice`, `StringPool`, `HashIndex`, `ColumnDelta`, the partial-row classes, `MemTabletScan` and `MemTablet`.
- Each class is proved against specification functions: `FindIn`, `SetSlot`, `EncodeRow`, `SplitSpec`, `JoinSpec`, `AllHits`/`OffsetOf` and `CommitFailure`.
- Lemmas prove what those functions promise: round-trips, uniqueness, ordering, first-failure and coverage.

Pure code is modelled as functions and lemmas.

The modules follow the source files:

| module | source |
|---|---|
| `Common` | shared helpers |
| `Types` | `type.h`/`type.cpp` |
| `Schemas` | `schema.cpp` |
| `Statuses` | `status.cpp` |
| `Slices` | `slice.h`/`slice.cpp` |
| `StringPools` | `string_pool.h`/`string_pool.cpp` |
| `HashIndexes` | `hash_index.cpp` |
| `HashCode` | `hashcode.h` |
| `ColumnDeltas` | `column_delta.cpp` |
| `RowBatches` | `partial_row_batch.cpp` |
| `TabletScans` | `mem_tablet_scan.cpp` |
| `MemTablets` | `mem_tablet.cpp` |

## Model

| member | source | states |
|---|---|---|
| Common.Padding8 | src/choco/string_pool.cpp:14 | `Padding(n, 8)` is the least multiple of 8 that is at least `n` |
| Common.NBlock | src/choco/mem_tablet_scan.cpp:59 | `NBlock(n, b)` is the least block count whose blocks hold `n` items |
| Common.LE16RoundTrip | src/choco/partial_row_batch.cpp:149 | a 16-bit length stored little-endian reads back as the same number |
| Common.LE32RoundTrip | src/choco/status.cpp:21 | a 32-bit length stored little-endian reads back as the same number |
| Common.CopyInto | src/choco/status.cpp:24 | `memcpy` into an array leaves the source bytes at the offset and every other byte unchanged |
| Types.TypeOfCode | src/choco/type.h:8-18 | the type with numeric value `n` has numeric value `n` (the enum is a bijection onto 0..8) |
| Types.Get | src/choco/type.cpp:67-85 | the table entry looked up by a type's number describes that type, and its size is the width of the type's C++ storage |
| Types.Cleared | src/choco/type.cpp:102-112 | after `clear` a string reads as empty and every other member is zeroed |
| Types.StoredReadsBack | src/choco/type.cpp:114-158 | after `reset(t, v)` on readable storage, member `t` reads back exactly `v`, the empty string included |
| Types.FloatEqualsQuirks | src/choco/type.cpp:177-180 | float `==` is not reflexive: a quiet NaN is unequal to itself, and -0.0 equals +0.0 |
| Types.ValueEqualsIsReadEquality | src/choco/type.cpp:160-187 | outside the float types, two variants are equal exactly when their types and their values read back agree |
| Types.Variant.AsWritten | src/choco/type.cpp:88-90 | the constructor as written leaves an empty-string variant with an unreadable union |
| Types.Variant.constructor | src/choco/type.cpp:88-90 | with the union zeroed first, a fresh variant holds its type and reads back its value |
| Types.Variant.Clear | src/choco/type.cpp:102-112 | `clear` keeps the type and leaves the cleared union, which stays readable |
| Types.Variant.Reset | src/choco/type.cpp:114-158 | `reset` sets the type, and the union reads back the new value |
| Types.BuiltAlikeAreEqual | src/choco/type.cpp:160-163 | variants built from the same non-float type and value are equal; variants of different types never are |
| Schemas.NameIndexIsLast | src/choco/schema.cpp:11-15 | a name is in the name map iff some column has it, and then the map points at the last such column |
| Schemas.CidIndexIsLast | src/choco/schema.cpp:11-15 | a cid is in the cid map iff some column has it, and then the map points at the last such column |
| Schemas.MaxCidIsMax | src/choco/schema.cpp:8-14 | the running maximum bounds every cid and is one of them (or 0 when there are none) |
| Schemas.GuardAsWrittenIsInverted | src/choco/schema.cpp:7 | the key-count guard as written accepts exactly the counts the intended guard refuses; one key column out of two aborts |
| Schemas.Schema.constructor | src/choco/schema.cpp:6-17 | the built schema keeps the columns and key count, and its maps and next cid agree with the columns |
| Schemas.Schema.KeyColumns | src/choco/schema.h:52 | under the intended guard, the key columns are a prefix of the columns, `num_key_column` long |
| Schemas.Schema.NextCid | src/choco/schema.cpp:16-21 | `next_cid()` is one past the largest cid, wrapping to 0 when that cid is 2^32-1 |
| Schemas.Schema.GetByName | src/choco/schema.cpp:23-30 | the lookup is empty iff no column has the name; otherwise it returns a column of the schema with that name |
| Schemas.Schema.GetByCid | src/choco/schema.cpp:32-39 | the lookup is empty iff no column has the cid; otherwise it returns a column of the schema with that cid |
| Statuses.CodeFromByte | src/choco/status.h:104-106 | the code read from byte 4 is the code whose number it is |
| Statuses.CodeRoundTrip | src/choco/status.cpp:22 | a code stored in byte 4 reads back unchanged |
| Statuses.FromPosix16 | src/choco/status.cpp:99-101 | the `int16_t` read back from two bytes is the one whose two's-complement pattern they hold |
| Statuses.PosixRoundTrip | src/choco/status.cpp:23 | a POSIX code stored in bytes 5..7 reads back unchanged |
| Statuses.CodeOf | src/choco/status.h:104-106 | a status without state reports `kOk` |
| Statuses.Message | src/choco/status.cpp:85-93 | OK has an empty message; a failure's message is as long as the stored length |
| Statuses.PosixCode | src/choco/status.cpp:95-102 | the POSIX code is a 16-bit value, 0 for OK |
| Statuses.Make | src/choco/status.cpp:14-31 | the constructor builds a failure that reports its code, POSIX code and `msg: msg2` message, for every message whose stored size fits in 32 bits |
| Statuses.MessageWrittenParts | src/choco/status.cpp:24-29 | the message writes keep the header and leave the full message after it |
| Statuses.WriteMessage | src/choco/status.cpp:24-29 | after the writes, bytes 7.. hold `msg`, and then `": "` and `msg2` when `msg2` is non-empty |
| Statuses.HeaderDecodes | src/choco/status.cpp:17-23 | a state whose header holds size, code and POSIX code decodes to them, with the message after the header |
| Statuses.WriteHeader | src/choco/status.cpp:21-23 | the seven header bytes hold the length, the code and the POSIX code |
| Statuses.OkStatus | src/choco/status.h:33 | `OK()` reports `kOk`, an empty message and POSIX code 0 |
| Statuses.NotFoundStatus | src/choco/status.h:35-38 | `NotFound` reports its code, message and POSIX code, and prints as "Not found: msg", followed by " (error N)" when the POSIX code N is not -1 |
| Statuses.NotSupportedStatus | src/choco/status.h:40-43 | `NotSupported` reports its code, message and POSIX code, and prints as "Not implemented: msg", followed by " (error N)" when the POSIX code N is not -1 |
| Statuses.InvalidArgumentStatus | src/choco/status.h:45-48 | `InvalidArgument` reports its code, message and POSIX code, and prints as "Invalid argument: msg", followed by " (error N)" when the POSIX code N is not -1 |
| Statuses.IOErrorStatus | src/choco/status.h:55-58 | `IOError` reports its code, message and POSIX code, and prints as "IO error: msg", followed by " (error N)" when the POSIX code N is not -1 |
| Statuses.OOMStatus | src/choco/status.h:50-53 | `OOM` builds an `IOError` status, never one with code `kOOM`, and prints as "IO error: msg", with " (error N)" when the POSIX code N is not -1 |
| Statuses.Digits | src/choco/status.cpp:79 | `%d` prints only decimal digits |
| Statuses.DigitsRoundTrip | src/choco/status.cpp:79 | the digits printed for `n` denote `n` |
| Statuses.DecimalRoundTrip | src/choco/status.cpp:79 | the `%d` text of any code, negative ones with their minus sign, denotes that code |
| Statuses.ErrorNote | src/choco/status.cpp:77-81 | the note is `" (error "`, the `%d` text of the POSIX code, and `")"` |
| Statuses.ToString | src/choco/status.cpp:67-83 | an OK status prints as "OK"; a failure prints as its code name, `": "` and its message, with an error note appended exactly when the POSIX code is not -1 |
| Statuses.CopyState | src/choco/status.cpp:6-12 | the copy is `size + 7` bytes long |
| Statuses.CopyIsIdentical | src/choco/status.h:111-114 | a copied status has the same state, so the same code, message and POSIX code |
| Slices.MemCompare | src/choco/slice.h:174-176 | the sign of `memcmp` is 0 iff the first `n` bytes agree |
| Slices.CompareIsLexicographic | src/choco/slice.h:121-129 | `compare` is negative, zero or positive exactly when the bytes are lexicographically less, equal or greater |
| Slices.CompareAntisymmetric | src/choco/slice.h:121-129 | swapping the operands of `compare` negates it |
| Slices.LexLessTransitive | src/choco/slice.h:113-120 | lexicographic order on bytes is transitive |
| Slices.ComparatorIsStrictOrder | src/choco/slice.h:141-152 | `Slice::Comparator` is a strict total order: irreflexive, transitive, asymmetric and total on distinct slices |
| Slices.StartsWithView | src/choco/slice.h:135-138 | `starts_with(x)` iff `x` is a prefix |
| Slices.StartsWith | src/choco/slice.cpp:7-9 | `startsWith(x)` iff `x` is a prefix, the empty prefix included |
| Slices.EndsWithAsWrittenOnlyEmpty | src/choco/slice.cpp:11-13 | `endsWith` as written holds only for the empty suffix |
| Slices.EndsWithAsWrittenMissesSuffix | src/choco/slice.cpp:11-13 | "ab" ends with "b", but `endsWith` as written says it does not |
| Slices.EndsWith | src/choco/slice.cpp:11-13 | the intended `endsWith(x)` holds iff `x` is a suffix |
| Slices.Equal | src/choco/slice.h:183-186 | slice `==` is byte-sequence equality |
| Slices.NotEqual | src/choco/slice.h:188-190 | slice `!=` is byte-sequence inequality |
| Slices.Slice.constructor | src/choco/slice.h:22 | a new slice refers to exactly the given bytes |
| Slices.Slice.Empty | src/choco/slice.h:60 | `empty()` iff the slice refers to no bytes |
| Slices.Slice.Clear | src/choco/slice.h:73-76 | after `clear()` the slice is empty |
| Slices.Slice.RemovePrefix | src/choco/slice.h:87-91 | `remove_prefix(n)` drops the first `n` bytes and leaves the memory untouched |
| Slices.Slice.Truncate | src/choco/slice.h:102-105 | `truncate(n)` keeps the first `n` bytes and leaves the memory untouched |
| Slices.LeadingSpacesSpec | src/choco/slice.cpp:25-31 | the leading run is all whitespace and is followed by a non-space byte (or the end) |
| Slices.TrailingSpacesSpec | src/choco/slice.cpp:32-37 | the trailing run is all whitespace and is preceded by a non-space byte (or the start) |
| Slices.TrimmedShape | src/choco/slice.cpp:23-39 | for an input holding a non-space byte, the trimmed slice is the input with its leading and trailing whitespace removed, and it begins and ends with a non-space byte |
| Slices.TrimmedAllSpace | src/choco/slice.cpp:23-39 | a slice made only of whitespace (the empty one included) comes back unchanged, because neither loop finds a byte to stop at |
| Slices.TrimmedIdempotent | src/choco/slice.cpp:23-39 | trimming twice gives the same result as trimming once |
| Slices.Trim | src/choco/slice.cpp:23-39 | the two loops of `trim()` produce the trimmed window of the input, which is the whole input when it is only whitespace |
| Slices.FirstSepIsFirst | src/choco/slice.cpp:45-46 | the separator search stops at the first separator and at no earlier byte |
| Slices.SignedChar | src/choco/slice.cpp:44 | the `char` separator promotes to a value in -128..127, which equals the separator's byte value exactly when it is below 0x80 |
| Slices.ByteMeetsChar | src/choco/slice.cpp:44 | `data_[i] == sep` on the promoted values holds exactly when the separator is below 0x80 and the byte equals it |
| Slices.Split | src/choco/slice.cpp:42-70 | `split(sep, trim)` returns the separator-delimited fields; with `trim` each field is trimmed and kept iff the result is non-empty, so empty fields are dropped while a whitespace-only field comes back unchanged and is kept; a separator of 0x80 or above never matches the promoted byte, so the whole input is the one field |
| Slices.Emit | src/choco/slice.cpp:48-55 | one field is pushed as is, or trimmed and only when non-empty |
| Slices.CutAt | src/choco/slice.cpp:44-56 | at a separator, the piece since the last one is emitted, and the pieces emitted so far followed by the fields of the rest are the fields of the whole input |
| Slices.Finish | src/choco/slice.cpp:58-66 | after the loop, emitting the rest of the input completes the result of `split`, for low and high separators alike |
| Slices.FieldsCount | src/choco/slice.cpp:42-70 | the untrimmed split has one more field than there are separators |
| Slices.FieldsHaveNoSeparator | src/choco/slice.cpp:42-70 | no field contains the separator |
| Slices.TrimAndDropPieces | src/choco/slice.cpp:48-53 | every field kept by a trimming split is non-empty and left unchanged by `trim` (a whitespace-only field among them) |
| Slices.JoinLength | src/choco/slice.cpp:77-80 | the joined length is the total length plus one separator between consecutive parts |
| Slices.Join | src/choco/slice.cpp:72-89 | `join` concatenates the parts with the separator between them, at the size it reserves |
| Slices.JoinFields | src/choco/slice.cpp:42-89 | joining the untrimmed split with its separator gives back the input |
| StringPools.Record | src/choco/string_pool.h:12-20 | a record is 8-byte padded and large enough for a 2-byte length and the content |
| StringPools.RecordReadsBack | src/choco/string_pool.h:16-24 | a record is well formed and reads back the string's length and bytes |
| StringPools.WordsEqualFromIff | src/choco/string_pool.h:26-41 | the word loop of `operator==` agrees exactly when the images agree from that word on |
| StringPools.EqualIsSame | src/choco/string_pool.h:26-41 | `SString ==` holds exactly when the two images are identical |
| StringPools.EqualIff | src/choco/string_pool.h:26-41 | `SString ==` holds iff the lengths and contents agree |
| StringPools.CmpIsCompare | src/choco/string_pool.h:65-75 | `cmp` equals `Slice::compare` of the two strings' bytes |
| StringPools.LessIsLexicographic | src/choco/string_pool.h:43-63 | `<` is lexicographic order on the contents, and `>=` is its negation |
| StringPools.CmpZeroIffEqual | src/choco/string_pool.h:65-75 | `cmp` is 0 iff the strings are `==` |
| StringPools.PrefixIsLess | src/choco/string_pool.h:43-45 | a proper prefix sorts before the longer string |
| StringPools.CreateMStringAsWritten | src/choco/string_pool.cpp:9-23 | `MString::create` as written: the shared empty record for "", else the image built by its three writes in order |
| StringPools.ShortMStringLosesLength | src/choco/string_pool.cpp:19-20 | for a string of at most 6 bytes, zeroing the last word after storing the length erases the length |
| StringPools.CreatedIsRecord | src/choco/string_pool.cpp:14-21 | with the last word zeroed before the length is stored, the image is exactly the string's record |
| StringPools.CreateMString | src/choco/string_pool.cpp:9-23 | the corrected `create` returns a well-formed record of the string's length and bytes |
| StringPools.LocOf | src/choco/string_pool.cpp:67-70 | a sid's segment and 8-aligned offset together give back `sid * 8`, computed without the 32-bit wrap (the corrected `get`, see Findings) |
| StringPools.LocAsWrittenIff | src/choco/string_pool.cpp:67-70 | for every 32-bit sid, the 32-bit product of `get` as written finds the sid's place exactly when the sid is below 2^29, the first 4096 segments |
| StringPools.GetAsWrittenWraps | src/choco/string_pool.cpp:67 | the string at the start of segment 4096 has sid 2^29, which `get` as written locates at the start of segment 0 |
| StringPools.HoldsAfterAppend | src/choco/string_pool.cpp:107-119 | appending a record at the cursor keeps every earlier string readable and makes the new sid read back the new string through the corrected `get` |
| StringPools.StringPool.Create | src/choco/string_pool.cpp:47-59 | a new pool has one segment, capacity 8, the cursor at 16, and the empty string under id 1 |
| StringPools.StringPool.Get | src/choco/string_pool.cpp:63-72 | `get(0)` is null; any other sid locates segment and offset with `seg * kSegmentSize + off == sid * 8` |
| StringPools.StringPool.GetReadsBack | src/choco/string_pool.cpp:63-72 | every added string reads back through the corrected `get` with its length and bytes |
| StringPools.StringPool.Expand | src/choco/string_pool.cpp:122-141 | the copy-on-write pool shares the segments and cursor (assignment as sharing, see Left out), has the grown capacity, and holds the same strings |
| StringPools.StringPool.AddSegment | src/choco/string_pool.cpp:74-83 | a fresh segment is appended, and the cursor moves to its start |
| StringPools.StringPool.AddUnsafe | src/choco/string_pool.cpp:107-120 | the string is stored at the cursor, its sid is the cursor / 8, and only the cursor moves |
| StringPools.WriteImage | src/choco/string_pool.cpp:111-117 | the segment receives the zeroed last word, the length and the bytes at the cursor |
| StringPools.Add | src/choco/string_pool.cpp:87-104 | "" gets the empty id; otherwise a new sid maps to the string, possibly in a copy-on-write pool, and older strings keep their ids |
| StringPools.AddNullable | src/choco/string_pool.h:131-137 | a null slice gets the null id; otherwise as `add` |
| HashIndexes.Tag | src/choco/hash_index.cpp:71-74 | the tag is the low byte of the hash, with 0 replaced by 1 |
| HashIndexes.Step | src/choco/hash_index.cpp:91 | the probe step is odd |
| HashIndexes.ProbeClosed | src/choco/hash_index.cpp:75-95 | the j-th probe is `home + j * step` modulo the chunk count |
| HashIndexes.FullPeriod | src/choco/hash_index.cpp:90-95 | the first n probes are distinct and the n-th returns home |
| HashIndexes.ProbeVisitsAll | src/choco/hash_index.cpp:90-95 | with a power-of-two chunk count and an odd step, the probe visits every chunk |
| HashIndexes.BackHome | src/choco/hash_index.cpp:93-95 | the probe returns to its start exactly after n steps, so `NOSLOT` means every chunk was seen |
| HashIndexes.FindNoSlotIffFull | src/choco/hash_index.cpp:69-100 | `find` returns `NOSLOT` iff every chunk is full |
| HashIndexes.MatchesExactly | src/choco/hash_index.cpp:81-89 | a chunk yields exactly its used slots whose tag matches, with their values |
| HashIndexes.InsertIsFound | src/choco/hash_index.cpp:102-117 | setting the slot `find` returned makes a later `find` report that entry |
| HashIndexes.OverwriteIsFound | src/choco/hash_index.cpp:102-117 | overwriting a found slot makes a later `find` report the new value |
| HashIndexes.AddedGrows | src/choco/hash_index.cpp:119-144 | `add` raises the fill by one and keeps every used slot |
| HashIndexes.AddAllFinds | src/choco/hash_index.cpp:119-144 | after adding keys below capacity, `find` on each key's hash reports its value |
| HashIndexes.MinChunks | src/choco/hash_index.cpp:37 | the minimum chunk count leaves 14/12 of the requested capacity |
| HashIndexes.HashIndex.constructor | src/choco/hash_index.cpp:33-52 | an empty index with a power-of-two chunk count of at least the minimum, all chunks zeroed |
| HashIndexes.HashIndex.Capacity | src/choco/hash_index.cpp:65-67 | the capacity bounds the size and the maximum size |
| HashIndexes.HashIndex.NeedRehash | src/choco/hash_index.cpp:38-40 | `need_rehash()` iff the size reached the maximum; below it every hash has a free slot |
| HashIndexes.HashIndex.Find | src/choco/hash_index.cpp:69-100 | `find` returns the slot and appends the candidate entries of the probe specification |
| HashIndexes.HashIndex.Add | src/choco/hash_index.cpp:119-144 | `add` succeeds iff a slot exists, stores into the first chunk with room, and counts the entry |
| HashIndexes.HashIndex.FirstWithRoom | src/choco/hash_index.cpp:127-143 | the probe loop of `add` stops at the chunk `find` would return, or reports none |
| HashIndexes.HashIndex.Set | src/choco/hash_index.cpp:102-117 | `set` writes tag and value at the slot and grows the chunk only when the slot is its next free one |
| HashIndexes.CollectMatches | src/choco/hash_index.cpp:84-89 | the mask loop appends the chunk's matching entries in slot order |
| HashCode.HashCodeIsProducts | src/choco/hashcode.h:8-18 | each shift-and-add step of the 64-bit mix equals the multiplication its comment names, modulo 2^64 |
| HashCode.ComplementIsNegation | src/choco/hashcode.h:10 | `~key` is `-key - 1` modulo 2^64 |
| HashCode.StubOverloadsCollide | src/choco/hashcode.h:20-28 | the 128-bit and slice overloads hash every key to 0 |
| ColumnDeltas.LowerBound | src/choco/column_delta.cpp:26 | `lower_bound` splits the range into values below `x` and values at least `x` |
| ColumnDeltas.FindIdx | src/choco/column_delta.cpp:9-32 | a found index lies in the row's block and holds the row's in-block offset |
| ColumnDeltas.FindIdxIffUpdated | src/choco/column_delta.cpp:9-32 | `find_idx` finds a position iff the row is listed in its block |
| ColumnDeltas.FindIdxFindsListed | src/choco/column_delta.cpp:9-32 | a row listed at position k is found at k |
| ColumnDeltas.BuildIndex | src/choco/column_delta_test.cpp:26-42 | filling block ends and offsets from ascending updates yields their index |
| ColumnDeltas.IndexOfFindsUpdates | src/choco/column_delta_test.cpp:43-52 | on that index, every updated row is found at its position and every other row gives `npos` |
| ColumnDeltas.FreshIndexFindsNothing | src/choco/column_delta.cpp:45 | a freshly allocated index finds no row |
| ColumnDeltas.ZeroedBuffer | src/choco/column_delta.cpp:50-62 | an allocated, zeroed buffer is all zeros, and there is none for 0 bytes |
| ColumnDeltas.ColumnDelta.Alloc | src/choco/column_delta.cpp:40-66 | `alloc` creates an index with zero block ends (assignment as installing it, see Left out), an offsets buffer whose contents are not set, data and (when asked) null buffers, and sets the size |
| ColumnDeltas.CreateForCompaction | src/choco/column_delta.cpp:69-72 | `create_for_compaction` is not supported |
| RowBatches.SetThenTest | src/choco/partial_row_batch.cpp:156-164 | after setting bit i, bit j is set iff j is i or was already set |
| RowBatches.FirstSet | src/choco/partial_row_batch.cpp:218 | the first set bit from `from` below `size`, with none set before it; none iff no bit in range is set |
| RowBatches.LayoutCid | src/choco/partial_row_batch.cpp:220 | the cid layout has a column at `cid` iff some column has that cid |
| RowBatches.EncodedLength | src/choco/partial_row_batch.cpp:127-142 | the encoded row is exactly `byte_size()` long |
| RowBatches.RowBits | src/choco/partial_row_batch.cpp:153-167 | bit t of the bitmap is set iff cell t is set; a nullable cell's null bit is set iff it holds null |
| RowBatches.SetColumnsSpec | src/choco/partial_row_batch.cpp:218-246 | the set columns are listed in ascending cid order with their data, and every set column is listed |
| RowBatches.PartialRowBatch.constructor | src/choco/partial_row_batch.cpp:7-17 | a new batch is empty with the given capacities |
| RowBatches.PartialRowBatch.GetRow | src/choco/partial_row_batch.cpp:30-36 | `get_row` is null iff the index is past the rows; otherwise the row's encoding starts there |
| RowBatches.AppendKeepsStored | src/choco/partial_row_batch.cpp:65-70 | appending a row keeps every earlier row stored and stores the new one at the old end |
| RowBatches.WriteCell | src/choco/partial_row_batch.cpp:159-186 | one step of `write` adds the cell's bits and value bytes |
| RowBatches.WriteBits | src/choco/partial_row_batch.cpp:160-167 | the bitmap after a step is the specification bitmap over one more cell |
| RowBatches.WriteValue | src/choco/partial_row_batch.cpp:168-182 | the value bytes after a step are the specification bytes over one more cell |
| RowBatches.CheckKey | src/choco/partial_row_batch.cpp:183-185 | an unset key column makes the row miss a key |
| RowBatches.VisitCells | src/choco/partial_row_batch.cpp:154-187 | the loop either finds a missing key or builds the whole bitmap and values |
| RowBatches.WriteCells | src/choco/partial_row_batch.cpp:144-188 | `write` produces exactly the row encoding, or its error |
| RowBatches.PartialRowWriter.constructor | src/choco/partial_row_batch.cpp:40-46 | the writer starts with `cid_size()` unset cells |
| RowBatches.PartialRowWriter.StartRow | src/choco/partial_row_batch.cpp:52-55 | `start_row` unsets every cell |
| RowBatches.PartialRowWriter.SetColumn | src/choco/partial_row_batch.cpp:104-119 | a value is accepted iff it fits the column; an accepted value sets just that cell |
| RowBatches.PartialRowWriter.SetByCid | src/choco/partial_row_batch.cpp:99-120 | `NotFound` iff there is no column with the cid; otherwise as `SetColumn` |
| RowBatches.PartialRowWriter.SetByName | src/choco/partial_row_batch.cpp:75-97 | `NotFound` iff there is no column with the name; otherwise as `SetColumn` |
| RowBatches.PartialRowWriter.SetDelete | src/choco/partial_row_batch.cpp:122-125 | `set_delete` sets cell 0 and nothing else |
| RowBatches.PartialRowWriter.EndRow | src/choco/partial_row_batch.cpp:57-72 | over row or byte capacity gives `InvalidArgument`; otherwise the row is appended iff `write` succeeds, and a failed row leaves the batch's used bytes alone |
| RowBatches.PartialRowWriter.ByteSize | src/choco/partial_row_batch.cpp:127-142 | `byte_size()` is the specification row size |
| RowBatches.PartialRowWriter.PieceOf | src/choco/partial_row_batch.cpp:168-182 | the bytes of one cell's value |
| RowBatches.PartialRowWriter.Write | src/choco/partial_row_batch.cpp:144-188 | `write` yields the row encoding of the current cells |
| RowBatches.StoredString | src/choco/partial_row_batch.cpp:237-239 | a stored string reads back its 16-bit length and bytes |
| RowBatches.ReadNull | src/choco/partial_row_batch.cpp:222-233 | a cell reads as null iff it was written as null |
| RowBatches.ReadValue | src/choco/partial_row_batch.cpp:234-244 | the value at the cursor is the cell's stored value, and the cursor moves past it |
| RowBatches.ReadColumns | src/choco/partial_row_batch.cpp:217-246 | the reader's cells are views of exactly the set columns, in cid order |
| RowBatches.ReadCells | src/choco/partial_row_batch.cpp:207-246 | the delete flag is bit 0, and the cells are views of the set columns |
| RowBatches.PartialRowReader.constructor | src/choco/partial_row_batch.cpp:192-198 | a new reader is not deleted and holds no cells |
| RowBatches.PartialRowReader.Read | src/choco/partial_row_batch.cpp:200-248 | `InvalidArgument` iff the row does not exist; otherwise the delete flag and cells are those the writer recorded |
| RowBatches.PartialRowReader.GetCell | src/choco/partial_row_batch.cpp:251-259 | `InvalidArgument` iff the index is past the cells; otherwise the column schema of the cell's cid and its data |
| TabletScans.CreateScanSpec | src/choco/mem_tablet_scan.cpp:8-23 | fails with `InvalidArgument` iff the split is empty; otherwise one projected column per field of the trimming split, a whitespace-only field giving a column of that name, limit 2^64-1 |
| TabletScans.SplitEmptyIffOnlySeparators | src/choco/mem_tablet_scan.cpp:10-13 | a trimming split is empty iff the input holds only separators |
| TabletScans.ScanSpecColumns | src/choco/mem_tablet_scan.cpp:10-20 | the spec is rejected iff the string is all commas; every column name is non-empty, comma-free and left unchanged by `trim`, so a whitespace-only name such as `" "` is accepted |
| TabletScans.BlockRows | src/choco/mem_tablet_scan.cpp:111-112 | every block has 1..BLOCK_SIZE rows, and every block but the last is full |
| TabletScans.RowsBeforeIsPrefix | src/choco/mem_tablet_scan.cpp:111-112 | the first k blocks hold `min(k * BLOCK_SIZE, n)` rows |
| TabletScans.BlocksCoverRows | src/choco/mem_tablet_scan.cpp:57-60 | the blocks together hold exactly the scan's rows |
| TabletScans.HitsAreMatches | src/choco/mem_tablet_scan.cpp:76-87 | a candidate is kept iff it is a current row that equals the key |
| TabletScans.AllHitsPrefix | src/choco/mem_tablet_scan.cpp:71-91 | the rids of earlier keys are a prefix of those of later keys |
| TabletScans.OffsetPointsAtHit | src/choco/mem_tablet_scan.cpp:71-91 | a key's offset is -1 iff no current candidate equals it; otherwise it indexes a matching current rid |
| TabletScans.OffsetsIncrease | src/choco/mem_tablet_scan.cpp:84 | found keys have strictly increasing offsets |
| TabletScans.OffsetsConsecutive | src/choco/mem_tablet_scan.cpp:84 | with at most one match per key, the offsets number the found keys 0, 1, 2, ... |
| TabletScans.FirstError | src/choco/mem_tablet_scan.cpp:100-103 | the result is OK iff every step is; otherwise it is the first failing step's code |
| TabletScans.FirstErrorAt | src/choco/mem_tablet_scan.cpp:114-116 | the first failure decides the result |
| TabletScans.MemTabletScan.constructor | src/choco/mem_tablet_scan.h:59-61 | a new scan holds its schema, spec and sub-tablet, and nothing is set up |
| TabletScans.MemTabletScan.Setup | src/choco/mem_tablet_scan.cpp:29-55 | a size failure is returned; a missing column fails; on success one reader per column (its cid), key readers for cids 1..k, and a full scan at block 0 |
| TabletScans.MemTabletScan.SetupFullScan | src/choco/mem_tablet_scan.cpp:57-60 | the scan restarts at block 0 of `NBlock(num_rows, BLOCK_SIZE)` |
| TabletScans.MemTabletScan.NextScanBlock | src/choco/mem_tablet_scan.cpp:106-120 | past the end: OK and no block; otherwise the block's row count, the first reader failure with the caller's block pointer left as it was, and on success the block and an advance |
| TabletScans.MemTabletScan.Get | src/choco/mem_tablet_scan.cpp:63-93 | the rids are the current, equal candidates of every key in order, each offset is as specified, and the status is that of fetching the rids |
| TabletScans.MemTabletScan.GetOne | src/choco/mem_tablet_scan.cpp:72-90 | one key's candidates append its hits, and its offset points at its last hit |
| TabletScans.MemTabletScan.SetupGetByRids | src/choco/mem_tablet_scan.cpp:99-104 | the status is the first reader failure over the rids |
| TabletScans.MemTabletScan.GetByTwoColumns | src/choco/mem_tablet_scan.cpp:95-97 | a get by a two-column key is not supported |
| MemTablets.CoversIsLatest | src/choco/mem_tablet.cpp:44-52 | the version found is the last one at or below the requested version |
| MemTablets.RowFailureIsFirst | src/choco/mem_tablet.cpp:84-87 | applying a batch is OK iff every row is; otherwise it reports the first failing row |
| MemTablets.CommitFailureIsFirst | src/choco/mem_tablet.cpp:81-88 | applying all batches is OK iff every row of every batch is; otherwise the first failure in (batch, row) order |
| MemTablets.MemTablet.Create | src/choco/mem_tablet.cpp:11-22 | a new tablet has the one schema at version 0 |
| MemTablets.MemTablet.LatestSchema | src/choco/mem_tablet.cpp:32-36 | the latest schema is the last version's |
| MemTablets.MemTablet.GetSchema | src/choco/mem_tablet.cpp:38-53 | -1 gives the latest; null iff the first version is newer; otherwise the schema of the covering version |
| MemTablets.MemTablet.Scan | src/choco/mem_tablet.cpp:56-68 | `NotFound` when the version predates the tablet; on success a fresh scan, set up over the covering schema |
| MemTablets.MemTablet.Commit | src/choco/mem_tablet.cpp:79-90 | the first apply failure is returned; otherwise the result of `commit_write(version)` |
| MemTablets.ApplyAll | src/choco/mem_tablet.cpp:81-88 | the batch loop reports the first failure over all batches |
| MemTablets.ApplyRows | src/choco/mem_tablet.cpp:82-87 | a reader over one batch reports its first failing row |
| MemTablets.ApplyBatch | src/choco/mem_tablet.cpp:84-87 | the row loop reports the first failure |
| MemTablets.ReadAndApply | src/choco/mem_tablet.cpp:85-86 | reading an existing row succeeds, so the step's status is that of applying it |

## Left out

- Memory allocation failure is not modelled. Allocation always succeeds, so the OOM paths never happen:
  - `aligned_malloc` returning null in `MString::create`, `PoolSegment::init`, `HashIndex`, `PartialRowBatch` and `Buffer::alloc`;
  - the `OOM` returns of `ColumnDelta::alloc`.
- Concurrency is not modelled. The mutex of `MemTablet` is dropped, and all calls are sequential.
- Debug printing and statistics are not modelled: `TypeInfo::print` and the `Print*` functions, `HashIndex::dump`, `clear_stats` and the `_n*` counters, and `DLOG`.
- Floating point is modelled on bit patterns. Float equality is IEEE equality on those patterns: NaN is unequal, and the two zeros are equal.
- `Types.Variant`: the `Variant(const string&)` and `Variant(const char*, size_t)` constructors are not modelled. They leave `_type` uninitialised.
- `Types.Variant`: the copy constructor, the destructor and the freeing of owned string memory are not modelled. Strings are owned values.
- `Types.Get`: an out-of-range type is fatal in the source, so the model requires a code in 0..8.
- `HashIndexes.HashIndex.Find`: the SSE tag comparison is modelled as a scan of the 12 tags in slot order, which yields the same entries in the same order.
- `HashIndexes`: the `& _chunk_mask` is modelled as `% numChunks`. The two agree because the chunk count is a power of two.
- `HashIndexes`: the source has no explicit bound on the chunk count; the model's `MAX_CHUNKS` (2^28) keeps slot numbers within 32 bits.
- `HashIndexes.HashIndex.Set`: the source writes any slot it is given; the model requires one `find` can return (an occupied slot or the chunk's next free one), the only slots its callers pass.
- `HashIndexes.HashIndex.Find`: `find` and `add` on an index with zero chunks are excluded by `requires`. The source masks with 0 and dereferences a null chunk array.
- `StringPools.Add`: the pool is bounded to fewer than 2^15 segments, so that the sid `add_unsafe` computes, the record's byte position divided by 8, fits in its `uint32_t`. Past 4096 segments the sid still fits, but `sid * 8` in `get` does not; see the next lines.
- `StringPools.StringPool.Get`: modelled with `sid * 8` computed in 64 bits, the corrected form listed under Findings. The source's 32-bit product wraps for every sid of 2^29 or more; `LocAsWritten` models that, and `LocAsWrittenIff` says where the two agree.
- `StringPools.StringPool.GetReadsBack`: the round trip is through the corrected `get`. With `get` as written it holds only for strings in the first 4096 segments (`LocAsWrittenIff`).
- `StringPools.HoldsAfterAppend`: "reads back" is through the corrected `get`; with `get` as written a string appended in segment 4096 or later is not found.
- `StringPools.Add`: older and new strings read back through the corrected `get`, as for `GetReadsBack`.
- `StringPools.AddNullable`: as for `StringPools.Add`.
- `StringPools.StringPool.Expand`: `RefPtr` assignment is modelled as sharing the object. `RefPtr::operator=` in `common.h` (lines 236-240) swaps a temporary with itself and leaves the target unchanged, so as written the copy's segment pointers stay null; the model gives the copy the original segments, as the copy-on-write design intends. `RefPtr::create` is not defined in the files modelled either.
- `ColumnDeltas.ColumnDelta.Alloc`: `_index = RefPtr<DeltaIndex>::create()` is modelled as installing a fresh index. As written the assignment leaves `_index` null (same `RefPtr::operator=`), and the next line dereferences it.
- `StringPools.Less`: the `len > rhs.len` branch of `operator<` is not modelled. It runs `memcmp` past the end of the shorter right-hand string, so its ordering predicates require the left-hand length to be at most the right-hand one.
- `StringPools.Cmp`: the third branch of `cmp` (string_pool.h:70-73) over-reads the same way, so `Cmp`, `CmpIsCompare`, `LessIsLexicographic` and `CmpZeroIffEqual` carry the same requirement that the left-hand length is at most the right-hand one.
- `Slices.MemCompare`: `memcmp` is modelled by its sign (-1, 0 or 1), not by its magnitude.
- `Slices.Trim`: `isspace` is the C locale's set (space, `\t`, `\n`, `\v`, `\f`, `\r`).
- `StringPools.CreateMStringAsWritten`: the memory `aligned_malloc` returns is not initialised, so its contents are a `garbage` parameter.
- The definitions of `Padding` and `NBlock` are not part of this model. They are modelled as rounding up to a multiple of 8, and as the ceiling of `n / b`.
- The bitmap helpers' header is not part of this model. `BitmapSet`, `BitmapTest` and `BitmapFindFirstSet` are modelled as LSB-first bits within each byte.
- `Schemas.Schema`: `cid_size()` is declared but not defined in the files modelled. The model takes it as the largest cid plus one, which is what the writer and reader need for their bit positions.
- `schema.h` keeps `_cid_to_col` as a vector and declares `_cid_size`, while `schema.cpp` indexes the cid table like a map and never sets the size. The model follows `schema.cpp`: the cid index is a map.
- `partial_row_batch.h` declares a writer constructor taking a `Schema` and a `write_row_to_batch`, while `partial_row_batch.cpp` constructs the writer from a batch and writes through `end_row`. The model follows the `.cpp`.
- `column_delta.h` declares `init` and `create_for_undo`, while `column_delta.cpp` defines `alloc`, `create_for_compaction` and `memory()`. The model follows the `.cpp`.
- `mem_tablet_scan.h` declares a three-argument `ScanSpec` constructor, while `mem_tablet_scan.cpp` calls a four-argument one with `support_get`. The model follows the `.cpp`.
- `RowBatches`: the model requires cids that are unique and at least 1, and a cell value of the right shape for its column (`ValueShaped`). Cid 0 is the delete bit.
- `RowBatches.PartialRowBatch`: the batch refers to the schema rather than copying it. No operation changes a schema.
- `RowBatches.PartialRowBatch`: row offsets are naturals, so their truncation to `uint32_t` is not modelled. The stored 32-bit row length is written out modulo 2^32.
- `RowBatches.Stored`: the `uint16_t` cast of a string length is written out as `% 65536`. `set` has already refused strings longer than 65535 bytes, so the cast never truncates.
- `RowBatches.WriteCells`: `write` is modelled as assembling the row's bytes, which `EndRow` then copies into the batch buffer.
- `RowBatches.PartialRowWriter.EndRow`: when `write` fails, the source has already stored the row length and part of the row past `_bsize`. The model promises only that the bytes in use (`data[..bsize]`) are unchanged.
- `RowBatches.PartialRowReader.Read`: the reader decodes from the bytes in use (`data[..bsize]`).
- `RowBatches.PartialRowReader.GetCell`: a cell's data is modelled as the offset of its value (or none for null), not a pointer.
- `TabletScans.SubTablet`: `MemSubTablet::get_size`, `read_column`, `read_index`, `get_block` and `get_by_rids` have no body in this repository. They are parameters: a `SubTablet` record of functions from arguments to status codes.
- `TabletScans.MemTabletScan.Get`: key hashing and equality are the parameters `lookup` and `equals`.
- `TabletScans.MemTabletScan`: the contents of the row block's columns are not modelled. Only its row count and the reader statuses are.
- `TabletScans.MemTabletScan.Get`: `GetResult` is not defined in the files modelled, so its offsets are a `seq<int>` in which -1 marks a missing key.
- `MemTablets.MemTablet.Commit`: `begin_write` is not modelled. `apply_partial_row` and `commit_write` are parameters, since they have no body in this repository.
- `MemTablets.MemTablet.Create`: `MemSubTablet::create` always succeeds in the source, so the model's `Create` always returns OK.
- `MemTablets.MemTablet`: `load`, `create_writetx`, `prepare_writetx` and the writer stubs are not modelled. They do nothing but return OK.
- `MemTablets.MemTablet.GetSchema`: the `uint64_t` version -1 is modelled as `UINT64_MAX`.
- `Statuses.Digits`: only the digits of `snprintf("%d")` are modelled, not the rest of its formatting.
- `Statuses.Make`: messages whose stored size reaches 2^32 are excluded. The source truncates `msg.size()`, `msg2.size()` and their sum to `uint32_t`: it then keeps a prefix of the message, or, when only the sum wraps, copies past the allocation. The same requirement is on `NotFoundStatus`, `NotSupportedStatus`, `InvalidArgumentStatus`, `IOErrorStatus` and `OOMStatus`.
- `Slices.Split`: `char` is taken to be signed, as on the x86 target the index's SSE code assumes; with an unsigned `char` a separator of 0x80 or above would match.
- The `Status` move constructor and move assignment are not modelled; they only transfer ownership of the state pointer.

## Findings

| source | as written | input that shows it | evidently intended | confidence | as-written member | corrected member |
|---|---|---|---|---|---|---|
| src/choco/slice.cpp:11-13 | `memcmp`'s length argument is `s.size() == 0`, so for a non-empty suffix it compares 0 bytes and the test is false | "ab".endsWith("b") is false | true iff `s` is a suffix | high (not executed) | Slices.EndsWithAsWrittenMissesSuffix | Slices.EndsWith |
| src/choco/schema.cpp:7 | `CHECK_GT(num_key_column, columns.size())` aborts unless there are more key columns than columns | 2 columns, 1 key column: aborts | key columns at most the column count | high (not executed) | Schemas.GuardAsWrittenIsInverted | Schemas.Schema.KeyColumns |
| src/choco/string_pool.cpp:19-21 | the length is stored, then the last 8-byte word is zeroed; for strings of at most 6 bytes that word is the length | `MString::create("abc")` has length 0 | length 3 | high (not executed) | StringPools.ShortMStringLosesLength | StringPools.CreateMString |
| src/choco/string_pool.cpp:67 | `sid * 8` multiplies a `uint32_t` sid in 32 bits and only then widens it, so it wraps for every sid of 2^29 or more | a pool of 4097 segments; the string at the start of segment 4096 has sid 2^29, and `get(2^29)` returns the null slot at the start of segment 0 | the offset computed in 64 bits | high (not executed) | StringPools.GetAsWrittenWraps | StringPools.StringPool.GetReadsBack |
| src/choco/type.cpp:88-90, 145-153 | `_value` is not initialised, and `reset` writes nothing for an empty string | `Variant(String, &Slice(""))` holds an indeterminate slice | an empty string | medium (not executed) | Types.Variant.AsWritten | Types.Variant.constructor |
