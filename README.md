# kvs storage layer in Dafny

This project models the log-structured storage layer of the `kvs` key-value store (Rust). It covers four parts:

- **The record codec.** `LogEntry { key, value }` is framed the way bincode frames it with fixed-width integers: `ksz | key | vsz | value`, with both lengths as 8-byte little-endian u64s.
- **The data file.** `DataFile` holds a reader, a writer (append mode, with the cursor `offset` and the counter `byte_written`) and the handle `inner`. The model covers:
  - positional reads;
  - replay of the log from byte 0 by `read_all` and by `DataFileIterator`, with the offsets each record reports;
  - `compact`, which folds the log into a map and rewrites it.
- **`KeyDir`.** The in-memory map from key to `Entry { file_id, value_offset, value_sz }`.
- **`KvStore`.** A plain in-memory string map.

## Structure

| file | module | models |
|---|---|---|
| common.dfy | `Common` | `Option`, `Result`, and the error kinds the layer reports |
| bytes.dfy | `Bytes` | bytes, and the 8-byte little-endian u64 |
| codec.dfy | `Codec` | src/log_entry.rs: `LogEntry`, `Encode`, the stream decoder `Decode`, `key_size`, `size` |
| log.dfy | `Log` | the pure side of src/datafile.rs: key and value offsets, `LogReadResult`, replay (`Scan`), positional reads (`ReadAt`) |
| compaction.dfy | `Compaction` | the fold `compact` performs, and what the rewritten log replays to |
| datafile.dfy | `DataFiles` | the handles of src/datafile.rs as classes: `DataFileWriter`, `DataFileReader`, `DataFileIterator`, `DataFile` |
| key_dir.dfy | `KeyDirs` | src/key_dir.rs |
| kv.dfy | `KvStores` | src/kv.rs |

### The file

A file's contents are the `bytes` field of a `LogFile` object.

- **Open.** `DataFile.Open` creates one `LogFile`. `inner`, the reader and the writer all refer to it, as their OS handles refer to one file.
- **Writes.** A write appends to the end of that object, because the writer is opened in append mode.
- **Compact.** `Compact` builds a fresh `LogFile` and rebinds only `inner`, which matches `self.inner = f`.

### Replay

Replay is the function `Log.Scan(bytes, pos)`. It decodes record after record and stops at the first failure. It reports each record's key and value together with:

- `keyOffset = start + 8`;
- `valueOffset = start + 16 + |key|`.

`Scan` is an instance of a replay over an abstract decoder (`Log.Replay`). The general lemmas about replay are proved once, for any decoder whose records occupy exactly their size.

How the handles relate to `Scan`:

- `DataFileReader.ReadAll` and the first loop of `compact` (`FoldRecords`) loop, and are proved against `Scan`;
- `DataFileIterator.Next` is one step of `Scan`;
- the second loop of `compact` (`WriteRecords`) is proved against `EncodeAll` and `Live`.

### System inputs

Results the operating system decides are parameters:

- `isDir` for `path.is_dir()`;
- a `WriteOutcome` for what `write` took: all bytes, some bytes, or an error.

## Model

| member | source | states |
|---|---|---|
| Bytes.EncodeU64 | src/log_entry.rs:5-7 | a length field is exactly 8 bytes |
| Bytes.DecodeU64 | src/log_entry.rs:5-7 | every 8-byte field holds a value below 2^64 |
| Bytes.DecodeEncodeU64 | src/datafile.rs:242-244 | decoding an encoded u64 returns it (little-endian round trip) |
| Bytes.DecodeU64Canonical | src/datafile.rs:146-149 | every 8-byte field is the encoding of the value it decodes to |
| Codec.EncodeVec | src/log_entry.rs:5-7 | a byte-vector field is its 8-byte length plus its bytes |
| Codec.Encode | src/log_entry.rs:3-8 | an entry's encoding has length 16 + \|key\| + \|value\| |
| Codec.EncodeLayout | src/log_entry.rs:3-8 | the encoding reads u64(\|key\|), key, u64(\|value\|), value at bytes 0, 8, 8+\|key\| and 16+\|key\| |
| Codec.KeySize | src/datafile.rs:103-105 | `key_size()` is the key length and fits a u64 |
| Codec.KeySizeIsHeader | src/log_entry.rs:5-7 | the key size is what the first length field of the encoding announces |
| Codec.Size | src/datafile.rs:155 | `size()` is 16 + \|key\| + \|value\|; SizeIsEncodedLength proves this is the length of the encoding, and Decode's contract that a decoded record occupies exactly this many bytes |
| Codec.SizeIsEncodedLength | src/datafile.rs:155 | `size()` (16 + \|key\| + \|value\|) is the length of the encoding |
| Codec.DecodeVec | src/datafile.rs:146-149 | a decoded field ends within the stream, 8 + its length after its start; failure is a malformed record |
| Codec.Decode | src/datafile.rs:146-149 | a decoded record ends within the stream, exactly its size after its start; failure is a malformed record |
| Codec.DecodeFailsWhenShort | src/datafile.rs:163-166 | decoding fails with fewer than 8 bytes left for the key length, with a declared key length past the end, or when the value field fails |
| Codec.DecodeVecEncode | src/log_entry.rs:9 | an encoded field decodes to itself, whatever follows |
| Codec.DecodeVecIsEncoded | src/log_entry.rs:9 | a field that decodes is the encoding of what it decodes to |
| Codec.DecodeEncode | src/log_entry.rs:9 | round trip: a record stored at `pos` decodes to itself, and the next position is `pos + size` |
| Codec.DecodeEncodeHead | src/datafile.rs:368-388 | decoding `Encode(e) + rest` at 0 gives `e` and the position `\|Encode(e)\|` |
| Codec.DecodeIsEncoded | src/datafile.rs:146-149 | whatever decodes at `pos` is stored there byte for byte |
| Codec.EncodePrefixUnique | src/log_entry.rs:3-8 | no record's encoding is a prefix of another's unless the records are equal |
| Codec.DecodeSucceedsIff | src/datafile.rs:146-149 | decoding succeeds at `pos` if and only if some record's encoding is stored there |
| Codec.TornRecordFails | src/datafile.rs:163-166 | a strict prefix of an encoding at the end of the stream never decodes |
| Codec.TombstoneFraming | src/datafile.rs:75-78 | an entry with an empty value is framed like any other, with vsz = 0, and decodes to itself |
| Log.KeyOffset | src/datafile.rs:99-101 | the key offset lies within the record, leaving room for the whole key |
| Log.ValueOffset | src/datafile.rs:103-105 | the value offset lies within the record, and the value runs exactly to the record's end |
| Log.OffsetsLocateFields | src/datafile.rs:99-105 | within a record's encoding, the key offset (`start + 8`) addresses the key, and the value offset (`start + 16 + key_size`) addresses the value |
| Log.LogReadResult.Into | src/datafile.rs:115-122 | `into()` keeps the key and the value and drops the offsets; EntriesOfResults shows that the entries of a replayed log come back this way |
| Log.Replay | src/datafile.rs:145-168 | decode records one after another from `pos`, reporting each at its running offset, and stop at the first failure; ReplayFrom and ReplayIsMaximal prove it is the longest run the decoder yields, with decoding failing right after it |
| Log.Scan | src/datafile.rs:195-214 | replay over the file's own decoder; ScanOfEncodeAll, ScanIsEncodedPrefix and ScanStopsAtFailure state what it yields on and inside any file |
| Log.Stream | src/datafile.rs:145-149 | every record the file's decoder yields occupies exactly its size within the file |
| Log.Entries | src/datafile.rs:115-122 | `into()` applied to every result, in order |
| Log.Results | src/datafile.rs:152-155 | one result per entry laid out from `start` |
| Log.SpanIsLength | src/datafile.rs:155 | the sum of the records' sizes is the length of their concatenated encodings |
| Log.ReplayFrom | src/datafile.rs:145-168 | where the decoder yields `es` from `pos`, replay reports them at their running offsets, then continues after them |
| Log.ReplayIsMaximal | src/datafile.rs:163-166 | replay is the longest run the decoder yields: its records decode one after another, and decoding fails right after them |
| Log.LogDecodes | src/datafile.rs:374-387 | records stored one after another decode one after another |
| Log.DecodesLog | src/datafile.rs:195-214 | records that decode one after another are stored one after another |
| Log.LogAtIsEncodeAll | src/datafile.rs:242-250 | the log holds `es` at `pos` if and only if the bytes there are the concatenated encodings of `es` |
| Log.ScanAtEnd | src/datafile.rs:163-166 | replay at the end of the file reports nothing |
| Log.ScanFrom | src/datafile.rs:145-168 | a run of records that decode one after another is replayed at its offsets, then replay continues after it |
| Log.ScanStopsAfter | src/datafile.rs:203-210 | where records decode one after another from byte 0 and nothing decodes after them, replay is exactly those records |
| Log.ScanOfEncodeAll | src/datafile.rs:374-387 | the log of any entries replays to those entries at their running offsets |
| Log.LogPrefix | src/datafile.rs:242-250 | a file that begins with the log of `es` holds those entries from byte 0 |
| Log.ScanOfLog | src/datafile.rs:368-388 | replaying a log of appends yields the appended entries in write order, with key offset = bytes before + 8 and value offset = bytes before + 16 + \|key\| |
| Log.AppendIsReplayed | src/datafile.rs:241 | the last record replayed is the last one appended, and its value offset is what `append` returned |
| Log.ScanOfTornRecord | src/datafile.rs:245-248 | a torn record at the end of the log is not replayed |
| Log.ScanTornTail | src/datafile.rs:163-166 | a log ending in a torn append replays like the log without it, so the decoded prefix is kept |
| Log.ScanIsLog | src/datafile.rs:195-214 | the file holds the replayed entries, one after another, at the offsets replay reports |
| Log.ScanStopsAtFailure | src/datafile.rs:163-166 | no record decodes right after what replay reports |
| Log.ScanIsEncodedPrefix | src/datafile.rs:195-214 | what replay reports, re-encoded, is exactly the prefix of the file it consumed, and nothing decodes right after it |
| Log.FieldsAt | src/datafile.rs:99-105 | a stored record's key offset addresses its key, and its value offset with its value size reads its value |
| Log.ScanLocatesFields | src/datafile.rs:152-161 | every replayed record's offsets address its own key and value in the file |
| Log.Transferred | src/datafile.rs:187 | one `read_at` call transfers at most what was asked for, and all of it exactly when the range lies in the file or is empty (the model takes it to transfer min(n, bytes left); see "Left out") |
| Log.ReadAt | src/datafile.rs:185-192 | a read succeeds if and only if `n` bytes exist at the offset (or `n` = 0), returns those bytes, and otherwise fails with an incomplete read |
| Log.ReadAfterAppend | src/datafile.rs:327-344 | reading the value offset of an append, for the value's length, returns the value |
| Log.ReadSurvivesAppends | src/datafile.rs:346-365 | later appends do not change what a successful read returns |
| Compaction.Live | src/datafile.rs:72-80 | the folded map sends each key to a record of that key with a non-empty value |
| Compaction.LiveIsLatest | src/datafile.rs:74-80 | a key is in the folded map if and only if its last record has a value, and then it maps to that record |
| Compaction.LiveOfDistinct | src/datafile.rs:88-92 | folding records with distinct keys and no tombstones keeps every one of them |
| Compaction.WriteOne | src/datafile.rs:88-92 | writing the record of one more key keeps what is written distinct, tombstone-free and folding to the keys written so far |
| Compaction.MapSpanRemove | src/datafile.rs:87-92 | the bytes the map's records take once written do not depend on the order in which the keys are written |
| Compaction.LiveSpan | src/datafile.rs:72-80 | the folded map takes no more bytes than the log it was folded from: exactly as many when the log has distinct keys and no tombstone, strictly fewer otherwise |
| Compaction.CompactionShrinks | src/datafile.rs:71-96 | compaction reclaims space: the rewritten log is no longer than the replayed log, which is no longer than the old file, and it is strictly shorter when the old log held a superseded record or a tombstone |
| Compaction.CompactedReplay | src/datafile.rs:72-92 | the compacted log replays to one record per key whose last record had a value, carrying that last value; no tombstone and no other key remains |
| DataFiles.LogFile.Empty | src/datafile.rs:33 | a created file is empty |
| DataFiles.DataFileWriter.constructor | src/datafile.rs:225-234 | both counters start at 0 on the given file |
| DataFiles.DataFileWriter.Append | src/datafile.rs:236-252 | I/O error: nothing changes. Short write: incomplete-write error, the file grows by what was taken, counters unchanged. Full write: returns old offset + 16 + \|key\|, the file grows by exactly the encoding, both counters advance by its size. A clean writer stays clean |
| DataFiles.FirstWriteOffset | src/datafile.rs:299-310 | the first write of "key"/"value" reports value offset 19 |
| DataFiles.DataFileReader.constructor | src/datafile.rs:177-184 | the reader reads the given file |
| DataFiles.DataFileReader.Read | src/datafile.rs:185-192 | reading `value_size` bytes at `value_offset` succeeds exactly when they lie in the file (or the size is 0), returns those bytes, and otherwise fails with an incomplete read |
| DataFiles.DataFileReader.ReadAll | src/datafile.rs:195-214 | the loop collects exactly the entries replay yields from byte 0 |
| DataFiles.DataFileIterator.constructor | src/datafile.rs:130-139 | a fresh iterator starts at byte 0 with offset 0, with the whole replay pending |
| DataFiles.DataFileIterator.Next | src/datafile.rs:145-168 | yields the next pending replayed record, or None when none is left (and then keeps yielding None); key offset = offset + 8, value offset = offset + 16 + \|key\|, and offset advances by the record's size |
| DataFiles.DataFile.Init | src/datafile.rs:36-42 | the data file holds the given id and handles |
| DataFiles.DataFile.Open | src/datafile.rs:25-43 | succeeds exactly when the path is a directory, and otherwise fails with NotADirectory; on success `main.dat` is created empty, the data file, the file and both handles are fresh objects, the reader and the writer share the file, and the writer's counters are 0 |
| DataFiles.DataFile.Write | src/datafile.rs:55-57 | the outcome of the writer's append, case by case |
| DataFiles.DataFile.Read | src/datafile.rs:59-61 | the reader's positional read: succeeds exactly when the bytes lie in the reader's file (or the size is 0), returns them, and otherwise fails with an incomplete read |
| DataFiles.DataFile.ReadAll | src/datafile.rs:67-69 | the entries replay yields from byte 0 of the reader's file |
| DataFiles.DataFile.Compact | src/datafile.rs:71-96 | `inner` becomes a fresh file holding the encodings of some sequence of records that is a compaction of the replayed log: distinct keys, no tombstones, the same folded map; the new file is no longer than the old one, and it is strictly shorter than the replayed log when that log held a superseded record or a tombstone |
| DataFiles.FoldRecords | src/datafile.rs:72-80 | the first loop of `compact` builds exactly the fold of the replayed entries |
| DataFiles.WriteRecords | src/datafile.rs:87-92 | the second loop writes one record per map entry, in some order, into a fresh file; the records written fold back to the map |
| KeyDirs.KeyDir.constructor | src/key_dir.rs:17-21 | a new directory contains no key |
| KeyDirs.KeyDir.Put | src/key_dir.rs:22-30 | upsert: afterwards `get(key)` is the new entry whatever was there before (last writer wins), and every other key is unchanged |
| KeyDirs.KeyDir.Get | src/key_dir.rs:32-34 | `get(k)` is a read-only lookup; the constructor's and Put's contracts state it: None in a new directory, the new entry after `put(k, ..)`, and unchanged by a `put` of another key |
| KeyDirs.KeyDir.ContainsKey | src/key_dir.rs:36-38 | `contains_key(k)` holds if and only if `get(k)` is `Some` |
| KvStores.KvStore.constructor | src/kv.rs:11-15 | a new store has no value for any key |
| KvStores.KvStore.Set | src/kv.rs:23-25 | afterwards `get(key)` is the new value whatever was there before, and every other key is unchanged |
| KvStores.KvStore.Get | src/kv.rs:36-45 | `get(k)` is a read-only lookup; the constructor's, Set's and Remove's contracts state it: None in a new store, the new value after `set(k, ..)`, None after `remove(k)`, and unchanged by either on another key |
| KvStores.KvStore.Remove | src/kv.rs:52-54 | afterwards `get(key)` is None; removing an absent key changes nothing and is no error; every other key is unchanged |

`Get` of `KeyDir` and `KvStore`, and `Read` of `DataFileReader` and `DataFile`, are functions that read their object. So they cannot modify it, which covers `get` and `contains_key` leaving the directory unchanged (src/key_dir.rs:32-38) and `get` leaving the store unchanged (src/kv.rs:36-45).

## Left out

- The file system is reduced to byte sequences:
  - `File::create` and `options` are modelled only by their result, an empty file (`LogFile.Empty`) shared by the handles; their other OS effects (permissions, inodes, directory entries) are not modelled;
  - `remove_file` and `sync_all` in `Drop` (src/datafile.rs:46-51) are not modelled;
  - the BufReader/BufWriter buffering is not modelled;
  - OS errors that `?` would pass on from `open`, `remove_file` and `read_at` are not modelled;
  - `path()` is a plain accessor and is not modelled.
- `DataFile.Open` takes the result of `is_dir` as the boolean `isDir`. The doc comment of `open` says it fails if the file already exists. The code calls `File::create`, which truncates an existing file, and the model follows the code.
- `DataFiles.DataFileWriter.Append` demands that the system takes at most the bytes it was given (`count <= Size`). That is a property of `write`, not a check of the source.
- `DataFiles.DataFile.Compact` does not return a `Result`. Its OS-level failures are left out, and its `writer.write(..).unwrap()` calls are taken to be complete writes.
- `DataFiles.DataFile.Compact` makes no claim about the reader and the writer afterwards. They keep the old, unlinked file, and the writer's `offset` is not reset (src/datafile.rs:94).
- `DataFiles.DataFile.ReadAll` is a replay from byte 0. The BufReader over `&self.inner` really shares the handle's cursor, so repeated calls depend on OS state that is not modelled.
- `DataFiles.DataFileIterator.constructor` snapshots the file's bytes when it opens. Writes made while an iterator is live are not seen by it.
- HashMap iteration order in `compact` is a nondeterministic choice of the next key. The rewritten log is specified up to order, through its fold and its distinct keys.
- Log.Transferred: one `read_at` call is taken to transfer min(n, bytes left) of a regular file. A single pread may return fewer bytes: Linux caps one call at 0x7ffff000 bytes, and the source turns any short count into an incomplete read (src/datafile.rs:187-190). So a read of more bytes than that cap, lying wholly within the file, succeeds in the model where the source fails. `Log.ReadAt`, both `Read` functions, `Log.ReadAfterAppend` and `Log.ReadSurvivesAppends` rest on this assumption.
- Offsets and counters are unbounded naturals. A u64 overflow would need a file larger than 2^64 bytes.
- bincode internals beyond the fixed-width layout are not modelled: decode limits, allocation of very large declared lengths, and error kinds. A decode failure is one error kind.
- `read_all` and `next` keep the entries decoded before the first failure, as the source does. That the iterator's failed read drained the stream is modelled by moving its cursor to the end of the file.
- The error messages built with `anyhow!` become `Common.Error` values, and the Display strings of src/error.rs are not modelled.
- src/cli.rs, src/bin/kvs.rs and src/lib.rs (argument parsing, an entry point whose branches are unimplemented, and module wiring) are not part of this model.
- `KvStore` is not connected to `DataFile` or `KeyDir`, as in the source. No store orchestration is modelled.
