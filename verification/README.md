# rust-caskdb storage core in Dafny

This project models the storage core of rust-caskdb, a Bitcask-style
key/value store, and proves what the store promises.

The store keeps one append-only log file. Every `set` appends one record to
it:

- a 16-byte header of four big-endian `u32` fields: crc, timestamp, key size
  and value size;
- then the key bytes;
- then the value bytes.

An in-memory key directory maps each key to the offset and payload size of
its latest record. `get` seeks to that offset, reads the whole record back
and decodes it. Opening an existing file rebuilds the directory by scanning
the log from offset 0. The scan reads each header and key, inserts an entry,
and skips the value.

The model is purely functional:

- The log file is a byte sequence.
- The directory is a `map` and the store is a datatype value.
- A Rust function returning `Result` becomes a function returning an
  `Outcome`: `Ok`, `Err` or `Panic`. A Rust panic (a drain out of range, a
  `u32` addition that overflows) is therefore a value that contracts can talk
  about.
- `set` is the exception. Within its precondition (key and value lengths
  adding up to less than 2^32), its only failures are I/O errors, which are
  not modelled, and the serializer's error, which is left out. So
  `DiskStore.Set` returns the new store directly. Outside the precondition,
  `total_size` would overflow, which panics in a debug build (see Left out).

Modules:

- `Outcomes`: `Option` and `Outcome`.
- `Bytes`: `u8`/`u32` and the big-endian `to_be_bytes` / `from_be_bytes`
  pair.
- `Format`: the record codec of `src/database/format.rs`.
- `DiskStore`: the store of `src/disk_store.rs`, with the entry and error
  types of `src/lib.rs`.
- `StoreProperties`: invariants and multi-step properties. These are:
  - `set` keeps the directory valid;
  - `get` after `set`, and last write wins;
  - recovery of a log made of records rebuilds the replayed directory;
  - reopening the file written by any sequence of `set`s gives back the very
    same store, so every key reads as its last value.

Where the code and its evident intent disagree, the model follows the code:

- `Record::decode` panics, rather than reporting a key or value of the wrong
  size, when the buffer is shorter than the header declares. `get` decodes
  with it, so `get` panics too when the bytes at an entry's offset announce
  more payload than the entry's size. `DiskStore.Get` models this as written.
  `DiskStore.GetChecked` is the corrected `get`. See Findings.
- Recovery never checks that the value bytes are present. The value is
  skipped with a seek, and a seek past the end of the file succeeds. So a log
  whose last value is cut short is accepted, and the write position is left
  past the end of the file (`StoreProperties.TruncatedValueAccepted`). See
  Findings: `DiskStore.InitKeyDirChecked` is the corrected scan, which
  rejects such a log.
- After that, the entry of the next `set` points as many bytes past the
  start of the record that `set` really appends as the value was missing.
  That may be inside the record or beyond its end. What `get` of that key
  then returns depends on the bytes at that point:
  - While nothing lies beyond the gap, `get` fails with an end-of-file error
    (`StoreProperties.TruncatedValueAccepted`).
  - Once later records fill the gap, `get` decodes a header made of the
    record's own bytes (`StoreProperties.MisalignedRead`).
  - It can then return a wrong value without any error
    (`StoreProperties.TruncatedValueMisreads`), or panic
    (`StoreProperties.TruncatedValuePanics`).
- The invariant that every entry lies within the file therefore holds for
  logs written by `set` (`StoreProperties.ReopenAfterSets`), but not for every
  log that opens. With the corrected scan, every log that opens ends where the
  scan stops (`DiskStore.OpenChecked`), and logs written by `set` still open
  (`StoreProperties.ReopenAfterSetsChecked`).
- The header accessors `key_size`, `value_size`, `timestamp` and
  `total_size`, and the record accessor `Record::key`, are called in
  `src/disk_store.rs` but not defined in `src/database/format.rs`. They are
  taken to return the header fields and the key bytes, with
  `total_size = key_size + value_size` as a `u32`. The model assumes the sum is computed with Rust's overflow
  checks on, as in a debug build: when it overflows during recovery, the
  model panics (`RecoveryStep.Overflow`). A release build wraps instead (see
  Left out).

## Model

| member | source | states |
|---|---|---|
| Format.HeaderLayout | src/database/format.rs:38-45 | each of crc, timestamp, key size and value size occupies its own four bytes of the encoded header, and reads back big-endian as that field |
| Format.HeaderRoundTrip | src/database/format.rs:150-154 | decoding an encoded header gives back all four fields, for every header |
| Format.HeaderDecodeInverse | src/database/format.rs:47-54 | every 16-byte buffer is the encoding of the header it decodes to, so header encoding is a bijection onto 16-byte buffers |
| Format.RecordNew | src/database/format.rs:58-69 | the new record has crc 0, the given timestamp, key and value, and its header sizes match the payload exactly when both lengths fit in a `u32` (otherwise the `as u32` cast truncates them) |
| Format.RecordEncode | src/database/format.rs:81-88 | an encoded record is 16 bytes longer than its key and value together |
| Format.HeaderEncode | src/database/format.rs:38-45 | an encoded header is exactly 16 bytes; `Format.HeaderRoundTrip` and `Format.HeaderDecodeInverse` make it the inverse of `Header::decode` |
| Format.RecordLayout | src/database/format.rs:81-88 | the encoding is the header's encoding, then the key, then the value, with nothing in between |
| Format.RecordDecode | src/database/format.rs:90-113 | as written: a buffer under 16 bytes is a header error carrying its length, and that is the only error decoding can return |
| Format.RecordDecodeSpec | src/database/format.rs:90-113 | as written: decoding panics exactly when the buffer holds a header but fewer payload bytes than it declares; on success, the record is well formed and its encoding is the front of the buffer |
| Format.RecordDecodeChecked | src/database/format.rs:97-110 | corrected decoder: it never panics, and a key or value error reports fewer bytes than the header declared |
| Format.CheckedDecodeAgrees | src/database/format.rs:97-110 | the corrected decoder agrees with the original wherever that one does not panic, and returns a key or value error exactly where it panics |
| Format.RecordRoundTrip | src/database/format.rs:156-160 | decoding the encoding of any well-formed record, followed by any bytes, gives the record back, with both decoders |
| Format.NewRecordRoundTrip | src/database/format.rs:197-207 | a record built by `Record::new` survives encoding and decoding, including an empty key and value |
| Format.ShortKeyPanics | src/database/format.rs:97-103 | a header declaring a one-byte key with nothing after it makes the original decoder panic, while the corrected one reports a key error (0 of 1 bytes) |
| DiskStore.HeaderReadLength | src/disk_store.rs:59-65 | a header read returns at most 16 bytes, none exactly at the end of the log, and a short read only when it reaches the end |
| DiskStore.ReadEntry | src/disk_store.rs:58-83 | one recovery step reports the clean end exactly when no bytes remain, and a found record moves the scan forward |
| DiskStore.ReadEntrySpec | src/disk_store.rs:59-82 | a recovery step fails only with a 1-to-15-byte header error at the very end or an end-of-file error on the key; a found record's key lies inside the log, its entry's offset is the record's start, and the next record starts after its header and payload |
| DiskStore.InitKeyDir | src/disk_store.rs:50-85 | a successful scan keeps every key it started with, never moves the write position backwards, and ends at or past the end of the log |
| DiskStore.Open | src/disk_store.rs:24-48 | a missing or empty file opens as the empty store; an opened store keeps the file's bytes, and its write position is at or past their end |
| DiskStore.Get | src/disk_store.rs:89-103 | `get` returns `None` exactly for keys the directory lacks, fails with end-of-file when the entry reaches past the log, and has no other error (it may panic, as `Record::decode` does) |
| DiskStore.ReadValue | src/disk_store.rs:95-102 | reading a known key's record fails with end-of-file exactly when the entry reaches past the log, and otherwise returns a value no longer than the entry's payload size, or panics |
| DiskStore.GetChecked | src/disk_store.rs:89-103 | corrected `get`: `None` exactly for unknown keys, never a panic, and a format error only for a short key or value |
| DiskStore.GetCheckedAgrees | src/disk_store.rs:100 | the corrected `get` returns what `get` returns wherever that one does not panic, and a format error exactly where it panics |
| DiskStore.Set | src/disk_store.rs:105-131 | `set` maps the key to an entry at the old write position with payload size key plus value and the given timestamp, keeps every other entry, adds no other key, and grows both the write position and the log by the record's size |
| DiskStore.TotalSizeOfNew | src/disk_store.rs:115-121 | the `total_size` of a record built by `Record::new` is its key length plus value length, so the header and the payload span the record's whole encoding |
| DiskStore.SetAppendsRecord | src/disk_store.rs:121-125 | `set` keeps the old log as a prefix and appends exactly the encoded `Record::new`, which decodes back to key, value and timestamp |
| StoreProperties.EmptyValid | src/disk_store.rs:24-48 | a store opened on a missing file is empty and satisfies the store invariants |
| StoreProperties.EntryValidAfterAppend | src/disk_store.rs:123-125 | appending bytes to the log keeps every valid entry valid |
| StoreProperties.NewEntryValid | src/disk_store.rs:110-125 | the entry `set` creates describes the record it appends |
| StoreProperties.SetPreservesValid | src/disk_store.rs:105-131 | `set` keeps the invariants: the write position is the end of the log, and every entry covers a record for its key of the recorded size and timestamp |
| StoreProperties.ValidGetSucceeds | src/disk_store.rs:89-103 | in a valid store, `get` of every known key returns a value |
| StoreProperties.GetAfterSet | src/disk_store.rs:167-178 | `set(k, v)` followed by `get(k)` returns `v` |
| StoreProperties.GetOtherAfterSet | src/disk_store.rs:105-131 | `set(k, v)` leaves `get` of every other key unchanged |
| StoreProperties.LastWriteWins | src/disk_store.rs:210-229 | a second `set` of a key replaces its value, also with an empty value |
| StoreProperties.ReadOverRecord | src/disk_store.rs:58-82 | the recovery step at an encoded record finds its key and the entry at its offset, and continues right after it |
| StoreProperties.ScanRecordsTo | src/disk_store.rs:58-83 | scanning over records that the scan finds one after another inserts their entries in log order |
| StoreProperties.ScanConcat | src/disk_store.rs:58-83 | scanning over a run of encoded records replays their entries in order and continues after the run |
| StoreProperties.ReplayKeys | src/disk_store.rs:79 | the replayed directory holds exactly the old keys and the records' keys |
| StoreProperties.ReplayUntouched | src/disk_store.rs:79 | a key no record mentions keeps its old entry, or stays absent |
| StoreProperties.ReplayLastWrite | src/disk_store.rs:73-80 | a key's replayed entry is that of its last record, at the byte where that record starts |
| StoreProperties.OpenConcat | src/disk_store.rs:24-85 | opening a log made of records succeeds, with the records' replay as directory and the end of the log as write position |
| StoreProperties.RecoverConcatenation | src/disk_store.rs:50-85 | recovering a log made of records succeeds, knows exactly the records' keys, maps each to its last record's offset, size and timestamp, and puts the write position at the end of the log |
| StoreProperties.RecoverTrailingBytes | src/disk_store.rs:59-65 | after whole records, an empty remainder ends recovery cleanly, and a remainder of 1 to 15 bytes fails it with a header error of that length |
| StoreProperties.ScanTrailing | src/disk_store.rs:58-65 | the recovery scan over whole records followed by fewer than 16 bytes succeeds if nothing follows and fails with a header error of the remainder's length otherwise, whatever directory it starts from |
| StoreProperties.ScanEnd | src/disk_store.rs:59-65 | at the end of the log the scan returns its directory and position; with 1 to 15 bytes left it fails with a header error |
| StoreProperties.TruncatedValueAccepted | src/disk_store.rs:67-82 | a log whose only value is cut short opens with the write position past the end, and a key written afterwards cannot be read back |
| StoreProperties.MisalignedRead | src/disk_store.rs:80-82 | once the truncated log is opened and two 20-byte values are set, the first new key's entry points 10 bytes into its record, and `get` reads its key and value sizes from that record's value bytes |
| StoreProperties.TruncatedValueMisreads | src/disk_store.rs:95-102 | in that store, with zero-filled values, `get` of the first new key returns an empty value instead of the twenty bytes that were set |
| StoreProperties.TruncatedValuePanics | src/disk_store.rs:100 | in that store, with values of 255s, `get` of the first new key panics, and the corrected `get` reports a key error (21 of 2^32 - 1 bytes) |
| DiskStore.ReadEntryChecked | src/disk_store.rs:80-82 | corrected recovery step: a record whose value runs past the end of the log is an end-of-file error; otherwise it is the step as written, and a found record ends inside the log |
| DiskStore.InitKeyDirChecked | src/disk_store.rs:50-85 | corrected scan: it keeps every key it started with, and a successful scan from inside the log ends exactly at its end |
| DiskStore.OpenChecked | src/disk_store.rs:24-48 | corrected open: a missing file is the empty store, and an opened store's write position is exactly the length of its file |
| DiskStore.CheckedScanAgrees | src/disk_store.rs:58-83 | wherever the corrected scan succeeds, the scan as written returns the same directory and write position |
| DiskStore.CheckedScanExact | src/disk_store.rs:58-83 | from any position inside the log, the corrected scan fails with an end-of-file error exactly when the scan as written succeeds with its write position past the end of the file, and otherwise returns what the scan as written returns |
| StoreProperties.TruncatedValueRejected | src/disk_store.rs:80-82 | the corrected open rejects the truncated log of `TruncatedValueAccepted` with an end-of-file error |
| StoreProperties.ScanRecordsToChecked | src/disk_store.rs:58-83 | the corrected scan over records that the scan finds one after another, ending inside the log, inserts their entries in log order |
| StoreProperties.ScanConcatChecked | src/disk_store.rs:58-83 | the corrected scan accepts a log made of whole records and rebuilds their replay, with the write position at the end |
| StoreProperties.ReopenAfterSetsChecked | src/disk_store.rs:24-85 | the corrected open still reopens every file that a sequence of `set`s writes, giving back the same store |
| StoreProperties.ApplyPreservesValid | src/disk_store.rs:105-131 | any sequence of `set`s keeps the store invariants |
| StoreProperties.ApplyAppendsRecords | src/disk_store.rs:121-125 | a sequence of `set`s appends exactly the encodings of its records, in call order |
| StoreProperties.ApplyKeepsPosition | src/disk_store.rs:121 | a sequence of `set`s started at the end of the log leaves the write position at the new end |
| StoreProperties.ApplyReplaysRecords | src/disk_store.rs:110-121 | the directory after a sequence of `set`s is the replay of their records from the starting write position |
| StoreProperties.ReopenAfterSets | src/disk_store.rs:187-208 | reopening the file that any sequence of `set`s wrote to a new store gives back the same log, directory and write position |
| StoreProperties.GetAfterSetsUntouched | src/disk_store.rs:89-131 | after a sequence of `set`s, a key none of them wrote reads as before |
| StoreProperties.GetAfterSetsLast | src/disk_store.rs:210-229 | after a sequence of `set`s, each written key reads as the value of its last `set` |
| StoreProperties.PersistenceAcrossReopen | src/disk_store.rs:187-243 | after any sequence of `set`s on a new store and a reopen, each written key reads as its last value and every other key is not found |

## Left out

- Serialization of keys and values (`Record::try_new`, `bincode::encode_to_vec`, `CONFIG`): keys and values are raw byte sequences. The `Encode` error exists in `DatabaseError` but nothing produces it.
- The generic `KeyValueStore` trait is left out. `get` and `set` are modelled directly on byte keys.
- The clock (`chrono::Local::now`) is the `now` parameter of `DiskStore.Set`.
- File I/O (`exists`, `open`, `read`, `read_exact`, `seek`, `write`, `sync_all`): the file is an optional byte sequence. The only I/O error modelled is `read_exact` reaching the end of the file. Failures to open, read, write or sync are not modelled.
- The byte count of `write`, which the source ignores: `set` is modelled as appending the whole record, so a short write is not modelled.
- `DashMap` concurrency: one store is used by one caller at a time.
- `file_id` / `active_path`: there is only one active file, so the model drops the path.
- The crc field is always 0, and nothing computes or checks it.
- DiskStore.Set: requires the key and value lengths to add up to less than 2^32. Longer payloads would be truncated by the `as u32` casts and overflow `total_size`, and the model does not describe what the store then writes.
- DiskStore.ReadEntry: models `total_size` as a `u32` addition that panics on overflow, as in a debug build. In a release build the sum wraps. Then the write position advances by 16 plus the wrapped sum, while the file cursor skips the full value. The two positions part, and the model's single scan position cannot express that.
- The write position and value offsets are unbounded: `u64` overflow would need a file of 2^64 bytes.
- The source's unit tests themselves are not modelled. Their promises are stated as lemmas (round trips, `get` after `set`, persistence across reopen).

## Findings

| source | as written | input that shows it | evidently intended | confidence | as-written member | corrected member |
|---|---|---|---|---|---|---|
| src/database/format.rs:97-110 | `Record::decode` drains the key and the value with `drain(0..size)` before checking their lengths. A buffer shorter than the header declares therefore panics, and the `Key`/`Value` errors can never be returned | a 16-byte header with crc 0, timestamp 0, key size 1, value size 0, and nothing after it | return `FormatError::Key` / `FormatError::Value`, giving the bytes actually available and the size declared | not executed | Format.RecordDecode, Format.ShortKeyPanics, StoreProperties.TruncatedValuePanics | Format.RecordDecodeChecked, Format.CheckedDecodeAgrees, Format.RecordRoundTrip, DiskStore.GetChecked, DiskStore.GetCheckedAgrees |
| src/disk_store.rs:80-82 | recovery skips each value with a seek, which succeeds past the end of the file, so a log whose last value is cut short opens with the write position past its end; a later `set`'s entry then points away from the record it appends, and `get` of that key fails, returns a wrong value or panics | the 17-byte log of a header (crc 0, timestamp 0, key size 1, value size 10) and the key byte 7, followed by `set`s of keys 8 and 9 with twenty zero bytes each: `get` of key 8 returns an empty value | reject a record whose value is not all in the file, as a `read_exact` of the value would, so that the write position is always the file's length | not executed | DiskStore.InitKeyDir, StoreProperties.TruncatedValueAccepted, StoreProperties.MisalignedRead, StoreProperties.TruncatedValueMisreads, StoreProperties.TruncatedValuePanics | DiskStore.ReadEntryChecked, DiskStore.InitKeyDirChecked, DiskStore.OpenChecked, DiskStore.CheckedScanAgrees, DiskStore.CheckedScanExact, StoreProperties.TruncatedValueRejected, StoreProperties.ReopenAfterSetsChecked |
