/** The single-segment log store (src/disk_store.rs, with the types of
    src/lib.rs). The log file is an abstract byte sequence, so every
    operation is a pure function of the store's state. */
module DiskStore {
  import opened Bytes
  import opened Outcomes
  import opened Format

  /** The only I/O failure an in-memory log can produce: `read_exact`
      reaching the end of the file. */
  datatype IoError = UnexpectedEof

  /** `DatabaseError`. `Encode` belongs to the key/value serializer, which is
      not part of this model, so nothing here produces it. */
  datatype DatabaseError = Io(io: IoError) | Format(format: FormatError) | Encode

  /** Where the latest record for a key starts and how big its payload is.
      The source's `file_id` is always the one active file and is dropped. */
  datatype KeyEntry = KeyEntry(totalSize: uint32, valueOffset: nat, timestamp: uint32)

  type KeyDirectory = map<seq<uint8>, KeyEntry>

  /** The log's bytes, the key directory and the write position. */
  datatype DiskStore = DiskStore(log: seq<uint8>, keyDir: KeyDirectory, writePosition: nat)

  /** The store of a file that did not exist. */
  const Empty: DiskStore := DiskStore([], map[], 0)

  /** `Header::total_size`, the payload size, when it fits in a `u32`. */
  function TotalSize(h: Header): (n: uint32)
    requires h.keySize + h.valueSize < UINT32_LIMIT
  {
    h.keySize + h.valueSize
  }

  /** The `total_size` of a record built by `Record::new` is exactly the
      number of key and value bytes, and a directory entry for it spans the
      record's whole encoding. */
  lemma TotalSizeOfNew(now: uint32, key: seq<uint8>, value: seq<uint8>)
    requires |key| + |value| < UINT32_LIMIT
    ensures TotalSize(RecordNew(now, key, value).header) == |key| + |value|
    ensures HEADER_SIZE + TotalSize(RecordNew(now, key, value).header) == |RecordEncode(RecordNew(now, key, value))|
  {
  }

  /** Bytes a `read` into a 16-byte buffer returns at byte `pos` of the log:
      as many as remain, at most 16, and none at or past the end. */
  function HeaderReadLength(log: seq<uint8>, pos: nat): (n: nat)
    ensures n <= HEADER_SIZE
    ensures n == 0 <==> pos >= |log|
    ensures pos + n <= |log| || n == 0
    ensures n < HEADER_SIZE && n != 0 ==> pos + n == |log|
  {
    if pos >= |log| then 0
    else if |log| - pos < HEADER_SIZE then |log| - pos
    else HEADER_SIZE
  }

  /** What one turn of the recovery loop finds at byte `pos`. */
  datatype RecoveryStep =
    | EndOfLog
    | Failed(error: DatabaseError)
    | Overflow
    | Found(key: seq<uint8>, entry: KeyEntry, next: nat)

  /** One turn of the loop in `init_key_dir`: read up to 16 header bytes (none
      left is the clean end, some but not 16 a format error), read the key
      (too few bytes left is the I/O error of `read_exact`), build the entry
      at `pos` and skip the value bytes without looking at them. A payload
      size that overflows `u32` panics. */
  function ReadEntry(log: seq<uint8>, pos: nat): (s: RecoveryStep)
    ensures s.EndOfLog? <==> pos >= |log|
    ensures s.Found? ==> s.next > pos
  {
    var n := HeaderReadLength(log, pos);
    if n == 0 then EndOfLog
    else if n != HEADER_SIZE then Failed(Format(ShortHeader(n)))
    else
      var header := HeaderDecode(log[pos..pos + HEADER_SIZE]);
      var keyStart := pos + HEADER_SIZE;
      if |log| - keyStart < header.keySize then Failed(Io(UnexpectedEof))
      else if header.keySize + header.valueSize >= UINT32_LIMIT then Overflow
      else
        var key := log[keyStart..keyStart + header.keySize];
        var entry := KeyEntry(TotalSize(header), pos, header.timestamp);
        Found(key, entry, pos + HEADER_SIZE + entry.totalSize)
  }

  /** What a recovery step can report: the clean end exactly when nothing
      is left, a short header only for the last 1 to 15 bytes, and a found
      record whose key lies inside the log and whose successor starts after
      its header and payload. */
  lemma ReadEntrySpec(log: seq<uint8>, pos: nat)
    ensures ReadEntry(log, pos).EndOfLog? <==> pos >= |log|
    ensures ReadEntry(log, pos).Failed? ==>
              var e := ReadEntry(log, pos).error;
              || (e.Format? && e.format.ShortHeader? && 0 < e.format.len < HEADER_SIZE
                  && pos + e.format.len == |log|)
              || e == Io(UnexpectedEof)
    ensures ReadEntry(log, pos).Found? ==>
              var s := ReadEntry(log, pos);
              && pos + HEADER_SIZE + |s.key| <= |log|
              && s.entry.valueOffset == pos
              && s.next == pos + HEADER_SIZE + s.entry.totalSize
              && |s.key| <= s.entry.totalSize
  {
  }

  /** `init_key_dir` from byte `pos` on, with the directory built so far.
      The read position and the write position always move together (by
      the header, the key and the skipped value), so one `pos` stands for
      both. Entries are inserted in log order, so a key's last record wins.
      A value cut short at the end of the log is accepted and leaves `pos`
      past the end. On success it returns the directory and the write
      position. */
  function InitKeyDir(log: seq<uint8>, pos: nat, keyDir: KeyDirectory): (r: Outcome<(KeyDirectory, nat), DatabaseError>)
    ensures r.Ok? ==> keyDir.Keys <= r.value.0.Keys && pos <= r.value.1
    ensures r.Ok? && pos < |log| ==> |log| <= r.value.1
    decreases if pos < |log| then |log| - pos else 0
  {
    match ReadEntry(log, pos)
    case EndOfLog => Ok((keyDir, pos))
    case Failed(e) => Err(e)
    case Overflow => Panic
    case Found(key, entry, next) => InitKeyDir(log, next, keyDir[key := entry])
  }

  /** `DiskStore::new`: a missing file (`None`) starts empty; an existing one
      is scanned from offset 0 and the store is unusable if the scan fails. */
  function Open(file: Option<seq<uint8>>): (r: Outcome<DiskStore, DatabaseError>)
    ensures file.None? ==> r == Ok(Empty)
    ensures file.Some? && r.Ok? ==> r.value.log == file.value
    ensures file.Some? && r.Ok? && |file.value| > 0 ==> r.value.writePosition >= |file.value|
    ensures file == Some([]) ==> r == Ok(Empty)
  {
    match file
    case None => Ok(Empty)
    case Some(log) =>
      match InitKeyDir(log, 0, map[])
      case Ok((keyDir, writePosition)) => Ok(DiskStore(log, keyDir, writePosition))
      case Err(e) => Err(e)
      case Panic => Panic
  }

  /** The recovery step as it was evidently meant to behave: a record whose
      value runs past the end of the log is an I/O error, as a `read_exact`
      of the value would report, instead of being skipped by a seek. */
  function ReadEntryChecked(log: seq<uint8>, pos: nat): (s: RecoveryStep)
    ensures s.Found? ==> s == ReadEntry(log, pos) && pos < s.next <= |log|
    ensures !ReadEntry(log, pos).Found? ==> s == ReadEntry(log, pos)
    ensures ReadEntry(log, pos).Found? && ReadEntry(log, pos).next <= |log| ==> s == ReadEntry(log, pos)
    ensures ReadEntry(log, pos).Found? && ReadEntry(log, pos).next > |log| ==> s == Failed(Io(UnexpectedEof))
  {
    var s := ReadEntry(log, pos);
    if s.Found? && s.next > |log| then Failed(Io(UnexpectedEof)) else s
  }

  /** `init_key_dir` with the checked step. A successful scan from a position
      inside the log stops exactly at its end, so the write position it
      returns is the length of the file. */
  function InitKeyDirChecked(log: seq<uint8>, pos: nat, keyDir: KeyDirectory): (r: Outcome<(KeyDirectory, nat), DatabaseError>)
    ensures r.Ok? ==> keyDir.Keys <= r.value.0.Keys
    ensures r.Ok? && pos <= |log| ==> r.value.1 == |log|
    decreases if pos < |log| then |log| - pos else 0
  {
    match ReadEntryChecked(log, pos)
    case EndOfLog => Ok((keyDir, pos))
    case Failed(e) => Err(e)
    case Overflow => Panic
    case Found(key, entry, next) => InitKeyDirChecked(log, next, keyDir[key := entry])
  }

  /** `DiskStore::new` with the checked scan: an opened store's write
      position is the length of its file. */
  function OpenChecked(file: Option<seq<uint8>>): (r: Outcome<DiskStore, DatabaseError>)
    ensures file.None? ==> r == Ok(Empty)
    ensures file.Some? && r.Ok? ==> r.value.log == file.value && r.value.writePosition == |file.value|
  {
    match file
    case None => Ok(Empty)
    case Some(log) =>
      match InitKeyDirChecked(log, 0, map[])
      case Ok((keyDir, writePosition)) => Ok(DiskStore(log, keyDir, writePosition))
      case Err(e) => Err(e)
      case Panic => Panic
  }

  /** Wherever the checked scan succeeds, the scan as written returns the
      same directory and write position. */
  lemma {:induction false} CheckedScanAgrees(log: seq<uint8>, pos: nat, keyDir: KeyDirectory)
    requires InitKeyDirChecked(log, pos, keyDir).Ok?
    ensures InitKeyDir(log, pos, keyDir) == InitKeyDirChecked(log, pos, keyDir)
    decreases if pos < |log| then |log| - pos else 0
  {
    match ReadEntryChecked(log, pos)
    case EndOfLog =>
    case Found(key, entry, next) =>
      CheckedScanAgrees(log, next, keyDir[key := entry]);
  }

  /** The checked scan rejects exactly the logs that the scan as written
      opens with its write position past the end of the file, and returns
      what the scan as written returns on every other log. */
  lemma {:induction false} CheckedScanExact(log: seq<uint8>, pos: nat, keyDir: KeyDirectory)
    requires pos <= |log|
    ensures InitKeyDirChecked(log, pos, keyDir) ==
      if InitKeyDir(log, pos, keyDir).Ok? && InitKeyDir(log, pos, keyDir).value.1 > |log|
      then Err(Io(UnexpectedEof))
      else InitKeyDir(log, pos, keyDir)
    decreases |log| - pos
  {
    match ReadEntry(log, pos)
    case EndOfLog =>
    case Failed(_) =>
    case Overflow =>
    case Found(key, entry, next) =>
      if next <= |log| {
        CheckedScanExact(log, next, keyDir[key := entry]);
      } else {
        assert ReadEntry(log, next).EndOfLog?;
      }
  }

  /** `get`: an unknown key is `None`, not an error. A known key's record is
      read back in full, `16 + total_size` bytes from its offset, and decoded
      with `Record::decode` as written; a read past the end of the log is an
      I/O error. Since the buffer always holds a whole header, decoding never
      fails with an error, but it panics when the header found at the offset
      announces more payload than the entry's size. */
  function Get(st: DiskStore, key: seq<uint8>): (r: Outcome<Option<seq<uint8>>, DatabaseError>)
    ensures key !in st.keyDir <==> r == Ok(None)
    ensures key in st.keyDir && st.keyDir[key].valueOffset + HEADER_SIZE + st.keyDir[key].totalSize > |st.log|
            ==> r == Err(Io(UnexpectedEof))
    ensures r.Err? ==> r.error == Io(UnexpectedEof)
  {
    if key !in st.keyDir then Ok(None) else ReadValue(st.log, st.keyDir[key])
  }

  /** The seek, `read_exact` and decode of `get` for a known key. */
  function ReadValue(log: seq<uint8>, entry: KeyEntry): (r: Outcome<Option<seq<uint8>>, DatabaseError>)
    ensures entry.valueOffset + HEADER_SIZE + entry.totalSize > |log| <==> r == Err(Io(UnexpectedEof))
    ensures r.Err? ==> r.error == Io(UnexpectedEof)
    ensures r.Ok? ==> r.value.Some? && |r.value.value| <= entry.totalSize
  {
    var end := entry.valueOffset + HEADER_SIZE + entry.totalSize;
    if end > |log| then Err(Io(UnexpectedEof))
    else ValueOf(RecordDecode(log[entry.valueOffset..end]))
  }

  /** The value of a decoded record, or the decoding error as a `DatabaseError`. */
  function ValueOf(d: Outcome<Record, FormatError>): Outcome<Option<seq<uint8>>, DatabaseError>
  {
    match d
    case Ok(rec) => Ok(Some(rec.value))
    case Err(e) => Err(Format(e))
    case Panic => Panic
  }

  /** `get` as it was evidently meant to behave: the same read, decoded with
      the checked decoder, so a record shorter than its header announces is
      a format error instead of a panic. */
  function GetChecked(st: DiskStore, key: seq<uint8>): (r: Outcome<Option<seq<uint8>>, DatabaseError>)
    ensures key !in st.keyDir <==> r == Ok(None)
    ensures !r.Panic?
    ensures r.Err? && r.error.Format? ==> r.error.format.ShortKey? || r.error.format.ShortValue?
  {
    if key !in st.keyDir then Ok(None)
    else
      var entry := st.keyDir[key];
      var end := entry.valueOffset + HEADER_SIZE + entry.totalSize;
      if end > |st.log| then Err(Io(UnexpectedEof))
      else ValueOf(RecordDecodeChecked(st.log[entry.valueOffset..end]))
  }

  /** The corrected `get` returns what `get` returns wherever that one does
      not panic, and a short key or value error exactly where it panics. */
  lemma GetCheckedAgrees(st: DiskStore, key: seq<uint8>)
    ensures !Get(st, key).Panic? ==> GetChecked(st, key) == Get(st, key)
    ensures Get(st, key).Panic? <==>
              GetChecked(st, key).Err? && GetChecked(st, key).error.Format?
  {
  }

  /** `set`: the new entry points at the current write position, the
      directory entry for `key` is replaced, the write position advances by
      the record's encoded length and the encoded record is appended. The
      sum of the key and value lengths must fit in a `u32`. */
  function Set(st: DiskStore, key: seq<uint8>, value: seq<uint8>, now: uint32): (st': DiskStore)
    requires |key| + |value| < UINT32_LIMIT
    ensures key in st'.keyDir
    ensures st'.keyDir[key] == KeyEntry(|key| + |value|, st.writePosition, now)
    ensures st'.keyDir.Keys == st.keyDir.Keys + {key}
    ensures forall k :: k in st.keyDir && k != key ==> st'.keyDir[k] == st.keyDir[k]
    ensures st'.writePosition == st.writePosition + HEADER_SIZE + |key| + |value|
    ensures |st'.log| == |st.log| + HEADER_SIZE + |key| + |value|
    ensures st.writePosition == |st.log| ==> st'.writePosition == |st'.log|
  {
    var record := RecordNew(now, key, value);
    var entry := KeyEntry(TotalSize(record.header), st.writePosition, now);
    DiskStore(st.log + RecordEncode(record), st.keyDir[key := entry], st.writePosition + HEADER_SIZE + entry.totalSize)
  }

  /** What `set` writes: the old log is kept as it is and followed by
      exactly the record `Record::new` builds, which decodes back to the
      key, the value and the timestamp. */
  lemma SetAppendsRecord(st: DiskStore, key: seq<uint8>, value: seq<uint8>, now: uint32)
    requires |key| + |value| < UINT32_LIMIT
    ensures Set(st, key, value, now).log == st.log + RecordEncode(RecordNew(now, key, value))
    ensures Set(st, key, value, now).log[..|st.log|] == st.log
    ensures RecordDecode(Set(st, key, value, now).log[|st.log|..]) == Ok(RecordNew(now, key, value))
  {
    var log' := Set(st, key, value, now).log;
    NewRecordRoundTrip(now, key, value);
    assert log'[|st.log|..] == RecordEncode(RecordNew(now, key, value));
  }
}
