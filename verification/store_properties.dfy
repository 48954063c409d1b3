/** What the store promises across operations: the invariants `set` keeps,
    what `get` returns after a sequence of `set`s, and that the recovery
    scan rebuilds exactly the directory and write position those `set`s
    produced. */
module StoreProperties {
  import opened Bytes
  import opened Outcomes
  import opened Format
  import opened DiskStore

  /** A record whose header matches its payload and whose payload size fits
      the `u32` of a directory entry. */
  ghost predicate Fits(r: Record)
  {
    WellFormed(r) && |r.key| + |r.value| < UINT32_LIMIT
  }

  ghost predicate AllFit(rs: seq<Record>)
  {
    forall i :: 0 <= i < |rs| ==> Fits(rs[i])
  }

  /** The directory entry for record `r` stored at byte `pos`. */
  function EntryFor(r: Record, pos: nat): KeyEntry
    requires Fits(r)
  {
    KeyEntry(|r.key| + |r.value|, pos, r.header.timestamp)
  }

  /** A log made of the given records, back to back. */
  function Concat(rs: seq<Record>): seq<uint8>
  {
    if |rs| == 0 then [] else RecordEncode(rs[0]) + Concat(rs[1..])
  }

  /** Total encoded size of a run of records. */
  function SizeOf(rs: seq<Record>): nat
  {
    if |rs| == 0 then 0 else EncodedSize(rs[0]) + SizeOf(rs[1..])
  }

  /** The directory after inserting each record's entry in log order, the
      first record starting at byte `pos`. */
  function Replay(keyDir: KeyDirectory, pos: nat, rs: seq<Record>): KeyDirectory
    requires AllFit(rs)
    decreases |rs|
  {
    if |rs| == 0 then keyDir
    else Replay(keyDir[rs[0].key := EntryFor(rs[0], pos)], pos + EncodedSize(rs[0]), rs[1..])
  }

  /** A run of records takes as many bytes as their sizes add up to. */
  lemma {:induction false} ConcatLength(rs: seq<Record>)
    ensures |Concat(rs)| == SizeOf(rs)
    decreases |rs|
  {
    if |rs| > 0 {
      ConcatLength(rs[1..]);
    }
  }

  /** Record `i` is the last one written for key `k`. */
  ghost predicate IsLastWrite(rs: seq<Record>, k: seq<uint8>, i: int)
  {
    0 <= i < |rs| && rs[i].key == k && forall j :: i < j < |rs| ==> rs[j].key != k
  }

  // ---------------------------------------------------------------------
  // Store invariants
  // ---------------------------------------------------------------------

  /** The entry for `k` covers whole bytes of the log, and those bytes are a
      record for `k` of the recorded size and timestamp. */
  ghost predicate EntryValid(log: seq<uint8>, k: seq<uint8>, e: KeyEntry)
  {
    var end := e.valueOffset + HEADER_SIZE + e.totalSize;
    && end <= |log|
    && var d := RecordDecode(log[e.valueOffset..end]);
       && d.Ok?
       && d.value.key == k
       && |d.value.key| + |d.value.value| == e.totalSize
       && d.value.header.timestamp == e.timestamp
  }

  /** Every directory entry lies within the log. */
  ghost predicate InBounds(st: DiskStore)
  {
    forall k :: k in st.keyDir ==> st.keyDir[k].valueOffset + HEADER_SIZE + st.keyDir[k].totalSize <= |st.log|
  }

  /** The store invariants: the write position is the end of the log and
      every directory entry describes a record for its key. */
  ghost predicate Valid(st: DiskStore)
  {
    && st.writePosition == |st.log|
    && forall k :: k in st.keyDir ==> EntryValid(st.log, k, st.keyDir[k])
  }

  lemma ValidInBounds(st: DiskStore)
    requires Valid(st)
    ensures InBounds(st)
  {
    forall k | k in st.keyDir
      ensures st.keyDir[k].valueOffset + HEADER_SIZE + st.keyDir[k].totalSize <= |st.log|
    {
      assert EntryValid(st.log, k, st.keyDir[k]);
    }
  }

  /** Appending to the log leaves every slice of the old log as it was. */
  lemma AppendKeepsSlice(log: seq<uint8>, extra: seq<uint8>, lo: nat, hi: nat)
    requires lo <= hi <= |log|
    ensures (log + extra)[lo..hi] == log[lo..hi]
  {
  }

  lemma EmptyValid()
    ensures Open(None) == Ok(Empty) && Valid(Empty)
  {
  }

  /** Appending to the log keeps an entry that was valid before valid. */
  lemma EntryValidAfterAppend(log: seq<uint8>, extra: seq<uint8>, k: seq<uint8>, e: KeyEntry)
    requires EntryValid(log, k, e)
    ensures EntryValid(log + extra, k, e)
  {
    AppendKeepsSlice(log, extra, e.valueOffset, e.valueOffset + HEADER_SIZE + e.totalSize);
  }

  /** The entry `set` creates is valid in the log `set` leaves. */
  lemma NewEntryValid(st: DiskStore, key: seq<uint8>, value: seq<uint8>, now: uint32)
    requires st.writePosition == |st.log|
    requires |key| + |value| < UINT32_LIMIT
    ensures EntryValid(Set(st, key, value, now).log, key, Set(st, key, value, now).keyDir[key])
  {
    var st' := Set(st, key, value, now);
    SetAppendsRecord(st, key, value, now);
    assert st'.log[|st.log|..|st'.log|] == st'.log[|st.log|..];
  }

  /** `set` keeps the invariants. */
  lemma SetPreservesValid(st: DiskStore, key: seq<uint8>, value: seq<uint8>, now: uint32)
    requires Valid(st)
    requires |key| + |value| < UINT32_LIMIT
    ensures Valid(Set(st, key, value, now))
  {
    var st' := Set(st, key, value, now);
    var extra := RecordEncode(RecordNew(now, key, value));
    SetAppendsRecord(st, key, value, now);
    NewEntryValid(st, key, value, now);
    forall k | k in st'.keyDir && k != key
      ensures EntryValid(st'.log, k, st'.keyDir[k])
    {
      EntryValidAfterAppend(st.log, extra, k, st.keyDir[k]);
    }
  }

  /** In a valid store every known key reads back successfully. */
  lemma ValidGetSucceeds(st: DiskStore, key: seq<uint8>)
    requires Valid(st) && key in st.keyDir
    ensures Get(st, key).Ok? && Get(st, key).value.Some?
  {
    assert EntryValid(st.log, key, st.keyDir[key]);
  }

  /** `set(k, v)` then `get(k)` returns `v`, an empty `v` included. */
  lemma GetAfterSet(st: DiskStore, key: seq<uint8>, value: seq<uint8>, now: uint32)
    requires st.writePosition == |st.log|
    requires |key| + |value| < UINT32_LIMIT
    ensures Get(Set(st, key, value, now), key) == Ok(Some(value))
  {
    var st' := Set(st, key, value, now);
    var r := RecordNew(now, key, value);
    assert st'.log == st.log + RecordEncode(r);
    assert st'.log[|st.log|..|st'.log|] == RecordEncode(r) + [];
    RecordRoundTrip(r, []);
  }

  /** `set(k, v)` leaves `get` of every other key as it was. */
  lemma GetOtherAfterSet(st: DiskStore, key: seq<uint8>, value: seq<uint8>, now: uint32, other: seq<uint8>)
    requires InBounds(st)
    requires |key| + |value| < UINT32_LIMIT
    requires other != key
    ensures Get(Set(st, key, value, now), other) == Get(st, other)
  {
    var st' := Set(st, key, value, now);
    if other in st.keyDir {
      var e := st.keyDir[other];
      var end := e.valueOffset + HEADER_SIZE + e.totalSize;
      AppendKeepsSlice(st.log, RecordEncode(RecordNew(now, key, value)), e.valueOffset, end);
      assert Get(st', other) == ReadValue(st'.log, e);
    }
  }

  /** Last write wins: a second `set` of the same key replaces the value,
      also when the new value is empty. */
  lemma LastWriteWins(st: DiskStore, key: seq<uint8>, v1: seq<uint8>, v2: seq<uint8>, t1: uint32, t2: uint32)
    requires st.writePosition == |st.log|
    requires |key| + |v1| < UINT32_LIMIT && |key| + |v2| < UINT32_LIMIT
    ensures Get(Set(Set(st, key, v1, t1), key, v2, t2), key) == Ok(Some(v2))
  {
    GetAfterSet(Set(st, key, v1, t1), key, v2, t2);
  }

  // ---------------------------------------------------------------------
  // Recovery over a concatenation of records
  // ---------------------------------------------------------------------

  /** A slice of a slice is a slice of the whole. */
  lemma SliceOfSlice(log: seq<uint8>, pos: nat, e: seq<uint8>, lo: nat, hi: nat)
    requires pos + |e| <= |log| && log[pos..pos + |e|] == e
    requires lo <= hi <= |e|
    ensures log[pos + lo..pos + hi] == e[lo..hi]
  {
    assert forall i :: lo <= i < hi ==> log[pos + i] == e[i];
  }

  /** The recovery step at an encoded record finds that record's key and
      entry, and continues right after the record. */
  lemma ReadOverRecord(log: seq<uint8>, pos: nat, r: Record)
    requires Fits(r)
    requires pos + EncodedSize(r) <= |log|
    requires log[pos..pos + EncodedSize(r)] == RecordEncode(r)
    ensures ReadEntry(log, pos) == Found(r.key, EntryFor(r, pos), pos + EncodedSize(r))
  {
    var e := RecordEncode(r);
    RecordLayout(r);
    SliceOfSlice(log, pos, e, 0, HEADER_SIZE);
    SliceOfSlice(log, pos, e, HEADER_SIZE, HEADER_SIZE + |r.key|);
    HeaderRoundTrip(r.header);
  }

  /** A step that finds a record inserts its entry and scans on from the
      next record. */
  lemma ScanStep(log: seq<uint8>, pos: nat, keyDir: KeyDirectory, key: seq<uint8>, entry: KeyEntry, next: nat)
    requires ReadEntry(log, pos) == Found(key, entry, next)
    ensures InitKeyDir(log, pos, keyDir) == InitKeyDir(log, next, keyDir[key := entry])
  {
  }

  /** A run of records laid out from `pos` is its first record followed by
      the rest of the run. */
  lemma ConcatHead(log: seq<uint8>, pos: nat, rs: seq<Record>)
    requires |rs| > 0
    requires pos + |Concat(rs)| <= |log|
    requires log[pos..pos + |Concat(rs)|] == Concat(rs)
    ensures |Concat(rs)| == EncodedSize(rs[0]) + |Concat(rs[1..])|
    ensures log[pos..pos + EncodedSize(rs[0])] == RecordEncode(rs[0])
    ensures log[pos + EncodedSize(rs[0])..pos + |Concat(rs)|] == Concat(rs[1..])
  {
    var c := Concat(rs);
    var e := RecordEncode(rs[0]);
    assert c == e + Concat(rs[1..]);
    assert c[..|e|] == e && c[|e|..] == Concat(rs[1..]);
    SliceOfSlice(log, pos, c, 0, |e|);
    SliceOfSlice(log, pos, c, |e|, |c|);
  }

  lemma AllFitTail(rs: seq<Record>)
    requires |rs| > 0 && AllFit(rs)
    ensures AllFit(rs[1..])
  {
  }

  /** The first record of a run laid out from `pos` is read by the step at
      `pos`, and the rest of the run is laid out right after it. */
  lemma ReadFirst(log: seq<uint8>, pos: nat, rs: seq<Record>)
    requires |rs| > 0 && AllFit(rs)
    requires pos + |Concat(rs)| <= |log|
    requires log[pos..pos + |Concat(rs)|] == Concat(rs)
    ensures ReadEntry(log, pos) == Found(rs[0].key, EntryFor(rs[0], pos), pos + EncodedSize(rs[0]))
    ensures pos + EncodedSize(rs[0]) + |Concat(rs[1..])| == pos + |Concat(rs)|
    ensures log[pos + EncodedSize(rs[0])..pos + |Concat(rs)|] == Concat(rs[1..])
  {
    ConcatHead(log, pos, rs);
    ReadOverRecord(log, pos, rs[0]);
  }

  /** The scan finds the given records one after the other from `pos`. */
  ghost predicate RecordsAt(log: seq<uint8>, pos: nat, rs: seq<Record>)
    requires AllFit(rs)
    decreases |rs|
  {
    |rs| == 0
    || (&& ReadEntry(log, pos) == Found(rs[0].key, EntryFor(rs[0], pos), pos + EncodedSize(rs[0]))
        && RecordsAt(log, pos + EncodedSize(rs[0]), rs[1..]))
  }

  /** The scan finds every record of a run laid out from `pos`. */
  lemma {:induction false} ConcatRecordsAt(log: seq<uint8>, pos: nat, rs: seq<Record>)
    requires AllFit(rs)
    requires pos + |Concat(rs)| <= |log|
    requires log[pos..pos + |Concat(rs)|] == Concat(rs)
    ensures RecordsAt(log, pos, rs)
    decreases |rs|
  {
    if |rs| > 0 {
      ReadFirst(log, pos, rs);
      AllFitTail(rs);
      ConcatRecordsAt(log, pos + EncodedSize(rs[0]), rs[1..]);
    }
  }

  /** Scanning over records the scan finds replays their entries in order:
      the scan from `pos` ends as the scan from `end`, the byte after the
      records, with directory `dir`, their replay. */
  lemma {:induction false} ScanRecordsTo(log: seq<uint8>, pos: nat, keyDir: KeyDirectory, rs: seq<Record>,
                                         end: nat, dir: KeyDirectory)
    requires AllFit(rs)
    requires RecordsAt(log, pos, rs)
    requires end == pos + SizeOf(rs) && dir == Replay(keyDir, pos, rs)
    ensures InitKeyDir(log, pos, keyDir) == InitKeyDir(log, end, dir)
    decreases |rs|
  {
    if |rs| > 0 {
      var next := keyDir[rs[0].key := EntryFor(rs[0], pos)];
      var mid := pos + EncodedSize(rs[0]);
      ScanStep(log, pos, keyDir, rs[0].key, EntryFor(rs[0], pos), mid);
      AllFitTail(rs);
      ScanRecordsTo(log, mid, next, rs[1..], end, dir);
    }
  }

  /** Scanning over a run of encoded records replays their entries in order. */
  lemma ScanConcat(log: seq<uint8>, pos: nat, keyDir: KeyDirectory, rs: seq<Record>)
    requires AllFit(rs)
    requires pos + |Concat(rs)| <= |log|
    requires log[pos..pos + |Concat(rs)|] == Concat(rs)
    ensures InitKeyDir(log, pos, keyDir)
            == InitKeyDir(log, pos + |Concat(rs)|, Replay(keyDir, pos, rs))
  {
    ConcatRecordsAt(log, pos, rs);
    ConcatLength(rs);
    ScanRecordsTo(log, pos, keyDir, rs, pos + |Concat(rs)|, Replay(keyDir, pos, rs));
  }

  /** The keys of a replayed directory: those already present and those of
      the records. */
  lemma {:induction false} ReplayKeys(keyDir: KeyDirectory, pos: nat, rs: seq<Record>)
    requires AllFit(rs)
    ensures Replay(keyDir, pos, rs).Keys == keyDir.Keys + set i | 0 <= i < |rs| :: rs[i].key
    decreases |rs|
  {
    if |rs| > 0 {
      var rest := rs[1..];
      assert forall i :: 0 <= i < |rest| ==> rest[i] == rs[i + 1];
      ReplayKeys(keyDir[rs[0].key := EntryFor(rs[0], pos)], pos + EncodedSize(rs[0]), rest);
      var all := set i | 0 <= i < |rs| :: rs[i].key;
      var tail := set i | 0 <= i < |rest| :: rest[i].key;
      assert all == {rs[0].key} + tail by {
        forall k | k in all ensures k in {rs[0].key} + tail {
          var i :| 0 <= i < |rs| && rs[i].key == k;
          if i > 0 { assert rest[i - 1].key == k; }
        }
      }
    }
  }

  /** A key the records never mention keeps its old entry. */
  lemma {:induction false} ReplayUntouched(keyDir: KeyDirectory, pos: nat, rs: seq<Record>, k: seq<uint8>)
    requires AllFit(rs)
    requires forall i :: 0 <= i < |rs| ==> rs[i].key != k
    ensures k in Replay(keyDir, pos, rs) <==> k in keyDir
    ensures k in keyDir ==> Replay(keyDir, pos, rs)[k] == keyDir[k]
    decreases |rs|
  {
    if |rs| > 0 {
      assert forall i :: 0 <= i < |rs[1..]| ==> rs[1..][i] == rs[i + 1];
      ReplayUntouched(keyDir[rs[0].key := EntryFor(rs[0], pos)], pos + EncodedSize(rs[0]), rs[1..], k);
    }
  }

  /** A key's replayed entry is that of its last record, at the offset where
      that record starts. */
  lemma {:induction false} ReplayLastWrite(keyDir: KeyDirectory, pos: nat, rs: seq<Record>, i: nat)
    requires AllFit(rs)
    requires i < |rs| && IsLastWrite(rs, rs[i].key, i)
    ensures rs[i].key in Replay(keyDir, pos, rs)
    ensures Replay(keyDir, pos, rs)[rs[i].key] == EntryFor(rs[i], pos + SizeOf(rs[..i]))
    decreases |rs|
  {
    var rest := rs[1..];
    assert forall j :: 0 <= j < |rest| ==> rest[j] == rs[j + 1];
    var dir' := keyDir[rs[0].key := EntryFor(rs[0], pos)];
    var pos' := pos + EncodedSize(rs[0]);
    if i == 0 {
      ReplayUntouched(dir', pos', rest, rs[0].key);
    } else {
      ReplayLastWrite(dir', pos', rest, i - 1);
      assert rs[..i][1..] == rest[..i - 1];
    }
  }

  /** Recovering a log that is a concatenation of records succeeds with the
      replay of the records as directory and the end of the log as write
      position. */
  lemma OpenConcat(rs: seq<Record>)
    requires AllFit(rs)
    ensures Open(Some(Concat(rs))) == Ok(DiskStore(Concat(rs), Replay(map[], 0, rs), |Concat(rs)|))
  {
    var log := Concat(rs);
    assert log[0..|log|] == log;
    ScanConcat(log, 0, map[], rs);
  }

  /** Recovering a log that is a concatenation of records succeeds, puts the
      write position at the end of the log, knows exactly the records' keys,
      and maps each key to the offset of its last record. */
  lemma RecoverConcatenation(rs: seq<Record>)
    requires AllFit(rs)
    ensures Open(Some(Concat(rs))).Ok?
    ensures Open(Some(Concat(rs))).value.writePosition == |Concat(rs)|
    ensures Open(Some(Concat(rs))).value.keyDir.Keys == set i | 0 <= i < |rs| :: rs[i].key
    ensures forall i :: 0 <= i < |rs| && IsLastWrite(rs, rs[i].key, i) ==>
              Open(Some(Concat(rs))).value.keyDir[rs[i].key] == EntryFor(rs[i], SizeOf(rs[..i]))
  {
    OpenConcat(rs);
    ReplayKeys(map[], 0, rs);
    ReplayLastWrites(rs);
  }

  /** Every key of a replay from an empty directory at offset 0 maps to its
      last record's entry. */
  lemma ReplayLastWrites(rs: seq<Record>)
    requires AllFit(rs)
    ensures forall i :: 0 <= i < |rs| && IsLastWrite(rs, rs[i].key, i) ==>
              && rs[i].key in Replay(map[], 0, rs)
              && Replay(map[], 0, rs)[rs[i].key] == EntryFor(rs[i], SizeOf(rs[..i]))
  {
    forall i | 0 <= i < |rs| && IsLastWrite(rs, rs[i].key, i)
      ensures rs[i].key in Replay(map[], 0, rs)
      ensures Replay(map[], 0, rs)[rs[i].key] == EntryFor(rs[i], SizeOf(rs[..i]))
    {
      ReplayLastWriteFromStart(map[], rs, i);
    }
  }

  /** `ReplayLastWrite` for records that start the log, at offset 0. Its
      callers pass the empty directory; stating the fact for any directory
      keeps the literal `map[]` out of `ReplayLastWrite`'s proof context,
      which would otherwise make their proofs much more expensive. */
  lemma ReplayLastWriteFromStart(keyDir: KeyDirectory, rs: seq<Record>, i: nat)
    requires AllFit(rs)
    requires i < |rs| && IsLastWrite(rs, rs[i].key, i)
    ensures rs[i].key in Replay(keyDir, 0, rs)
    ensures Replay(keyDir, 0, rs)[rs[i].key] == EntryFor(rs[i], SizeOf(rs[..i]))
  {
    ReplayLastWrite(keyDir, 0, rs, i);
  }

  /** Recovery stops cleanly at a record boundary with nothing left, and
      fails with a short-header error when 1 to 15 bytes are left. */
  lemma RecoverTrailingBytes(rs: seq<Record>, tail: seq<uint8>)
    requires AllFit(rs)
    requires |tail| < HEADER_SIZE
    ensures |tail| == 0 ==> Open(Some(Concat(rs) + tail)).Ok?
    ensures |tail| > 0 ==> Open(Some(Concat(rs) + tail)) == Err(Format(ShortHeader(|tail|)))
  {
    ScanTrailing(rs, tail, map[]);
  }

  /** `RecoverTrailingBytes` for the scan from any starting directory. */
  lemma ScanTrailing(rs: seq<Record>, tail: seq<uint8>, keyDir: KeyDirectory)
    requires AllFit(rs)
    requires |tail| < HEADER_SIZE
    ensures |tail| == 0 ==> InitKeyDir(Concat(rs) + tail, 0, keyDir).Ok?
    ensures |tail| > 0 ==> InitKeyDir(Concat(rs) + tail, 0, keyDir) == Err(Format(ShortHeader(|tail|)))
  {
    var log := Concat(rs) + tail;
    var end := |Concat(rs)|;
    assert log[0..end] == Concat(rs);
    ScanConcat(log, 0, keyDir, rs);
    ScanEnd(log, end, Replay(keyDir, 0, rs));
  }

  /** At the end of the log the scan stops cleanly; with 1 to 15 bytes left
      it fails with a short header. */
  lemma ScanEnd(log: seq<uint8>, pos: nat, keyDir: KeyDirectory)
    requires pos <= |log| < pos + HEADER_SIZE
    ensures pos == |log| ==> InitKeyDir(log, pos, keyDir) == Ok((keyDir, pos))
    ensures pos < |log| ==> InitKeyDir(log, pos, keyDir) == Err(Format(ShortHeader(|log| - pos)))
  {
  }

  /** A value cut short at the end of the log is not noticed: recovery
      succeeds with the write position past the end of the log, and a key
      written afterwards cannot be read back, because its entry points past
      the appended record. */
  lemma TruncatedValueAccepted()
    ensures var log := HeaderEncode(Header(0, 0, 1, 10)) + [7];
            && Open(Some(log)) == Ok(DiskStore(log, map[[7] := KeyEntry(11, 0, 0)], 27))
            && Get(Set(Open(Some(log)).value, [8], [], 0), [8]) == Err(Io(UnexpectedEof))
  {
    var h := Header(0, 0, 1, 10);
    var log := HeaderEncode(h) + [7];
    var dir := map[[7] := KeyEntry(11, 0, 0)];
    assert ReadEntry(log, 0) == Found([7], KeyEntry(11, 0, 0), 27) by {
      HeaderRoundTrip(h);
      assert log[0..HEADER_SIZE] == HeaderEncode(h);
      assert log[HEADER_SIZE..HEADER_SIZE + 1] == [7];
    }
    assert InitKeyDir(log, 27, dir) == Ok((dir, 27));
    assert InitKeyDir(log, 0, map[]) == Ok((dir, 27));
    var st := DiskStore(log, dir, 27);
    assert Open(Some(log)) == Ok(st);
    var st' := Set(st, [8], [], 0);
    assert st'.keyDir[[8]] == KeyEntry(1, 27, 0);
    assert |st'.log| == 17 + 17;
  }

  /** The store that opening the truncated log of `TruncatedValueAccepted`
      gives, after two more `set`s, of keys `[8]` and `[9]`, each with twenty
      copies of `fill` as its value. */
  function TwoSetsAfterTruncation(fill: uint8): DiskStore
  {
    var log := HeaderEncode(Header(0, 0, 1, 10)) + [7];
    var st := DiskStore(log, map[[7] := KeyEntry(11, 0, 0)], 27);
    Set(Set(st, [8], seq(20, _ => fill), 0), [9], seq(20, _ => fill), 0)
  }

  /** Where the bytes of the two records land: `[8]`'s record starts at byte
      17, and its value fills bytes 34 to 53. */
  lemma TwoSetsLayout(fill: uint8)
    ensures var st := TwoSetsAfterTruncation(fill);
            && |st.log| == 91
            && st.keyDir[[8]] == KeyEntry(21, 27, 0)
            && forall k :: 34 <= k < 54 ==> st.log[k] == fill
  {
    var st := TwoSetsAfterTruncation(fill);
    var log := HeaderEncode(Header(0, 0, 1, 10)) + [7];
    var v := seq(20, _ => fill);
    var e8 := RecordEncode(RecordNew(0, [8], v));
    var e9 := RecordEncode(RecordNew(0, [9], v));
    assert |log| == 17 && |e8| == 37;
    assert st.log == log + e8 + e9;
    assert e8 == HeaderEncode(RecordNew(0, [8], v).header) + [8] + v;
    assert forall k :: 34 <= k < 54 ==> st.log[k] == e8[k - 17] == v[k - 34];
  }

  /** A header read at byte 27 of such a log takes its key and value sizes
      from bytes 35 to 42, all inside the value. */
  lemma FilledHeader(log: seq<uint8>, fill: uint8)
    requires |log| == 91
    requires forall k :: 34 <= k < 54 ==> log[k] == fill
    ensures HeaderDecode(log[27..43]).keySize == U32FromBytes([fill, fill, fill, fill])
    ensures HeaderDecode(log[27..43]).valueSize == U32FromBytes([fill, fill, fill, fill])
  {
    var d := log[27..43];
    assert forall j :: 8 <= j < 16 ==> d[j] == log[27 + j] == fill;
    assert d[8..12] == [d[8], d[9], d[10], d[11]];
    assert d[12..16] == [d[12], d[13], d[14], d[15]];
  }

  /** After the truncated log of `TruncatedValueAccepted` is opened, the entry
      of key `[8]` points ten bytes into its own record, which `set` appended
      at byte 17. Once a later record fills the gap, `get` of `[8]` decodes a
      header made of the tail of `[8]`'s header, its key and its value: the
      sizes it reads are four copies of `fill` each. */
  lemma MisalignedRead(fill: uint8)
    ensures var st := TwoSetsAfterTruncation(fill);
            && |st.log| == 91
            && st.keyDir[[8]] == KeyEntry(21, 27, 0)
            && Get(st, [8]) == ValueOf(RecordDecode(st.log[27..64]))
            && var h := HeaderDecode(st.log[27..43]);
               h.keySize == U32FromBytes([fill, fill, fill, fill])
               && h.valueSize == U32FromBytes([fill, fill, fill, fill])
  {
    var st := TwoSetsAfterTruncation(fill);
    TwoSetsLayout(fill);
    FilledHeader(st.log, fill);
    assert st.log[27..64][..HEADER_SIZE] == st.log[27..43];
  }

  /** With zero-filled values, `get` of the key written after a truncated
      value quietly returns an empty value instead of the twenty bytes that
      were set. */
  lemma TruncatedValueMisreads()
    ensures Get(TwoSetsAfterTruncation(0), [8]) == Ok(Some([]))
  {
    MisalignedRead(0);
    var st := TwoSetsAfterTruncation(0);
    var data := st.log[27..64];
    var h := HeaderDecode(data[..HEADER_SIZE]);
    assert data[..HEADER_SIZE] == st.log[27..43];
    assert U32FromBytes([0, 0, 0, 0]) == 0;
    assert h.keySize == 0 && h.valueSize == 0;
    assert RecordDecode(data) == Ok(Record(h, [], []));
  }

  /** With values of 255s, the same read declares a key of 2^32 - 1 bytes:
      `get` as written panics, and the corrected `get` reports the short key. */
  lemma TruncatedValuePanics()
    ensures Get(TwoSetsAfterTruncation(255), [8]) == Panic
    ensures GetChecked(TwoSetsAfterTruncation(255), [8]) == Err(Format(ShortKey(21, 0xFFFF_FFFF)))
  {
    MisalignedRead(255);
    var st := TwoSetsAfterTruncation(255);
    var data := st.log[27..64];
    var h := HeaderDecode(data[..HEADER_SIZE]);
    assert data[..HEADER_SIZE] == st.log[27..43];
    assert U32FromBytes([255, 255, 255, 255]) == 0xFFFF_FFFF;
    assert h.keySize == 0xFFFF_FFFF;
    assert |data[HEADER_SIZE..]| == 21;
    assert RecordDecode(data) == Panic;
    assert RecordDecodeChecked(data) == Err(ShortKey(21, 0xFFFF_FFFF));
    assert GetChecked(st, [8]) == ValueOf(RecordDecodeChecked(data));
  }

  // ---------------------------------------------------------------------
  // Recovery that checks the value is present
  // ---------------------------------------------------------------------

  /** The checked scan rejects the truncated log that the scan as written
      accepts. */
  lemma TruncatedValueRejected()
    ensures var log := HeaderEncode(Header(0, 0, 1, 10)) + [7];
            OpenChecked(Some(log)) == Err(Io(UnexpectedEof))
  {
  }

  /** `ScanRecordsTo` for the checked scan, over records that end inside the
      log. */
  lemma {:induction false} ScanRecordsToChecked(log: seq<uint8>, pos: nat, keyDir: KeyDirectory, rs: seq<Record>,
                                                end: nat, dir: KeyDirectory)
    requires AllFit(rs)
    requires RecordsAt(log, pos, rs)
    requires end == pos + SizeOf(rs) && end <= |log| && dir == Replay(keyDir, pos, rs)
    ensures InitKeyDirChecked(log, pos, keyDir) == InitKeyDirChecked(log, end, dir)
    decreases |rs|
  {
    if |rs| > 0 {
      var entry := EntryFor(rs[0], pos);
      var next := keyDir[rs[0].key := entry];
      var mid := pos + EncodedSize(rs[0]);
      assert ReadEntryChecked(log, pos) == Found(rs[0].key, entry, mid);
      assert InitKeyDirChecked(log, pos, keyDir) == InitKeyDirChecked(log, mid, next);
      AllFitTail(rs);
      ScanRecordsToChecked(log, mid, next, rs[1..], end, dir);
    }
  }

  /** The checked scan accepts a log made of whole records and rebuilds their
      replay. */
  lemma ScanConcatChecked(rs: seq<Record>, keyDir: KeyDirectory)
    requires AllFit(rs)
    ensures InitKeyDirChecked(Concat(rs), 0, keyDir) == Ok((Replay(keyDir, 0, rs), |Concat(rs)|))
  {
    var log := Concat(rs);
    assert log[0..|log|] == log;
    ConcatRecordsAt(log, 0, rs);
    ConcatLength(rs);
    ScanRecordsToChecked(log, 0, keyDir, rs, |log|, Replay(keyDir, 0, rs));
  }

  /** The checked recovery still reopens every file that `set`s write,
      giving back the very same store. */
  lemma ReopenAfterSetsChecked(calls: seq<SetCall>)
    requires CallsFit(calls)
    ensures OpenChecked(Some(Apply(Empty, calls).log)) == Ok(Apply(Empty, calls))
  {
    ApplyAppendsRecords(Empty, calls);
    ApplyKeepsPosition(Empty, calls);
    ApplyReplaysRecords(Empty, calls);
    var rs := Records(calls);
    assert Apply(Empty, calls).log == Concat(rs);
    ScanConcatChecked(rs, map[]);
  }

  // ---------------------------------------------------------------------
  // Sequences of `set`s, and reopening
  // ---------------------------------------------------------------------

  /** The arguments of one `set` call. */
  datatype SetCall = SetCall(key: seq<uint8>, value: seq<uint8>, now: uint32)

  ghost predicate CallsFit(calls: seq<SetCall>)
  {
    forall i :: 0 <= i < |calls| ==> |calls[i].key| + |calls[i].value| < UINT32_LIMIT
  }

  /** The store after the given `set` calls, first to last. */
  function Apply(st: DiskStore, calls: seq<SetCall>): DiskStore
    requires CallsFit(calls)
    decreases |calls|
  {
    if |calls| == 0 then st
    else Apply(Set(st, calls[0].key, calls[0].value, calls[0].now), calls[1..])
  }

  /** Call `i` is the last `set` of key `k`. */
  ghost predicate IsLastCall(calls: seq<SetCall>, k: seq<uint8>, i: int)
  {
    0 <= i < |calls| && calls[i].key == k && forall j :: i < j < |calls| ==> calls[j].key != k
  }

  /** `set`s keep the store's invariants. */
  lemma {:induction false} ApplyPreservesValid(st: DiskStore, calls: seq<SetCall>)
    requires CallsFit(calls)
    requires Valid(st)
    ensures Valid(Apply(st, calls))
    decreases |calls|
  {
    if |calls| > 0 {
      var c := calls[0];
      SetPreservesValid(st, c.key, c.value, c.now);
      ApplyPreservesValid(Set(st, c.key, c.value, c.now), calls[1..]);
    }
  }

  /** The records a run of `set` calls appends, in call order. */
  function Records(calls: seq<SetCall>): (rs: seq<Record>)
    ensures |rs| == |calls|
  {
    if |calls| == 0 then []
    else [RecordNew(calls[0].now, calls[0].key, calls[0].value)] + Records(calls[1..])
  }

  lemma {:induction false} RecordsFit(calls: seq<SetCall>)
    requires CallsFit(calls)
    ensures AllFit(Records(calls))
    decreases |calls|
  {
    if |calls| > 0 {
      RecordsFit(calls[1..]);
      var rs := Records(calls);
      assert forall i :: 1 <= i < |rs| ==> rs[i] == Records(calls[1..])[i - 1];
    }
  }

  /** The bytes of a run of calls' records: the first record's, then the
      rest's. */
  lemma ConcatRecordsHead(calls: seq<SetCall>)
    requires |calls| > 0 && CallsFit(calls)
    ensures Concat(Records(calls))
            == RecordEncode(RecordNew(calls[0].now, calls[0].key, calls[0].value)) + Concat(Records(calls[1..]))
  {
    assert Records(calls)[1..] == Records(calls[1..]);
  }

  /** A run of `set`s appends exactly the encodings of its records. */
  lemma {:induction false} ApplyAppendsRecords(st: DiskStore, calls: seq<SetCall>)
    requires CallsFit(calls)
    ensures Apply(st, calls).log == st.log + Concat(Records(calls))
    decreases |calls|
  {
    if |calls| > 0 {
      var c := calls[0];
      var e := RecordEncode(RecordNew(c.now, c.key, c.value));
      var tail := Concat(Records(calls[1..]));
      assert Apply(st, calls).log == (st.log + e) + tail by {
        SetAppendsRecord(st, c.key, c.value, c.now);
        ApplyAppendsRecords(Set(st, c.key, c.value, c.now), calls[1..]);
      }
      ConcatRecordsHead(calls);
      assert (st.log + e) + tail == st.log + (e + tail);
    }
  }

  /** A run of `set`s started with the write position at the end of the log
      leaves it at the new end. */
  lemma {:induction false} ApplyKeepsPosition(st: DiskStore, calls: seq<SetCall>)
    requires CallsFit(calls)
    requires st.writePosition == |st.log|
    ensures Apply(st, calls).writePosition == |Apply(st, calls).log|
    decreases |calls|
  {
    if |calls| > 0 {
      var c := calls[0];
      ApplyKeepsPosition(Set(st, c.key, c.value, c.now), calls[1..]);
    }
  }

  /** The directory a run of `set`s leaves is the replay of its records from
      the write position it started at. */
  lemma {:induction false} ApplyReplaysRecords(st: DiskStore, calls: seq<SetCall>)
    requires CallsFit(calls)
    ensures AllFit(Records(calls))
    ensures Apply(st, calls).keyDir == Replay(st.keyDir, st.writePosition, Records(calls))
    decreases |calls|
  {
    RecordsFit(calls);
    if |calls| > 0 {
      var c := calls[0];
      var r := RecordNew(c.now, c.key, c.value);
      var st1 := Set(st, c.key, c.value, c.now);
      assert st1.keyDir == st.keyDir[r.key := EntryFor(r, st.writePosition)];
      assert st1.writePosition == st.writePosition + EncodedSize(r);
      ApplyReplaysRecords(st1, calls[1..]);
      assert Records(calls)[1..] == Records(calls[1..]);
    }
  }

  /** Reopening the file written by any sequence of `set`s on a new store
      gives back that very store: same log, same directory, same write
      position. */
  lemma ReopenAfterSets(calls: seq<SetCall>)
    requires CallsFit(calls)
    ensures Open(Some(Apply(Empty, calls).log)) == Ok(Apply(Empty, calls))
  {
    ApplyAppendsRecords(Empty, calls);
    ApplyKeepsPosition(Empty, calls);
    ApplyReplaysRecords(Empty, calls);
    var rs := Records(calls);
    var log := Concat(rs);
    assert Apply(Empty, calls).log == log;
    assert log[0..|log|] == log;
    ScanConcat(log, 0, map[], rs);
  }

  /** After a run of `set`s, a key that none of them wrote reads as before. */
  lemma {:induction false} GetAfterSetsUntouched(st: DiskStore, calls: seq<SetCall>, k: seq<uint8>)
    requires CallsFit(calls)
    requires Valid(st)
    requires forall i :: 0 <= i < |calls| ==> calls[i].key != k
    ensures Get(Apply(st, calls), k) == Get(st, k)
    decreases |calls|
  {
    if |calls| > 0 {
      var c := calls[0];
      SetPreservesValid(st, c.key, c.value, c.now);
      ValidInBounds(st);
      GetOtherAfterSet(st, c.key, c.value, c.now, k);
      GetAfterSetsUntouched(Set(st, c.key, c.value, c.now), calls[1..], k);
    }
  }

  /** After a run of `set`s, a key reads as the value of its last `set`. */
  lemma {:induction false} GetAfterSetsLast(st: DiskStore, calls: seq<SetCall>, i: nat)
    requires CallsFit(calls)
    requires Valid(st)
    requires i < |calls| && IsLastCall(calls, calls[i].key, i)
    ensures Get(Apply(st, calls), calls[i].key) == Ok(Some(calls[i].value))
    decreases |calls|
  {
    var c := calls[0];
    var st1 := Set(st, c.key, c.value, c.now);
    SetPreservesValid(st, c.key, c.value, c.now);
    if i == 0 {
      GetAfterSet(st, c.key, c.value, c.now);
      GetAfterSetsUntouched(st1, calls[1..], c.key);
    } else {
      GetAfterSetsLast(st1, calls[1..], i - 1);
    }
  }

  /** Persistence across reopen: after any sequence of `set`s on a new store
      and a reopen, each written key reads as its last value and every other
      key is not found. */
  lemma PersistenceAcrossReopen(calls: seq<SetCall>, k: seq<uint8>)
    requires CallsFit(calls)
    ensures Open(Some(Apply(Empty, calls).log)).Ok?
    ensures forall i :: IsLastCall(calls, k, i) ==>
              Get(Open(Some(Apply(Empty, calls).log)).value, k) == Ok(Some(calls[i].value))
    ensures (forall i :: 0 <= i < |calls| ==> calls[i].key != k) ==>
              Get(Open(Some(Apply(Empty, calls).log)).value, k) == Ok(None)
  {
    ReopenAfterSets(calls);
    forall i | IsLastCall(calls, k, i)
      ensures Get(Apply(Empty, calls), k) == Ok(Some(calls[i].value))
    {
      GetAfterSetsLast(Empty, calls, i);
    }
    if forall i :: 0 <= i < |calls| ==> calls[i].key != k {
      GetAfterSetsUntouched(Empty, calls, k);
    }
  }
}
