/** The archive reader (src/reader.rs, `Reader`): header fields, construction over
    the mapped archive bytes, and the two-level tile lookup.

    Every panic of the source (a failed `assert_eq!`, an out-of-range slice, u8
    subtraction underflow, u32 shift overflow, u64 addition overflow) is an
    explicit `Err` outcome here; a tile that is not there is `Ok(None)`. */
module ArchiveReader {
  import opened Bytes
  import opened Directory

  datatype Fault =
    | BadMagic          // `assert_eq!` on the magic bytes failed
    | Truncated         // a header slice reaches past the end of the archive
    | OutOfBounds       // a directory run or a tile slice reaches past the end
    | SubtractOverflow  // `z - leaf_level` in u8 with z < leaf_level
    | ShiftOverflow     // `1 << level_diff` in u32 with level_diff >= 32
    | AddOverflow       // `offset + length` in u64 overflows

  datatype Option<T> = None | Some(value: T)
  datatype Result<T> = Ok(value: T) | Err(fault: Fault)

  /** `0x4D50u16`, whose little-endian bytes are "PM". */
  const MAGIC: u16 := 0x4D50
  const U64_LIMIT: nat := 0x1_0000_0000_0000_0000

  /** The reader's state. It is built once by `Open` and never changed.
      `mmap` stands for the memory-mapped archive file. */
  datatype Reader = Reader(
    mmap: seq<u8>,
    metadataLen: nat,
    rootEntriesLen: nat,
    rootDir: Dir,
    leaves: Dir,
    leavesLen: nat,
    leafLevel: u8)

  // ---------------------------------------------------------------------------
  // Header
  // ---------------------------------------------------------------------------

  /** `0x4D50u16.to_le_bytes()`. */
  function MagicBytes(): (m: seq<u8>)
    ensures m == [0x50, 0x4D]
  {
    ToLe(MAGIC, 2)
  }

  /** Metadata length: little-endian u32 in bytes 4..8. */
  function ReadMetadataLen(mmap: seq<u8>): (v: u32)
    requires |mmap| >= 8
    ensures v == mmap[4] as int + 0x100 * mmap[5] as int + 0x1_0000 * mmap[6] as int + 0x100_0000 * mmap[7] as int
  {
    FromLe4(mmap[4..8]);
    FromLe(mmap[4..8])
  }

  /** Root directory entry count: little-endian u16 in bytes 8..10. */
  function ReadRootEntriesLen(mmap: seq<u8>): (v: u16)
    requires |mmap| >= 10
    ensures v == mmap[8] as int + 0x100 * mmap[9] as int
  {
    FromLe2(mmap[8..10]);
    FromLe(mmap[8..10])
  }

  /** `get_version`: little-endian u16 in bytes 2..4. Every reader has at least
      ten bytes, since `Open` reads bytes 8..10. */
  function GetVersion(rd: Reader): (v: u16)
    requires |rd.mmap| >= 4
    ensures v == rd.mmap[2] as int + 0x100 * rd.mmap[3] as int
  {
    FromLe2(rd.mmap[2..4]);
    FromLe(rd.mmap[2..4])
  }

  /** The header can be read and the root directory run lies in the archive. */
  ghost predicate Openable(mmap: seq<u8>)
    ensures Openable(mmap) ==> |mmap| >= 10 && mmap[0] == 0x50 && mmap[1] == 0x4D
    ensures Openable(mmap) && ReadRootEntriesLen(mmap) > 0 ==>
      ReadMetadataLen(mmap) + 17 * ReadRootEntriesLen(mmap) <= |mmap|
  {
    && |mmap| >= 10
    && mmap[0..2] == [0x50, 0x4D]
    && InBounds(mmap, ReadMetadataLen(mmap), ReadRootEntriesLen(mmap))
  }

  /** `rd` is the reader that construction over `mmap` yields: the header fields
      are read from their fixed positions, and the root directory is decoded
      starting at byte `metadataLen` (not 10 + metadataLen). */
  ghost predicate Opened(mmap: seq<u8>, rd: Reader)
    ensures Opened(mmap, rd) ==> |rd.mmap| >= 10 && rd.leavesLen <= rd.rootEntriesLen
  {
    && Openable(mmap)
    && rd.mmap == mmap
    && rd.metadataLen == ReadMetadataLen(mmap)
    && rd.rootEntriesLen == ReadRootEntriesLen(mmap)
    && Decoded(rd.rootDir, rd.leaves, rd.leafLevel) == DecodeDirectory(mmap, rd.metadataLen, rd.rootEntriesLen)
    && rd.leavesLen == |rd.leaves|
  }

  /** `Reader::new` after the file is mapped. */
  method Open(mmap: seq<u8>) returns (r: Result<Reader>)
    ensures |mmap| < 2 ==> r == Err(Truncated)
    ensures |mmap| >= 2 && mmap[0..2] != [0x50, 0x4D] ==> r == Err(BadMagic)
    ensures |mmap| >= 2 && mmap[0..2] == [0x50, 0x4D] && |mmap| < 10 ==> r == Err(Truncated)
    ensures |mmap| >= 10 && mmap[0..2] == [0x50, 0x4D] && !Openable(mmap) ==> r == Err(OutOfBounds)
    ensures r.Ok? <==> Openable(mmap)
    ensures r.Ok? ==> Opened(mmap, r.value)
  {
    if |mmap| < 2 {
      return Err(Truncated);
    }
    if mmap[0..2] != MagicBytes() {
      return Err(BadMagic);
    }
    if |mmap| < 10 {
      return Err(Truncated);
    }
    var rootEntriesLen := ReadRootEntriesLen(mmap);
    var metadataLen := ReadMetadataLen(mmap);
    if !InBounds(mmap, metadataLen, rootEntriesLen) {
      return Err(OutOfBounds);
    }
    var rootDir, leaves, leafLevel := LoadDirectory(mmap, metadataLen, rootEntriesLen);
    r := Ok(Reader(mmap, metadataLen, rootEntriesLen, rootDir, leaves, |leaves|, leafLevel));
  }

  /** What every constructed reader satisfies: its maps hold at most
      `rootEntriesLen` keys, every key has a zoom below 128, and the leaf level is
      0 when there are no leaves and at least 128 (the flag is kept) otherwise. */
  lemma OpenedReaderShape(mmap: seq<u8>, rd: Reader)
    requires Opened(mmap, rd)
    ensures |rd.rootDir| + rd.leavesLen <= rd.rootEntriesLen
    ensures forall k :: k in rd.rootDir ==> k.z < 0x80
    ensures forall k :: k in rd.leaves ==> k.z < 0x80
    ensures rd.leavesLen == 0 <==> rd.leafLevel == 0
    ensures rd.leavesLen > 0 ==> rd.leafLevel >= 0x80
  {
    var recs := Records(mmap, rd.metadataLen, rd.rootEntriesLen);
    DirectorySizes(recs);
    KeyZoomsBelowFlag(recs);
    LeafLevelIsFirstFlaggedZoom(recs);
  }

  // ---------------------------------------------------------------------------
  // Lookup
  // ---------------------------------------------------------------------------

  /** The directory entry's bytes lie in the archive and `offset + length` fits in u64. */
  predicate Fits(mmap: seq<u8>, e: Entry) {
    e.offset + e.length < U64_LIMIT && e.offset + e.length <= |mmap|
  }

  /** `&mmap[offset as usize..(offset + length as u64) as usize]`. */
  function EntrySlice(mmap: seq<u8>, e: Entry): (r: Result<Option<seq<u8>>>)
    ensures r.Ok? <==> Fits(mmap, e)
    ensures r.Ok? ==> r.value.Some? && |r.value.value| == e.length
    ensures r.Ok? ==> forall i :: 0 <= i < e.length ==> r.value.value[i] == mmap[e.offset + i]
    ensures e.offset + e.length >= U64_LIMIT ==> r == Err(AddOverflow)
    ensures e.offset + e.length < U64_LIMIT && e.offset + e.length > |mmap| ==> r == Err(OutOfBounds)
  {
    var end := e.offset + e.length;
    if end >= U64_LIMIT then Err(AddOverflow)
    else if end > |mmap| then Err(OutOfBounds)
    else Ok(Some(mmap[e.offset..end]))
  }

  /** `a / (1 << d)` in u32 for d < 32: the index of the block of 2^d values
      that contains a. */
  function DivPow2(a: u32, d: nat): (q: u32)
    requires d < 32
    ensures q * Pow2(d) <= a < (q + 1) * Pow2(d)
    ensures d == 0 ==> q == a
  {
    var p := Pow2(d);
    var q := a / p;
    DivBounds(a, p, q);
    q
  }

  /** Integer division brackets its dividend. */
  lemma DivBounds(a: nat, p: nat, q: int)
    requires p >= 1 && q == a / p
    ensures 0 <= q <= a
    ensures q * p <= a < (q + 1) * p
  {
  }

  /** The leaf routing key `(leaf_level, x / (1 << d), y / (1 << d))` with
      d = z - leaf_level: the cell at the leaf level whose 2^d by 2^d block of
      tiles at zoom z contains (x, y). */
  function LeafKey(leafLevel: u8, z: u8, x: u32, y: u32): (k: Key)
    requires leafLevel <= z < leafLevel + 32
    ensures k.z == leafLevel
    ensures k.x * Pow2(z - leafLevel) <= x < (k.x + 1) * Pow2(z - leafLevel)
    ensures k.y * Pow2(z - leafLevel) <= y < (k.y + 1) * Pow2(z - leafLevel)
    ensures z == leafLevel ==> k == Key(leafLevel, x, y)
  {
    Key(leafLevel, DivPow2(x, z - leafLevel), DivPow2(y, z - leafLevel))
  }

  /** `length as usize / 17`: the number of whole records in a fragment of
      `length` bytes; any remainder is silently dropped. */
  function FragmentCount(length: u32): (n: nat)
    ensures 17 * n <= length < 17 * n + 17
    ensures length % 17 == 0 <==> 17 * n == length
  {
    length / 17
  }

  /** The leaf probe of `get` finds a fragment pointer: the root directory misses,
      leaves exist, the level difference is a valid shift and the leaf key is stored. */
  predicate LeafHit(rd: Reader, z: u8, x: u32, y: u32) {
    && Key(z, x, y) !in rd.rootDir
    && rd.leavesLen > 0
    && rd.leafLevel <= z < rd.leafLevel + 32
    && LeafKey(rd.leafLevel, z, x, y) in rd.leaves
  }

  /** `Reader::get`: probe the root directory; on a miss with leaves present,
      probe the leaf routing map at the leaf level, decode the fragment it points
      at and probe that for the exact key. */
  function Get(rd: Reader, z: u8, x: u32, y: u32): (r: Result<Option<seq<u8>>>)
    ensures Key(z, x, y) in rd.rootDir ==> r == EntrySlice(rd.mmap, rd.rootDir[Key(z, x, y)])
    ensures Key(z, x, y) in rd.rootDir && Fits(rd.mmap, rd.rootDir[Key(z, x, y)]) ==>
      var e := rd.rootDir[Key(z, x, y)]; r == Ok(Some(rd.mmap[e.offset..e.offset + e.length]))
    ensures Key(z, x, y) !in rd.rootDir && rd.leavesLen == 0 ==> r == Ok(None)
    ensures r == Err(SubtractOverflow) <==> Key(z, x, y) !in rd.rootDir && rd.leavesLen > 0 && z < rd.leafLevel
    ensures r == Err(ShiftOverflow) <==>
      Key(z, x, y) !in rd.rootDir && rd.leavesLen > 0 && rd.leafLevel <= z && z - rd.leafLevel >= 32
    ensures (&& Key(z, x, y) !in rd.rootDir && rd.leavesLen > 0 && rd.leafLevel <= z < rd.leafLevel + 32
             && LeafKey(rd.leafLevel, z, x, y) !in rd.leaves) ==> r == Ok(None)
    ensures LeafHit(rd, z, x, y) ==>
      var ptr := rd.leaves[LeafKey(rd.leafLevel, z, x, y)];
      var count := FragmentCount(ptr.length);
      && (!InBounds(rd.mmap, ptr.offset, count) ==> r == Err(OutOfBounds))
      && (InBounds(rd.mmap, ptr.offset, count) ==>
            var fragment := DecodeDirectory(rd.mmap, ptr.offset, count).regular;
            && (Key(z, x, y) in fragment ==> r == EntrySlice(rd.mmap, fragment[Key(z, x, y)]))
            && (Key(z, x, y) !in fragment ==> r == Ok(None)))
  {
    var key := Key(z, x, y);
    if key in rd.rootDir then
      EntrySlice(rd.mmap, rd.rootDir[key])
    else if rd.leavesLen > 0 then
      if z < rd.leafLevel then Err(SubtractOverflow)
      else if z - rd.leafLevel >= 32 then Err(ShiftOverflow)
      else
        var leaf := LeafKey(rd.leafLevel, z, x, y);
        if leaf !in rd.leaves then Ok(None)
        else
          var ptr := rd.leaves[leaf];
          var count := FragmentCount(ptr.length);
          if !InBounds(rd.mmap, ptr.offset, count) then Err(OutOfBounds)
          else
            var fragment := DecodeDirectory(rd.mmap, ptr.offset, count).regular;
            if key in fragment then EntrySlice(rd.mmap, fragment[key]) else Ok(None)
    else
      Ok(None)
  }

  // ---------------------------------------------------------------------------
  // Properties of lookup on a constructed reader
  // ---------------------------------------------------------------------------

  /** The leaf probe uses the flagged leaf level (at least 128) as its zoom, while
      every stored leaf key has its flag cleared (zoom below 128): the probe never
      matches. */
  lemma LeafProbeNeverMatches(mmap: seq<u8>, rd: Reader, z: u8, x: u32, y: u32)
    requires Opened(mmap, rd)
    requires rd.leavesLen > 0 && rd.leafLevel <= z < rd.leafLevel + 32
    ensures LeafKey(rd.leafLevel, z, x, y) !in rd.leaves
  {
    OpenedReaderShape(mmap, rd);
  }

  /** On a constructed reader a lookup that misses the root directory never finds
      a tile: it reports not-found, or it faults on `z - leaf_level` or on the
      shift. In particular, once leaves exist, every root miss at a zoom below 128
      faults on the subtraction. */
  lemma RootMissNeverFindsTile(mmap: seq<u8>, rd: Reader, z: u8, x: u32, y: u32)
    requires Opened(mmap, rd)
    requires Key(z, x, y) !in rd.rootDir
    ensures Get(rd, z, x, y) in {Ok(None), Err(SubtractOverflow), Err(ShiftOverflow)}
    ensures rd.leavesLen > 0 && z < 0x80 ==> Get(rd, z, x, y) == Err(SubtractOverflow)
  {
    OpenedReaderShape(mmap, rd);
    if rd.leavesLen > 0 && rd.leafLevel <= z < rd.leafLevel + 32 {
      LeafProbeNeverMatches(mmap, rd, z, x, y);
    }
  }

  /** A record with zoom 5, x bytes 01 00 00, y bytes 02 00 00, tile offset 0
      and tile length 4. */
  function ExampleRecordBytes(): (raw: seq<u8>)
    ensures |raw| == 17
  {
    [5, 1, 0, 0, 2, 0, 0, 0, 0, 0, 0, 0, 0, 4, 0, 0, 0]
  }

  /** A 31-byte archive: magic "PM", version 3, metadata length 10, one root
      entry, the example record at byte 10 (= metadata length), and four more
      bytes. */
  function ExampleArchive(): (mmap: seq<u8>)
    ensures |mmap| == 31
  {
    [0x50, 0x4D, 3, 0, 10, 0, 0, 0, 1, 0] + ExampleRecordBytes() + [0xDE, 0xAD, 0xBE, 0xEF]
  }

  /** The coordinate bytes 1 and 2 are read as 256 and 512. */
  lemma ExampleRecordDecodes()
    ensures DecodeRecord(ExampleRecordBytes()) == Record(5, 256, 512, Entry(0, 4))
  {
    var raw := ExampleRecordBytes();
    assert raw[0..1] == [5];
    assert raw[1..4] == [1, 0, 0];
    assert raw[4..7] == [2, 0, 0];
    assert raw[7..13] == [0, 0, 0, 0, 0, 0];
    assert raw[13..17] == [4, 0, 0, 0];
    assert FromLe([0, 0, 0, 0, 0, 0]) == 0;
  }

  /** The example's header bytes. */
  lemma ExampleHeader()
    ensures var m := ExampleArchive();
      && m[0..2] == [0x50, 0x4D] && m[0..4] == [0x50, 0x4D, 3, 0]
      && m[2] == 3 && m[3] == 0
      && m[4] == 10 && m[5] == 0 && m[6] == 0 && m[7] == 0
      && m[8] == 1 && m[9] == 0
  {
  }

  /** The example's root directory holds the one record, under (5, 256, 512). */
  lemma ExampleRootDirectory()
    ensures DecodeDirectory(ExampleArchive(), 10, 1) == Decoded(map[Key(5, 256, 512) := Entry(0, 4)], map[], 0)
  {
    var mmap := ExampleArchive();
    assert mmap[10..27] == ExampleRecordBytes();
    ExampleRecordDecodes();
    RecordsSnoc(mmap, 10, 0);
    RouteAllSnoc([], Record(5, 256, 512, Entry(0, 4)));
  }

  /** A reader opened on the example has that root directory and no leaves. */
  lemma ExampleReader(rd: Reader)
    requires Opened(ExampleArchive(), rd)
    ensures rd.rootDir == map[Key(5, 256, 512) := Entry(0, 4)]
    ensures rd.leavesLen == 0
  {
    ExampleHeader();
    assert rd.metadataLen == 10 && rd.rootEntriesLen == 1;
    ExampleRootDirectory();
  }

  /** On the example archive the lookup that the record's bytes spell out,
      (5, 1, 2), misses, while (5, 256, 512) returns bytes 0..4 of the archive. */
  lemma ExampleLookups(rd: Reader)
    requires Opened(ExampleArchive(), rd)
    ensures GetVersion(rd) == 3
    ensures Get(rd, 5, 256, 512) == Ok(Some([0x50, 0x4D, 3, 0]))
    ensures Get(rd, 5, 1, 2) == Ok(None)
  {
    ExampleHeader();
    ExampleReader(rd);
    assert Key(5, 1, 2) !in rd.rootDir;
  }
}
