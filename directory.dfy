/** Directory records of a PMTiles version 2 archive (src/reader.rs, `load_directory`).

    A directory is a run of fixed 17-byte records:
      zoom (1 byte, top bit = leaf flag) | x (3) | y (3) | tile offset (6) | tile length (4).
    Decoding sorts each record into the "regular" map or, when the flag is set, the
    "leaves" map, and remembers the raw zoom byte of the first flagged record. */
module Directory {
  import opened Bytes

  datatype Key = Key(z: u8, x: u32, y: u32)
  datatype Entry = Entry(offset: u64, length: u32)
  type Dir = map<Key, Entry>

  /** One decoded 17-byte record, before it is routed into a map. */
  datatype Record = Record(z: u8, x: u32, y: u32, entry: Entry)

  /** The two maps and the leaf level that `load_directory` returns. */
  datatype Decoded = Decoded(regular: Dir, leaves: Dir, leafLevel: u8)

  /** The masks `0b10000000` and `0b01111111` applied to a record's zoom byte. */
  const LEAF_FLAG: bv8 := 0x80
  const ZOOM_MASK: bv8 := 0x7F

  /** A byte as a bit vector, built up one increment at a time. */
  function ToBv8(a: u8): (b: bv8)
    ensures b as int == a
  {
    if a == 0 then 0 else ToBv8(a - 1) + 1
  }

  /** Bitwise and of a byte with a mask (`z & mask`). */
  function And8(a: u8, mask: bv8): u8 {
    (ToBv8(a) & mask) as int
  }

  /** The top bit of the zoom byte is set: the record points at a leaf directory
      fragment rather than at tile bytes. */
  predicate IsLeafPointer(z: u8) {
    z >= 0x80
  }

  /** The zoom with the leaf flag cleared (its low seven bits). */
  function ClearFlag(z: u8): u8 {
    z % 0x80
  }

  /** The reader's test `z & 0b10000000 > 0` is `IsLeafPointer`. */
  lemma FlagMaskIsLeafPointer(z: u8)
    ensures And8(z, LEAF_FLAG) > 0 <==> IsLeafPointer(z)
  {
    var b := ToBv8(z);
    assert (b & 0x80 == 0) <==> b < 0x80;
  }

  /** The reader's `z & 0b01111111` is `ClearFlag`. */
  lemma ZoomMaskIsClearFlag(z: u8)
    ensures And8(z, ZOOM_MASK) == ClearFlag(z)
  {
    if z < 0x80 {
      ZoomMaskBelowFlag(z);
    } else {
      ZoomMaskAboveFlag(z);
    }
  }

  lemma ZoomMaskBelowFlag(z: u8)
    requires z < 0x80
    ensures And8(z, ZOOM_MASK) == z
  {
    var b := ToBv8(z);
    assert b < 0x80;
    assert b & 0x7F == b;
  }

  lemma ZoomMaskAboveFlag(z: u8)
    requires z >= 0x80
    ensures And8(z, ZOOM_MASK) == z - 0x80
  {
    var b := ToBv8(z);
    assert b >= 0x80;
    assert b & 0x7F == b - 0x80;
  }

  /** The zoom byte: `u8::from_le_bytes` of a 1-byte copy. */
  function DecodeZoom(raw: seq<u8>): (z: u8)
    requires |raw| == 1
    ensures z == raw[0]
  {
    FromLe(raw)
  }

  /** x or y: the 3 bytes are copied into positions 1..4 of a zeroed 4-byte word,
      so the value is 256 times the plain little-endian value of the 3 bytes. */
  function DecodeCoord(raw: seq<u8>): (v: u32)
    requires |raw| == 3
    ensures v == 0x100 * (raw[0] as int + 0x100 * raw[1] as int + 0x1_0000 * raw[2] as int)
    ensures v % 0x100 == 0
  {
    var w := Placed(1, raw);
    FromLePlaced(1, raw);
    FromLe3(raw);
    FromLe(w)
  }

  /** The tile offset: the 6 bytes are copied into positions 2..8 of a zeroed
      8-byte word, so the value is 65536 times their plain little-endian value. */
  function DecodeTileOffset(raw: seq<u8>): (v: u64)
    requires |raw| == 6
    ensures v == 0x1_0000 * FromLe(raw)
    ensures v % 0x1_0000 == 0
  {
    var w := Placed(2, raw);
    FromLePlaced(2, raw);
    FromLe(w)
  }

  /** The tile length: a plain little-endian `u32`. */
  function DecodeTileLength(raw: seq<u8>): (v: u32)
    requires |raw| == 4
    ensures v == raw[0] as int + 0x100 * raw[1] as int + 0x1_0000 * raw[2] as int + 0x100_0000 * raw[3] as int
  {
    FromLe4(raw);
    FromLe(raw)
  }

  /** The record held in 17 bytes. */
  function DecodeRecord(raw: seq<u8>): (r: Record)
    requires |raw| == 17
    ensures r.z == raw[0]
    ensures r.x == 0x100 * (raw[1] as int + 0x100 * raw[2] as int + 0x1_0000 * raw[3] as int)
    ensures r.y == 0x100 * (raw[4] as int + 0x100 * raw[5] as int + 0x1_0000 * raw[6] as int)
    ensures r.entry.offset == 0x1_0000 * FromLe(raw[7..13])
    ensures r.entry.length == raw[13] as int + 0x100 * raw[14] as int + 0x1_0000 * raw[15] as int + 0x100_0000 * raw[16] as int
    ensures r.x % 0x100 == 0 && r.y % 0x100 == 0 && r.entry.offset % 0x1_0000 == 0
  {
    Record(
      DecodeZoom(raw[0..1]),
      DecodeCoord(raw[1..4]),
      DecodeCoord(raw[4..7]),
      Entry(DecodeTileOffset(raw[7..13]), DecodeTileLength(raw[13..17])))
  }

  /** A record is its five field decodes, taken from the slices `load_directory` copies. */
  lemma RecordFields(raw: seq<u8>)
    requires |raw| == 17
    ensures DecodeRecord(raw) == Record(DecodeZoom(raw[0..1]), DecodeCoord(raw[1..4]), DecodeCoord(raw[4..7]),
                                        Entry(DecodeTileOffset(raw[7..13]), DecodeTileLength(raw[13..17])))
  {
  }

  /** The key under which a record is stored: flag cleared for leaf pointers. */
  function KeyOf(r: Record): (k: Key)
    ensures k.z < 0x80 && k.x == r.x && k.y == r.y
    ensures IsLeafPointer(r.z) ==> k.z == r.z - 0x80
    ensures !IsLeafPointer(r.z) ==> k.z == r.z
  {
    if IsLeafPointer(r.z) then Key(ClearFlag(r.z), r.x, r.y) else Key(r.z, r.x, r.y)
  }

  /** `load_directory`'s loop body: insert one record into the map its flag selects,
      and take its raw zoom as the leaf level if none has been seen yet. */
  function Route(d: Decoded, r: Record): (d': Decoded)
    ensures IsLeafPointer(r.z) ==> d'.regular == d.regular && d'.leaves == d.leaves[KeyOf(r) := r.entry]
    ensures !IsLeafPointer(r.z) ==> d'.leaves == d.leaves && d'.regular == d.regular[KeyOf(r) := r.entry]
    ensures d.leafLevel != 0 ==> d'.leafLevel == d.leafLevel
    ensures d'.leafLevel == 0 <==> d.leafLevel == 0 && !IsLeafPointer(r.z)
    ensures d'.leafLevel != d.leafLevel ==> d'.leafLevel == r.z
  {
    if IsLeafPointer(r.z) then
      Decoded(d.regular, d.leaves[KeyOf(r) := r.entry], if d.leafLevel == 0 then r.z else d.leafLevel)
    else
      Decoded(d.regular[KeyOf(r) := r.entry], d.leaves, d.leafLevel)
  }

  /** The record run [offset, offset + 17 * n) can be read without a slicing panic.
      With n == 0 nothing is sliced, so any offset is fine. */
  predicate InBounds(buf: seq<u8>, offset: nat, n: nat) {
    n == 0 || offset + 17 * n <= |buf|
  }


  /** The 17 bytes of record i of the run starting at `offset`. */
  function RecordBytes(buf: seq<u8>, offset: nat, i: nat): (raw: seq<u8>)
    requires offset + 17 * i + 17 <= |buf|
    ensures |raw| == 17
  {
    buf[offset + 17 * i..offset + 17 * i + 17]
  }

  /** The n records of the run starting at `offset`, in buffer order. */
  function Records(buf: seq<u8>, offset: nat, n: nat): (recs: seq<Record>)
    requires InBounds(buf, offset, n)
    ensures |recs| == n
    decreases n
  {
    if n == 0 then []
    else Records(buf, offset, n - 1) + [DecodeRecord(RecordBytes(buf, offset, n - 1))]
  }

  /** Record i is decoded from bytes [offset + 17 * i, offset + 17 * i + 17) and
      from no other bytes. */
  lemma {:induction false} RecordsAt(buf: seq<u8>, offset: nat, n: nat, i: nat)
    requires InBounds(buf, offset, n) && i < n
    ensures Records(buf, offset, n)[i] == DecodeRecord(RecordBytes(buf, offset, i))
  {
    var prev := Records(buf, offset, n - 1);
    assert Records(buf, offset, n) == prev + [DecodeRecord(RecordBytes(buf, offset, n - 1))];
    if i < n - 1 {
      RecordsAt(buf, offset, n - 1, i);
    }
  }

  lemma RecordsSnoc(buf: seq<u8>, offset: nat, n: nat)
    requires offset + 17 * (n + 1) <= |buf|
    ensures Records(buf, offset, n + 1) == Records(buf, offset, n) + [DecodeRecord(RecordBytes(buf, offset, n))]
  {
  }

  /** Records routed in order, starting from two empty maps and leaf level 0. */
  function RouteAll(recs: seq<Record>): (d: Decoded)
    ensures d.leafLevel == 0 || IsLeafPointer(d.leafLevel)
    ensures recs == [] ==> d == Decoded(map[], map[], 0)
    decreases |recs|
  {
    if recs == [] then Decoded(map[], map[], 0)
    else Route(RouteAll(recs[..|recs| - 1]), recs[|recs| - 1])
  }

  /** Routing one more record is one more loop iteration. */
  lemma RouteAllSnoc(recs: seq<Record>, r: Record)
    ensures RouteAll(recs + [r]) == Route(RouteAll(recs), r)
  {
    assert (recs + [r])[..|recs|] == recs;
  }

  /** Every key of `m` has a zoom without the leaf flag. */
  predicate ZoomsBelowFlag(m: Dir) {
    forall k :: k in m ==> k.z < 0x80
  }

  /** What `load_directory(buf, offset, n)` returns. */
  function DecodeDirectory(buf: seq<u8>, offset: nat, n: nat): (d: Decoded)
    requires InBounds(buf, offset, n)
    ensures |d.regular| + |d.leaves| <= n
    ensures ZoomsBelowFlag(d.regular) && ZoomsBelowFlag(d.leaves)
    ensures d.leafLevel == 0 <==> d.leaves == map[]
    ensures d.leafLevel == 0 || d.leafLevel >= 0x80
  {
    var recs := Records(buf, offset, n);
    DirectorySizes(recs);
    KeyZoomsBelowFlag(recs);
    LeafLevelIsFirstFlaggedZoom(recs);
    RouteAll(recs)
  }

  /** Decoding one more record of the run routes it into the directory decoded so far. */
  lemma DecodeDirectoryStep(buf: seq<u8>, offset: nat, n: nat)
    requires offset + 17 * (n + 1) <= |buf|
    ensures DecodeDirectory(buf, offset, n + 1)
         == Route(DecodeDirectory(buf, offset, n), DecodeRecord(RecordBytes(buf, offset, n)))
  {
    RecordsSnoc(buf, offset, n);
    RouteAllSnoc(Records(buf, offset, n), DecodeRecord(RecordBytes(buf, offset, n)));
  }

  /** One routing step written with the loop's bit masks instead of `IsLeafPointer`
      and `ClearFlag`. */
  lemma MaskedRoute(d: Decoded, r: Record)
    ensures And8(r.z, LEAF_FLAG) > 0 ==>
      Route(d, r) == Decoded(d.regular, d.leaves[Key(And8(r.z, ZOOM_MASK), r.x, r.y) := r.entry],
                             if d.leafLevel == 0 then r.z else d.leafLevel)
    ensures And8(r.z, LEAF_FLAG) == 0 ==>
      Route(d, r) == Decoded(d.regular[Key(r.z, r.x, r.y) := r.entry], d.leaves, d.leafLevel)
  {
    FlagMaskIsLeafPointer(r.z);
    ZoomMaskIsClearFlag(r.z);
  }

  /** `load_directory`: a loop over the records that updates two maps and the leaf level. */
  method LoadDirectory(buf: seq<u8>, offset: nat, numEntries: nat)
    returns (directory: Dir, leaves: Dir, leafLevel: u8)
    requires InBounds(buf, offset, numEntries)
    ensures Decoded(directory, leaves, leafLevel) == DecodeDirectory(buf, offset, numEntries)
  {
    directory, leaves, leafLevel := map[], map[], 0;
    for i := 0 to numEntries
      invariant Decoded(directory, leaves, leafLevel) == DecodeDirectory(buf, offset, i)
    {
      var raw := RecordBytes(buf, offset, i);
      var z := DecodeZoom(raw[0..1]);
      var x := DecodeCoord(raw[1..4]);
      var y := DecodeCoord(raw[4..7]);
      var tileOff := DecodeTileOffset(raw[7..13]);
      var tileLen := DecodeTileLength(raw[13..17]);
      var entry := Entry(tileOff, tileLen);
      RecordFields(raw);
      DecodeDirectoryStep(buf, offset, i);
      MaskedRoute(Decoded(directory, leaves, leafLevel), Record(z, x, y, entry));
      if And8(z, LEAF_FLAG) > 0 {
        if leafLevel == 0 {
          leafLevel := z;
        }
        leaves := leaves[Key(And8(z, ZOOM_MASK), x, y) := entry];
      } else {
        directory := directory[Key(z, x, y) := entry];
      }
    }
  }

  // ---------------------------------------------------------------------------
  // Properties of the decoded directory
  // ---------------------------------------------------------------------------

  /** The decoded records depend only on the bytes of their run. */
  lemma DecodeDirectoryFrame(buf: seq<u8>, buf': seq<u8>, offset: nat, n: nat)
    requires InBounds(buf, offset, n) && InBounds(buf', offset, n)
    requires n > 0 ==> buf[offset..offset + 17 * n] == buf'[offset..offset + 17 * n]
    ensures Records(buf, offset, n) == Records(buf', offset, n)
    ensures DecodeDirectory(buf, offset, n) == DecodeDirectory(buf', offset, n)
  {
    var recs, recs' := Records(buf, offset, n), Records(buf', offset, n);
    forall i | 0 <= i < n
      ensures recs[i] == recs'[i]
    {
      RecordsAt(buf, offset, n, i);
      RecordsAt(buf', offset, n, i);
      SubSlice(buf, offset, n, i);
      SubSlice(buf', offset, n, i);
    }
  }

  /** The bytes of record i, taken from the run or from the whole buffer. */
  lemma SubSlice(buf: seq<u8>, offset: nat, n: nat, i: nat)
    requires i < n && offset + 17 * n <= |buf|
    ensures RecordBytes(buf, offset, i) == buf[offset..offset + 17 * n][17 * i..17 * i + 17]
  {
    var run := buf[offset..offset + 17 * n];
    var a, b := RecordBytes(buf, offset, i), run[17 * i..17 * i + 17];
    forall j | 0 <= j < 17
      ensures a[j] == b[j]
    {
    }
  }

  /** Every stored key has a zoom below 128: leaf keys because the flag is cleared,
      regular keys because the flag was clear to begin with. */
  lemma {:induction false} KeyZoomsBelowFlag(recs: seq<Record>)
    ensures forall k :: k in RouteAll(recs).regular ==> k.z < 0x80
    ensures forall k :: k in RouteAll(recs).leaves ==> k.z < 0x80
  {
    if recs != [] {
      KeyZoomsBelowFlag(recs[..|recs| - 1]);
    }
  }

  /** Each record adds at most one key to one map, so the two maps together
      hold at most as many keys as there are records. */
  lemma {:induction false} DirectorySizes(recs: seq<Record>)
    ensures |RouteAll(recs).regular| + |RouteAll(recs).leaves| <= |recs|
  {
    if recs != [] {
      DirectorySizes(recs[..|recs| - 1]);
    }
  }

  /** Record i is a leaf pointer and no earlier record is. */
  ghost predicate FirstLeafPointer(recs: seq<Record>, i: int) {
    && 0 <= i < |recs|
    && IsLeafPointer(recs[i].z)
    && forall j :: 0 <= j < i ==> !IsLeafPointer(recs[j].z)
  }

  /** The leaf level is 0 exactly when no record is flagged, and then the leaf map
      is empty; otherwise it is the raw, still flagged, zoom byte of the first
      flagged record, hence at least 128, and the leaf map is not empty. */
  lemma {:induction false} LeafLevelIsFirstFlaggedZoom(recs: seq<Record>)
    ensures var d := RouteAll(recs);
      && (d.leafLevel == 0 <==> forall i :: 0 <= i < |recs| ==> !IsLeafPointer(recs[i].z))
      && (d.leafLevel == 0 <==> d.leaves == map[])
      && (d.leafLevel != 0 ==> d.leafLevel >= 0x80)
      && (d.leafLevel != 0 ==> exists i :: FirstLeafPointer(recs, i) && d.leafLevel == recs[i].z)
  {
    if recs != [] {
      var init, r := recs[..|recs| - 1], recs[|recs| - 1];
      LeafLevelIsFirstFlaggedZoom(init);
      var prev := RouteAll(init);
      if prev.leafLevel != 0 {
        var i :| FirstLeafPointer(init, i) && prev.leafLevel == init[i].z;
        assert FirstLeafPointer(recs, i);
      } else if IsLeafPointer(r.z) {
        assert KeyOf(r) in RouteAll(recs).leaves;
        assert FirstLeafPointer(recs, |recs| - 1);
      }
    }
  }

  /** Every record's key is in the map its flag selects. */
  lemma {:induction false} EveryRecordIsRouted(recs: seq<Record>)
    ensures var d := RouteAll(recs);
      forall i :: 0 <= i < |recs| ==>
        KeyOf(recs[i]) in (if IsLeafPointer(recs[i].z) then d.leaves else d.regular)
  {
    if recs != [] {
      var init := recs[..|recs| - 1];
      EveryRecordIsRouted(init);
      assert forall i :: 0 <= i < |init| ==> recs[i] == init[i];
    }
  }

  /** Record i is routed into the regular map (or, when `leaf`, the leaf map) under
      key k, and no later record is routed to the same map under the same key. */
  ghost predicate LastWriter(recs: seq<Record>, leaf: bool, k: Key, i: int) {
    && 0 <= i < |recs|
    && IsLeafPointer(recs[i].z) == leaf
    && KeyOf(recs[i]) == k
    && forall j :: i < j < |recs| ==> IsLeafPointer(recs[j].z) != leaf || KeyOf(recs[j]) != k
  }

  /** A last writer stays the last writer when a record for another map or another
      key follows. */
  lemma LastWriterExtend(init: seq<Record>, r: Record, leaf: bool, k: Key, i: int)
    requires LastWriter(init, leaf, k, i)
    requires IsLeafPointer(r.z) != leaf || KeyOf(r) != k
    ensures LastWriter(init + [r], leaf, k, i)
  {
    var recs := init + [r];
    forall j | i < j < |recs|
      ensures IsLeafPointer(recs[j].z) != leaf || KeyOf(recs[j]) != k
    {
      if j < |init| {
        assert recs[j] == init[j];
      }
    }
  }

  /** The entry stored in one map under k is that of the last record routed there
      under k: a later record overwrites an earlier one. */
  ghost predicate StoresLastWrite(recs: seq<Record>, m: Dir, leaf: bool) {
    forall k :: k in m ==> exists i :: LastWriter(recs, leaf, k, i) && m[k] == recs[i].entry
  }

  lemma {:induction false} RegularIsLastWrite(recs: seq<Record>)
    ensures StoresLastWrite(recs, RouteAll(recs).regular, false)
  {
    if recs != [] {
      var init, r := recs[..|recs| - 1], recs[|recs| - 1];
      assert recs == init + [r];
      RegularIsLastWrite(init);
      var prev, d := RouteAll(init).regular, RouteAll(recs).regular;
      forall k | k in d
        ensures exists i :: LastWriter(recs, false, k, i) && d[k] == recs[i].entry
      {
        if !IsLeafPointer(r.z) && k == KeyOf(r) {
          assert LastWriter(recs, false, k, |recs| - 1);
        } else {
          var i :| LastWriter(init, false, k, i) && prev[k] == init[i].entry;
          LastWriterExtend(init, r, false, k, i);
        }
      }
    }
  }

  lemma {:induction false} LeavesAreLastWrite(recs: seq<Record>)
    ensures StoresLastWrite(recs, RouteAll(recs).leaves, true)
  {
    if recs != [] {
      var init, r := recs[..|recs| - 1], recs[|recs| - 1];
      assert recs == init + [r];
      LeavesAreLastWrite(init);
      var prev, d := RouteAll(init).leaves, RouteAll(recs).leaves;
      forall k | k in d
        ensures exists i :: LastWriter(recs, true, k, i) && d[k] == recs[i].entry
      {
        if IsLeafPointer(r.z) && k == KeyOf(r) {
          assert LastWriter(recs, true, k, |recs| - 1);
        } else {
          var i :| LastWriter(init, true, k, i) && prev[k] == init[i].entry;
          LastWriterExtend(init, r, true, k, i);
        }
      }
    }
  }
}
