# PMTiles version 2 reader, modelled in Dafny

This project models the core of a reader for PMTiles version 2 archives
(magic `"PM"`), the single file `src/reader.rs`. An archive is one byte
stream:

- a 10-byte header: magic, version, metadata length, root entry count;
- a JSON metadata blob;
- a root directory of 17-byte records;
- leaf directory fragments and tile payloads, found through the directories.

The reader maps the file once and decodes the root directory. It then answers
`get(z, x, y)`. First it probes the root directory. On a miss it probes a leaf
routing map and decodes the fragment that map points at.

The model has three modules, one per concern of the source file:

- `Bytes` (`bytes.dfy`): unsigned word types and little-endian conversion.
  This is `u{N}::from_le_bytes` and `to_le_bytes`, plus the copy of a short
  slice into part of a zeroed array (`Placed`).
- `Directory` (`directory.dfy`): directory keys, entries and records.
  - The field decodes: `DecodeZoom`, `DecodeCoord`, `DecodeTileOffset`,
    `DecodeTileLength`, with the positional shift the source applies.
  - Routing one record into the regular or the leaf map (`Route`).
  - The specification `DecodeDirectory` = `RouteAll(Records(...))`.
  - `LoadDirectory`, the imperative loop of `load_directory`, proved equal to
    that specification. The lemmas about the specification are stated over the
    record sequence.
- `ArchiveReader` (`reader.dfy`): the `Reader` state and the header readers.
  - `Open` (`Reader::new` once the file is mapped) calls `LoadDirectory`.
  - `Get` (`Reader::get`) and `GetVersion` are functions over the reader.
  - Properties of lookups on a constructed reader, and a worked 31-byte example.

The reader's fields are set once in `new` and never changed, so `Reader` is a
datatype. `Get` is a pure read over it. At the level of `Open` and `Get`, every
Rust panic reachable from `new` or `get` becomes an explicit `Err(Fault)`
result:

- the magic `assert_eq!` fails;
- a header slice, a directory run or a tile slice lies outside the archive;
- `z - leaf_level` underflows in u8;
- `1 << level_diff` overflows in u32;
- `offset + length` overflows in u64.

A tile that is absent is `Ok(None)`. The helpers under `Open` and `Get` keep
their panic as a precondition, and the caller tests it before the call:

- `ReadMetadataLen` requires `|mmap| >= 8` (the `mmap[4..8]` slice), and
  `ReadRootEntriesLen` requires `|mmap| >= 10` (the `mmap[8..10]` slice).
  `Open` returns `Err(Truncated)` first when the archive is shorter than 10
  bytes.
- `RecordBytes`, `Records`, `DecodeDirectory` and `LoadDirectory` require their
  record run to lie in the buffer (`InBounds`). `Open` and `Get` test that
  first and return `Err(OutOfBounds)` otherwise. With zero records,
  `load_directory` slices nothing, so `InBounds` accepts any offset then.
- `LeafKey` and `DivPow2` require `leaf_level <= z < leaf_level + 32`, so that
  neither `z - leaf_level` nor `1 << level_diff` overflows. `Get` returns
  `Err(SubtractOverflow)` or `Err(ShiftOverflow)` first otherwise.
- `GetVersion` requires `|rd.mmap| >= 4`, the `mmap[2..4]` slice of
  `get_version`. It is the one public operation that keeps a precondition.
  Every reader `Open` builds has at least 10 bytes (`Opened`), so the
  requirement holds for every reader the model can construct.

Where the code differs from the PMTiles version 2 file layout, the model follows
the code. That layout puts the root directory at byte `10 + metadata length`, and
puts plain little-endian integers in the entry fields:

- The root directory is decoded from byte `metadata_len`, not from
  `10 + metadata_len` (`Opened`, `Open`).
- x and y are 256 times the plain little-endian value of their 3 bytes. The
  tile offset is 65536 times the value of its 6 bytes. So a tile offset is
  always a multiple of 65536 (`DecodeCoord`, `DecodeTileOffset`,
  `ExampleLookups`).
- `leaf_level` keeps the flag bit (so it is at least 128), while leaf keys have
  the flag cleared (zoom below 128). The leaf probe therefore never matches.
  A root miss never yields a tile. Once leaves exist, a root miss at zoom below
  128 faults on `z - leaf_level` (`LeafProbeNeverMatches`,
  `RootMissNeverFindsTile`).
- A fragment length that is not a multiple of 17 is not reported as
  malformed. The remainder is dropped (`FragmentCount`).
- A zoom below the leaf level does not give "not found". It panics, which is
  `Err(SubtractOverflow)` here.

## Model

| member | source | states |
|---|---|---|
| Bytes.FromLe | src/reader.rs:55-57 | the little-endian value of n bytes is below 256^n, so it fits the n-byte word |
| Bytes.ToLe | src/reader.rs:78 | `to_le_bytes`: n bytes whose little-endian value is v |
| Bytes.ToLeFromLe | src/reader.rs:78 | re-encoding decoded bytes gives the same bytes: the two conversions are inverse |
| Bytes.Placed | src/reader.rs:43-53 | the zero-filled word with `bs` copied into positions `lead..`: its length is `lead` plus the length of `bs`, the first `lead` bytes are 0 and the rest is `bs` |
| Bytes.FromLePlaced | src/reader.rs:43-53 | copying bytes after `lead` zero bytes multiplies their little-endian value by 256^lead |
| Directory.FlagMaskIsLeafPointer | src/reader.rs:61 | `z & 0b10000000 > 0` holds exactly when z >= 128 |
| Directory.ZoomMaskIsClearFlag | src/reader.rs:65 | `z & 0b01111111` is z mod 128 |
| Directory.DecodeZoom | src/reader.rs:39-41 | the zoom is the record's first byte |
| Directory.DecodeCoord | src/reader.rs:43-49 | x (or y) = 256 * (b1 + 256 * b2 + 65536 * b3), hence a multiple of 256 |
| Directory.DecodeTileOffset | src/reader.rs:51-53 | tile offset = 65536 * little-endian value of its 6 bytes, hence a multiple of 65536 |
| Directory.DecodeTileLength | src/reader.rs:55-57 | tile length = b13 + 256 * b14 + 65536 * b15 + 2^24 * b16 |
| Directory.DecodeRecord | src/reader.rs:37-60 | in record byte positions: z = b0; x = 256 * (b1 + 256 * b2 + 65536 * b3); y = 256 * (b4 + 256 * b5 + 65536 * b6); offset = 65536 * the little-endian value of b7..b12; length = b13 + 256 * b14 + 65536 * b15 + 2^24 * b16; so x and y are multiples of 256 and the offset a multiple of 65536 |
| Directory.KeyOf | src/reader.rs:65-67 | the stored key keeps x and y, keeps the zoom of a regular record and clears the flag of a leaf pointer, so its zoom is below 128 |
| Directory.Route | src/reader.rs:60-68 | one loop iteration: a flagged record overwrites its cleared key in the leaf map and leaves the regular map alone, an unflagged one the reverse; the leaf level changes only from 0, and then to the record's raw zoom |
| Directory.Records | src/reader.rs:36-37 | the run of n records decodes to exactly n records |
| Directory.RecordsAt | src/reader.rs:36-57 | record i is decoded from bytes [offset + 17 * i, offset + 17 * i + 17) |
| Directory.RouteAll | src/reader.rs:32-71 | routing the records in order from two empty maps and leaf level 0; the leaf level is 0 or has the flag set (the routing lemmas below characterise the maps) |
| Directory.DecodeDirectory | src/reader.rs:31-72 | what `load_directory` returns: the two maps hold at most n keys together, all with zoom below 128, and the leaf level is 0 iff the leaf map is empty, else at least 128 |
| Directory.DecodeDirectoryFrame | src/reader.rs:36-57 | two buffers that agree on the record run decode to the same records and the same directories |
| Directory.DecodeDirectoryStep | src/reader.rs:36-69 | decoding n + 1 records routes record n into the directories decoded from the first n |
| Directory.LoadDirectory | src/reader.rs:31-72 | the loop returns exactly the specification's regular map, leaf map and leaf level |
| Directory.KeyZoomsBelowFlag | src/reader.rs:61-68 | every key of both maps has zoom below 128 |
| Directory.DirectorySizes | src/reader.rs:61-68 | the two maps together hold at most as many keys as there are records |
| Directory.LeafLevelIsFirstFlaggedZoom | src/reader.rs:34-65 | leaf level 0 iff no record is flagged iff the leaf map is empty; otherwise it is the raw zoom of the first flagged record, at least 128 |
| Directory.EveryRecordIsRouted | src/reader.rs:61-68 | every record's key is in the leaf map if its flag is set, in the regular map if not |
| Directory.RegularIsLastWrite | src/reader.rs:66-68 | each regular entry is that of the last unflagged record with its key (later records overwrite) |
| Directory.LeavesAreLastWrite | src/reader.rs:61-65 | each leaf entry is that of the last flagged record with its cleared key |
| ArchiveReader.MagicBytes | src/reader.rs:78 | `0x4D50u16.to_le_bytes()` is the bytes 0x50 0x4D ("PM") |
| ArchiveReader.ReadMetadataLen | src/reader.rs:84-86 | metadata length is the little-endian u32 of bytes 4..8 |
| ArchiveReader.ReadRootEntriesLen | src/reader.rs:80-82 | root entry count is the little-endian u16 of bytes 8..10 |
| ArchiveReader.GetVersion | src/reader.rs:108-112 | the version is the little-endian u16 of bytes 2..4 |
| ArchiveReader.Openable | src/reader.rs:78-88 | construction does not panic: at least 10 bytes, a "PM" magic, and a root record run that is empty or ends within the archive |
| ArchiveReader.Opened | src/reader.rs:78-99 | the state `new` builds: it implies at least 10 bytes (so `GetVersion` can be called) and at most root-count leaf entries |
| ArchiveReader.Open | src/reader.rs:75-100 | construction fails exactly for a short header, a wrong magic or a root run outside the archive; otherwise the reader holds the header fields and the directories decoded from byte `metadata_len` |
| ArchiveReader.OpenedReaderShape | src/reader.rs:88-89 | a constructed reader's maps hold at most root-count keys, all with zoom below 128; leaf level is 0 iff there are no leaves, else at least 128 |
| ArchiveReader.EntrySlice | src/reader.rs:116-118 | the slice succeeds exactly when offset + length fits u64 and the archive, and is then the `length` bytes starting at `offset`; a sum outside u64 gives `AddOverflow`, and a sum within u64 but past the archive gives `OutOfBounds` |
| ArchiveReader.DivPow2 | src/reader.rs:122 | `a / (1 << d)` is the index of the 2^d-block containing a; d = 0 leaves a unchanged |
| ArchiveReader.LeafKey | src/reader.rs:121-122 | the leaf probe key has the leaf level as zoom and the leaf-level cell containing (x, y); with z equal to the leaf level it is (leaf level, x, y) unchanged |
| ArchiveReader.FragmentCount | src/reader.rs:124 | `length / 17` is the number of whole records; it is exact iff length is a multiple of 17 |
| ArchiveReader.Get | src/reader.rs:114-134 | a root hit returns exactly the entry's bytes; a root miss without leaves is not-found; the subtraction and shift faults happen exactly when z < leaf level or z - leaf level >= 32; a leaf-probe miss is not-found; on a leaf-probe hit, a fragment run outside the archive faults, a fragment hit returns that entry's bytes and a fragment miss is not-found |
| ArchiveReader.LeafProbeNeverMatches | src/reader.rs:120-123 | on a constructed reader the leaf probe key is never in the leaf map |
| ArchiveReader.RootMissNeverFindsTile | src/reader.rs:114-134 | on a constructed reader a root miss is not-found or an arithmetic fault, and with leaves present a zoom below 128 always faults |
| ArchiveReader.ExampleRecordDecodes | src/reader.rs:43-57 | the record bytes 05 010000 020000 000000000000 04000000 decode as zoom 5, x 256, y 512, offset 0, length 4 |
| ArchiveReader.ExampleRootDirectory | src/reader.rs:88 | the example's root directory, read at byte metadata_len = 10, is that one entry |
| ArchiveReader.ExampleLookups | src/reader.rs:114-119 | on the example, version is 3, get(5, 256, 512) is bytes 0..4 and get(5, 1, 2) is not-found |

## Left out

- Opening and memory-mapping the file (`File::open`, `Mmap::map`) is OS I/O. The mapped bytes are the `mmap` parameter of `Open`, and an I/O error is not modelled.
- `get_metadata` hands the metadata bytes to a foreign JSON parser (`serde_json`), so it is not part of this model.
- The commented-out `get_leaf_level` is dead code.
- Panics are modelled with debug-build semantics: u8 underflow, u32 shift overflow and u64 addition overflow are faults. A release build is not modelled. There, a wrapped `z - leaf_level` or a masked `1 << level_diff` still probes at the flagged leaf level, which no stored key has, so `get` returns `None`. A wrapped `offset + length` makes the slice end before its start, so `get` still panics on the slice.
- `usize` is taken to be 64 bits wide, so the `as usize` casts change no value.
- `HashMap` hashing and iteration order do not affect any result; directories are Dafny maps.
- The reader's ownership of the mapping, and concurrent lookups on one reader, are not modelled.
- The public counters `root_entries_len` and `leaves_len` are fields of `Reader`. There are no accessor functions for them.
