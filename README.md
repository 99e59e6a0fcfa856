# In-memory inode store of the jor1k worker filesystem

This project is a Dafny model of the `FS` class in `js/worker/filesystem.js`. That class is the
in-memory filesystem which the emulator's 9P server exposes to the guest. It has four parts.

- **Inode table and factory.** `inodes` is a table that only grows and is indexed by position.
  The `qidnumber` counter hands every new inode a fresh `qid.path`.
- **Lookup.** `Search` scans the table for the first live inode with a given `(parentid, name)`.
- **Mutations.** `Unlink` turns an inode into a tombstone: its slot stays, its data is dropped.
  `ChangeSize` swaps the data buffer for a zero-filled one of the new size and copies the common
  prefix across. `Rename` is an empty stub.
- **Directory serialiser.** `FillDirectory` writes a directory's listing into the directory's own
  data. It holds one 9P2000.L readdir entry, `qid[13] offset[8] type[1] name[s]`, for ".", one
  for "..", and then one for each live child in table order.

Layout of the model:

- `wire.dfy` (module `Wire`): bytes and the record layout. A qid is packed as type (1 byte),
  version (4 bytes) and path (8 bytes); the offset is 8 bytes; the type is 1 byte; a name is a
  2-byte length followed by its bytes. All of these are little-endian. The module holds the
  packer `Pack`, the run of records `RecordsAt` and a parser `ParseFrom`, which follows the
  offset fields. It also holds the round trip and the offset-chaining lemmas.
- `inodes.dfy` (module `Inodes`): the `Inode` record, plus the specification functions on a
  table value. `Lookup` is the specification of `Search`. `ChildIndices` and `ChildEntries` give
  the live children of a directory. `DirectoryBytes` is the buffer `FillDirectory` stores. The
  module also proves the size, order, offset and round-trip lemmas about that buffer.
- `filesystem.dfy` (module `Filesystem`): the class `FS`, with fields `inodes` and `qidnumber`.
  Each operation is an imperative method proved against the functions above. `CreateTextFile`,
  `ChangeSize` and `FillDirectory` fill local byte arrays with loops, as the source does.
  `Search` is a read-only loop with an early return.
- `scenarios.dfy` (module `Scenarios`): two client methods, each using only the contracts above.
  One lists the root of a fresh filesystem. The other creates, finds and unlinks a directory
  called "docs".

Facts about the record layout, as the code computes it:

- Each record's fixed part is 24 bytes: 13 + 8 + 1 + 2, counting the 2-byte name length
  (js/worker/filesystem.js:169,172-173).
- The offset field is an absolute position in the buffer: the start of the following record
  (js/worker/filesystem.js:181,189,202).
- The type byte of every record is 0. The code shifts `qid.mode`, and a qid object has no such
  field (js/worker/filesystem.js:64,182,190,203).
- The ".." record takes the directory's own type byte (js/worker/filesystem.js:190).
- When the parent is -1, ".." carries the qid of index 0, the root (js/worker/filesystem.js:162).

Names are byte sequences. Text given to `CreateTextFile` is stored one byte per character, as
the character code modulo 256.

## Model

| member | source | states |
|---|---|---|
| `Filesystem.FS.constructor` | js/worker/filesystem.js:43-52 | A fresh filesystem holds exactly the root directory (index 0, name "", parentid -1, qid path 1) and the file "hello" under it, holding the 11 bytes of "Hello World" (qid path 2). `qidnumber` is 2. |
| `Filesystem.FS.CreateInode` | js/worker/filesystem.js:54-67 | Bumps `qidnumber` first and uses the new value as `qid.path`. Version 0, type 0, mode 0x1ED, parentid -1, empty name and data. The table is untouched. |
| `Filesystem.FS.CreateDirectory` | js/worker/filesystem.js:69-77 | Returns the old table length. The table becomes the old table plus exactly one inode: live, qid type 0x40, version 0, path the bumped counter, mode 0x41ED, the given name and parent, empty data. That path is above every earlier one, and the path invariant is preserved. |
| `Filesystem.FS.CreateFile` | js/worker/filesystem.js:79-87 | As `CreateDirectory`, with qid type 0x80 and mode 0x81ED. |
| `Filesystem.FS.CreateSymlink` | js/worker/filesystem.js:89-98 | As `CreateDirectory`, with qid type 0xA0, mode 0xA000 (no permission bits) and the target stored. |
| `Filesystem.FS.CreateTextFile` | js/worker/filesystem.js:100-108 | A regular file as `CreateFile` makes it. Its data is as long as the string, and byte j is character j's code truncated to 8 bits. |
| `Filesystem.FS.GetRoot` | js/worker/filesystem.js:112-114 | The inode at index 0 is the root directory: name "", parentid -1, qid type 0x40, mode 0x41ED. Its qid path is below every other inode's. |
| `Filesystem.FS.GetInode` | js/worker/filesystem.js:139-142 | The inode at `idx`, or nothing exactly when `idx` is outside the table. |
| `Inodes.FindFrom` | js/worker/filesystem.js:118-124 | The scan from index i: -1 exactly when no inode at or after i is live with that parent and name. Otherwise the answer is the first such index. |
| `Inodes.Lookup` | js/worker/filesystem.js:117-125 | -1 if and only if no live inode has that `(parentid, name)`. Otherwise the smallest such index. |
| `Filesystem.FS.Search` | js/worker/filesystem.js:117-125 | The scan loop returns `Lookup` of the current table: -1 exactly when nothing matches, else the smallest matching live index. It reads the table and changes nothing. |
| `Filesystem.FS.Rename` | js/worker/filesystem.js:127-130 | Changes nothing: table and counter are as before. |
| `Filesystem.FS.Unlink` | js/worker/filesystem.js:133-136 | The table length is unchanged. Only `idx` changes, and only to `valid` false with empty data. Afterwards no lookup returns `idx`. The root invariant and the qid invariant are kept. |
| `Inodes.UnlinkHides` | js/worker/filesystem.js:119 | On the tombstoned table, lookup never answers the unlinked index. It answers -1 if and only if no other live inode had that parent and name. |
| `Filesystem.FS.ChangeSize` | js/worker/filesystem.js:144-156 | The data length becomes `newsize`. The first min(old, new) bytes equal the old data and any bytes past the old length are 0. Shrinking gives exactly the old prefix. No other inode and no other field changes. |
| `Filesystem.ListingSize` | js/worker/filesystem.js:164-170 | The size pass adds one 24-byte header plus the name length for each live child of `dirid`, in table order. |
| `Filesystem.FS.FillDirectory` | js/worker/filesystem.js:159-214 | The directory's data becomes `DirectoryBytes` of the table as it was before the call. Nothing else changes. |
| `Filesystem.PackChildren` | js/worker/filesystem.js:196-207 | The write pass appends one record per live child, in table order, each chained after the previous one. It fills the buffer exactly. |
| `Wire.Pack` | js/worker/filesystem.js:178-184 | Writes the record (qid, offset, type, name) at `at`, leaving the bytes around it untouched. Returns the number of bytes written, 24 plus the name length. |
| `Wire.PackAfter` | js/worker/filesystem.js:186-192 | Packing one entry after a run of records gives the run extended by that entry. The entry's offset field holds the end of its own record. |
| `Wire.Record` | js/worker/filesystem.js:178-184 | One record is 24 bytes plus the name length. |
| `Wire.RecordsAtSize` | js/worker/filesystem.js:177-207 | A run of records is exactly as long as the sum of its record sizes. |
| `Wire.RecordsAppend` | js/worker/filesystem.js:196-207 | Appending an entry to a run appends exactly one record, whose offset field is the end of the extended run. |
| `Wire.RecordsAtAppend` | js/worker/filesystem.js:196-207 | Appending an entry appends exactly its record, with its offset field chained from the end of the run before it. |
| `Wire.FromLEOfLE` | js/worker/filesystem.js:178-184 | A little-endian field of width n decodes back to the value it encodes, for any value below 256^n. |
| `Wire.RecordFields` | js/worker/filesystem.js:178-184 | Each field of a packed record decodes back to the qid type, version, path, offset, type byte, name length and name. |
| `Wire.ParseOne` | js/worker/filesystem.js:178-184 | Parsing one record followed by more bytes yields its entry in front of what parsing the rest from its offset field yields, and fails exactly when that fails. |
| `Wire.ParseRecordsAt` | js/worker/filesystem.js:177-207 | Round trip: parsing a run of records by its offset fields gives back exactly the entries. The parser checks that every offset equals the position just past its own record. |
| `Wire.RecordAt` | js/worker/filesystem.js:177-207 | Record k occupies the bytes between the total size of the first k records and that of the first k+1. Its offset field holds the end of that range. |
| `Wire.NextOffsets` | js/worker/filesystem.js:181-202 | The offset field of record k decodes to the start of record k+1. For the last record that is the buffer length. |
| `Inodes.ChildIndices` | js/worker/filesystem.js:196-198 | The indices of exactly the live children of `dirid`, in strictly ascending order. |
| `Inodes.ChildEntriesIndexed` | js/worker/filesystem.js:196-205 | Child record j is the entry of the j-th live child index. |
| `Inodes.ChildEntriesSize` | js/worker/filesystem.js:165-170 | The packed size of the children's records equals what the size pass counts. |
| `Inodes.ParentIndex` | js/worker/filesystem.js:161-162 | ".." reads the directory's parent, or index 0 when the parent is -1. |
| `Inodes.DirectorySize` | js/worker/filesystem.js:165-175 | The directory buffer is (24+1) + (24+2) bytes plus 24 + name length for each live child. |
| `Inodes.DirectoryDecodes` | js/worker/filesystem.js:159-207 | Parsing the directory buffer gives ".", "..", then one entry per live child of `dirid` in ascending index order. "." carries the directory's qid, ".." the parent's (or the root's), and each child's entry its qid and name. There are k + 2 records for k live children. |
| `Inodes.DirectoryOffsets` | js/worker/filesystem.js:177-205 | In the directory buffer, each record's offset field equals the start of the next record, and the last one equals the buffer length. |
| `Scenarios.BootListing` | js/worker/filesystem.js:43-52 | The root listing of a fresh filesystem is 80 bytes. It decodes to ".", ".." (both with the root's qid) and "hello" (qid path 2). |
| `Scenarios.DocsScenario` | js/worker/filesystem.js:117-136 | On a fresh filesystem, CreateDirectory("docs", 0) returns 2 and Search(0, "docs") returns 2. After Unlink(2), Search(0, "docs") returns -1 and the table still has 3 inodes. |
| `Scenarios.HelloScenario` | js/worker/filesystem.js:100-108 | On a fresh filesystem, FillDirectory(0) stores 80 bytes that parse to ".", ".." and "hello". The seed file holds the 11 bytes of "Hello World". |

## Left out

- `js/master/master.js`: Web Worker messaging, terminal and UART wiring, and framebuffer drawing. This is browser UI plumbing and not part of this model.
- `DebugMessage` in `ChangeSize` (js/worker/filesystem.js:149): console output with no effect on state.
- `ArrayToStruct` is not part of this model. `Wire.Pack` writes the layout that the field codes `Q d b s` name and returns the count of bytes written. The helper's own code is not verified.
- `Filesystem.FS.Rename` is modelled as the empty stub it is. No move semantics are invented.
- The `P9_STAT_MODE_*`, `O_*`, `S_IFBLK` and `S_IFCHR` constants are unused by the core and are not modelled.
- `uid`, `gid` and the symlink target are stored but never read by the core.
- JavaScript strings: names are byte sequences, and a name's length is its byte count. `CreateTextFile` takes each Dafny character's code point modulo 256. JavaScript takes the UTF-16 code unit, which differs for characters outside the Basic Multilingual Plane.
- Inode objects are values in a sequence field. The source mutates them in place and `GetInode` hands out the live object, so a caller's later writes through that reference are not captured.
- Numbers are unbounded. JavaScript's 2^53 limit on `qidnumber` and offsets is not modelled. The packer keeps the low 4, 8 or 2 bytes of the version, path, offset and name length. The round trip and offset lemmas therefore assume values that fit those widths.
- Out-of-range indices passed to `Unlink`, `ChangeSize` and `FillDirectory`, a ".." target outside the table, and a negative `newsize` passed to `ChangeSize` make the source throw. The negative size is a RangeError from `new Uint8Array` (js/worker/filesystem.js:148), raised before any state changes. The model treats all of these as caller obligations: its preconditions and the `nat` type of `newsize` exclude them, so the model says nothing about the partly written directory a bad ".." target leaves behind.
