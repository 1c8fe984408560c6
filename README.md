# KonamiGX sequence-table scanner and byte-vector helpers

This project models two pieces of VGMTrans-style music-asset extraction in Dafny, and proves properties of them.

* **The KonamiGX scanner** (`src/main/formats/KonamiGXScanner.cpp`). It discovers sequences from hints. `Scan` runs only when the MAME game entry has a `"soundcpu"` rom group and a `"shared"` rom group, both groups carry a file, and `"soundcpu"` has a `"seq_table"` hex attribute. Otherwise it does nothing. `LoadSeqTable` then walks the table at that offset in the soundcpu file. Each record is 12 bytes and starts with a 32-bit big-endian pointer. The walk stops at the first pointer that is `0` or `>=` the file length, or when the record offset leaves the file. Every pointer before that point gets one sequence construction. A sequence whose `LoadVGMFile` fails is dropped, and the walk goes on.
* **The byte-vector helpers** (`src/main/util/helper.h`). `PushTypeOnVect` appends a value's bytes in host order. `PushTypeOnVectBE` appends them reversed, one per loop iteration. `PushBackStringOnVector` appends a string's bytes. `DeleteVect`, `DeleteList` and `DeleteMap` free a container's pointees and clear it.

Files, one module each:
* `wrappers.dfy`: `Option`.
* `helper.dfy`: the byte encodings, `ByteVector` and the helpers.
* `raw_file.dfy`: the bounds-checked `GetWordBE`.
* `mame_loader.dfy`: the metadata entry and its lookups.
* `konami_gx_scanner.dfy`: the walk's specification function `SeqTableEntries`, the methods `LoadSeqTable` and `Scan` proved against it, and the lemmas.

Modelling decisions:
* **Host byte order.** The host is assumed to be little-endian. A value of T is passed as `unit`, the unsigned value of its `sizeof(T) == size`-byte bit pattern. The bytes it occupies in memory are taken to be `HostBytes(unit, size)`, the little-endian encoding of that number.
* **Sequence loading.** `KonamiGXSeq::LoadVGMFile` is the parameter `loads(file, offset)`. Both walk methods return two lists: the offsets at which a sequence was constructed (`attempted`), and those whose sequence was kept (`loaded`).
* **Metadata lookups.** `MAMEGameEntry::GetRomGroupOfType` becomes a lookup in a map from group type to group. `GetHexAttribute` becomes a lookup in a map holding the attributes that parse as hex.
* **Reads at the end of the file.** `RawFile::GetWordBE` is not part of this model. The loop guard at line 40 checks only `offset < nFileLength`, so line 41 may ask for a word that straddles the end of the file. The model's `GetWordBE` is bounds-checked: it returns `None` unless all four bytes lie in the file. The walk treats such a read as the end of the table, so it constructs no sequence for it. So a read past the end fails instead of returning bytes from outside the file.

## Model

| member | source | states |
|---|---|---|
| `KonamiGXScanner.Scan` | src/main/formats/KonamiGXScanner.cpp:15-35 | The result is empty in two cases: the metadata entry is absent, or any of these is missing: the "soundcpu" group, the "shared" group, either group's file, or soundcpu's "seq_table" hex attribute. Otherwise the attempts are those of the walk of soundcpu's file from the "seq_table" offset, and the kept list is the attempts that load. The `file` argument is never used. |
| `KonamiGXScanner.LoadSeqTable` | src/main/formats/KonamiGXScanner.cpp:37-49 | The loop attempts exactly `SeqTableEntries(file, offset)`, the specification of the walk. It keeps exactly the attempted offsets whose sequence loads, in table order. |
| `KonamiGXScanner.EntriesAreRecordPointers` | src/main/formats/KonamiGXScanner.cpp:41-47 | Attempt i is the word read big-endian at `start + 12*i`. That record is inside the file and its pointer is non-zero and below the file length. |
| `KonamiGXScanner.EntriesStopAtFailingRecord` | src/main/formats/KonamiGXScanner.cpp:40-43 | The record just after the last attempt fails the walk's test. Either its offset is past the end, or its word does not fit in the file, or its pointer is 0 or `>=` the file length. |
| `KonamiGXScanner.WalkStopsAtFirstFailingRecord` | src/main/formats/KonamiGXScanner.cpp:40-47 | If records 0..k-1 pass the walk's test and record k fails it, the walk attempts exactly k sequences. No failing record is skipped over, and no later record counts, even a well-formed one. |
| `KonamiGXScanner.WalkBound` | src/main/formats/KonamiGXScanner.cpp:40-47 | The walk terminates. It attempts nothing when `start >= length`, and otherwise at most `ceil((length - start) / 12)` sequences. |
| `KonamiGXScanner.WalkReadsOnlyRecords` | src/main/formats/KonamiGXScanner.cpp:41-47 | The walk depends only on the file length and the words at offsets `start + 12*k`. Two files that agree there give the same attempts. |
| `KonamiGXScanner.CorruptedRecordStopsWalk` | src/main/formats/KonamiGXScanner.cpp:41-43 | Overwriting record k's pointer with 0xFFFFFFFF keeps the attempts before k unchanged and ends the walk at k. If the walk had already stopped before k, the attempts are unchanged. |
| `KonamiGXScanner.ExampleTable` | src/main/formats/KonamiGXScanner.cpp:40-48 | A table at 0x100 holding the pointers 0x200, 0x300 and 0 in consecutive 12-byte records yields attempts at exactly 0x200, then 0x300. There is none for the zero record. |
| `KonamiGXScanner.KeptMembers` | src/main/formats/KonamiGXScanner.cpp:44-46 | An offset is kept if and only if it was attempted and its LoadVGMFile succeeds. No more are kept than were attempted. |
| `KonamiGXScanner.FailureIsolated` | src/main/formats/KonamiGXScanner.cpp:44-47 | Making the construction at offset p fail removes exactly p from the kept list. All other kept sequences stay, in the same order. The attempts do not depend on which loads succeed. |
| `Helper.HostBytes` | src/main/util/helper.h:37-39 | A value of `sizeof(T) == size` occupies exactly `size` bytes, so the vector grows by exactly `size`. |
| `Helper.HostBytesDigit` | src/main/util/helper.h:37-39 | On the little-endian host, byte k of a value is its base-256 digit k, so the least significant byte comes first. |
| `Helper.HostBytesRoundTrip` | src/main/util/helper.h:37-39 | Reading the bytes that PushTypeOnVect appends as little-endian gives back `unit`, for every value that fits in `size` bytes. |
| `Helper.HostBytesOfDecode` | src/main/util/helper.h:37-39 | Every byte string of length n is the host encoding of its own little-endian value. So the host encoding is onto the byte strings of length n. |
| `Helper.DecodeBEReversed` | src/main/util/helper.h:42-46 | Reading a reversed byte string as big-endian equals reading the original as little-endian. |
| `Helper.BigEndianBytesRoundTrip` | src/main/util/helper.h:42-46 | PushTypeOnVectBE appends `size` bytes, and its byte i is host byte `size-1-i`. Decoding them as big-endian gives back `unit` for any size, so also for 1-, 2- and 4-byte T. |
| `Helper.PushTypeOnVect` | src/main/util/helper.h:37-39 | The vector becomes its old bytes followed by the value's host bytes. The prefix is unchanged. |
| `Helper.PushTypeOnVectBE` | src/main/util/helper.h:42-46 | After the counted loop, the vector is its old bytes followed by the host bytes reversed, which is the big-endian encoding. The prefix is unchanged. |
| `Helper.PushBackStringOnVector` | src/main/util/helper.h:48-50 | The vector becomes its old bytes followed by the string's bytes, one per character, in order. |
| `Helper.DeleteVect` | src/main/util/helper.h:13-18 | The vector ends up empty. |
| `Helper.DeleteList` | src/main/util/helper.h:21-26 | The list ends up empty. |
| `Helper.DeleteMap` | src/main/util/helper.h:29-34 | The map ends up empty. |
| `RawFile.GetWordBEReadsPushed` | src/main/util/helper.h:42-46 | A 32-bit word appended with PushTypeOnVectBE reads back unchanged with the scanner's big-endian word read, whatever bytes surround it. |

## Left out

- KonamiGXScanner.LoadSeqTable: the source keeps the file size in a `uint32_t nFileLength` and the table offset in a `uint32_t`. The model uses the true length `|file|` and an unbounded natural offset. So two things are not modelled: truncating the size mod 2^32, which only matters for files of 2^32 bytes or more; and the wrap-around of `offset += 12`, which only matters for files within 12 bytes of 2^32 bytes or longer.
- Helper.PushTypeOnVect / Helper.PushTypeOnVectBE: `unit` is the unsigned value of T's bit pattern, a natural number below 256^sizeof(T). Signed and floating-point T are passed that way: `int16_t` -1 is `unit == 0xFFFF`, for example. Converting a negative or floating-point value to its bit pattern is not modelled.
- `GetWordBE` for a word that straddles the end of the file: `RawFile::GetWordBE` is not part of this model. It is modelled as a read that fails, and the failure ends the walk.
- The `ScannerRegistration` object at `KonamiGXScanner.cpp:12`: one-time static registration, with no logic to state.
- KonamiGXSeq construction and the LoadVGMFile parse: these are not part of this model. Their outcome is the parameter `loads`. Allocating and deleting the `KonamiGXSeq` objects is not modelled. Nor is adding the kept sequences to the application's collection; the model returns the kept list instead.
- The internals of MAMEGameEntry, GetRomGroupOfType and GetHexAttribute (the hex parse, and several groups of one type) are not part of this model. They are modelled as optional lookups.
- Host endianness: the host is assumed little-endian. The `reinterpret_cast` memory layout is not modelled.
- Helper.PushBackStringOnVector: a C++ `std::string` holds 8-bit chars, so the method requires every character code to be below 256. Wider Dafny characters have no counterpart.
- DeleteVect, DeleteList and DeleteMap: only the effect on the container is modelled. Freeing the pointees, and ownership, are left out.
- `src/vgmcis-qt/MainWindow.cpp`: Qt user interface and I/O plumbing.
- The header-only scanner declarations (`HudsonSnesInstr.h`, `CompileSnesScanner.h`, `SquarePS2Scanner.h`, `NDSScanner.h`): their bodies are not part of this model.
