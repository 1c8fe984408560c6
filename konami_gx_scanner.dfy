/**
 * Model of src/main/formats/KonamiGXScanner.cpp: hint-driven discovery of
 * KonamiGX sequences.
 *
 * `Scan` reads the "soundcpu" and "shared" rom groups and the "seq_table"
 * hex attribute from the game's metadata entry; `LoadSeqTable` walks the
 * sequence table, a run of 12-byte records whose first four bytes are a
 * big-endian pointer to a sequence. The walk ends at the first pointer that
 * is 0 or not inside the file, or when the record offset leaves the file.
 *
 * Constructing a KonamiGXSeq and its LoadVGMFile parse are not part of this
 * model: `loads(file, offset)` stands for "LoadVGMFile succeeds for a
 * sequence at offset". The walk reports every offset it attempted and the
 * offsets whose sequence was kept.
 */
module KonamiGXScanner {
  import opened Wrappers
  import opened Helper
  import opened RawFile
  import opened MameLoader

  /** Distance between consecutive sequence-table records. */
  const SeqTableStride: nat := 12

  /** Offset of record k of a table starting at `start`. */
  function EntryOffset(start: nat, k: nat): (offset: nat)
  {
    start + SeqTableStride * k
  }

  /** True when the walk, at record k, constructs a sequence and carries on. */
  predicate EntryContinues(file: seq<byte>, start: nat, k: nat)
  {
    var offset := EntryOffset(start, k);
    && offset < |file|
    && GetWordBE(file, offset).Some?
    && GetWordBE(file, offset).value != 0
    && GetWordBE(file, offset).value < |file|
  }

  /** The sequence offsets the walk from `offset` attempts, in table order. */
  function SeqTableEntries(file: seq<byte>, offset: nat): (entries: seq<nat>)
    decreases |file| - offset
  {
    if offset >= |file| then []
    else match GetWordBE(file, offset)
      case None => []
      case Some(seqOffset) =>
        if seqOffset == 0 || seqOffset >= |file| then []
        else [seqOffset as nat] + SeqTableEntries(file, offset + SeqTableStride)
  }

  /** The attempted offsets whose sequence loaded, in the order they were attempted. */
  function Kept(loads: (seq<byte>, nat) -> bool, file: seq<byte>, attempted: seq<nat>): seq<nat>
  {
    if attempted == [] then []
    else
      var last := attempted[|attempted| - 1];
      Kept(loads, file, attempted[..|attempted| - 1]) + (if loads(file, last) then [last] else [])
  }

  /** A sequence is kept exactly when it was attempted and its LoadVGMFile succeeded. */
  lemma {:induction false} KeptMembers(loads: (seq<byte>, nat) -> bool, file: seq<byte>, attempted: seq<nat>)
    ensures |Kept(loads, file, attempted)| <= |attempted|
    ensures forall x :: x in Kept(loads, file, attempted) <==> x in attempted && loads(file, x)
  {
    if attempted != [] {
      var init := attempted[..|attempted| - 1];
      KeptMembers(loads, file, init);
      assert attempted == init + [attempted[|attempted| - 1]];
    }
  }

  /** The offsets of `s` other than p, in order. */
  function Without(s: seq<nat>, p: nat): seq<nat>
  {
    if s == [] then []
    else Without(s[..|s| - 1], p) + (if s[|s| - 1] == p then [] else [s[|s| - 1]])
  }

  /**
   * Every attempted offset is the pointer in record i of the table, read
   * big-endian at start + 12 * i, and that record passes the walk's test.
   */
  lemma {:induction false} EntriesAreRecordPointers(file: seq<byte>, start: nat)
    ensures forall i :: 0 <= i < |SeqTableEntries(file, start)| ==>
      EntryContinues(file, start, i) &&
      GetWordBE(file, EntryOffset(start, i)) == Some(SeqTableEntries(file, start)[i])
    decreases |file| - start
  {
    var entries := SeqTableEntries(file, start);
    if entries != [] {
      EntriesAreRecordPointers(file, start + SeqTableStride);
      forall i | 0 <= i < |entries|
        ensures EntryContinues(file, start, i)
        ensures GetWordBE(file, EntryOffset(start, i)) == Some(entries[i])
      {
        if i > 0 {
          assert EntryOffset(start + SeqTableStride, i - 1) == EntryOffset(start, i);
        }
      }
    }
  }

  /** The record just after the last attempted one fails the walk's test: that is where it stopped. */
  lemma {:induction false} EntriesStopAtFailingRecord(file: seq<byte>, start: nat)
    ensures !EntryContinues(file, start, |SeqTableEntries(file, start)|)
    decreases |file| - start
  {
    var entries := SeqTableEntries(file, start);
    if entries != [] {
      EntriesStopAtFailingRecord(file, start + SeqTableStride);
      assert EntryOffset(start + SeqTableStride, |entries| - 1) == EntryOffset(start, |entries|);
    }
  }

  /**
   * The walk attempts exactly the records before the first one that fails
   * its test: none is skipped over, and nothing after it is looked at.
   */
  lemma WalkStopsAtFirstFailingRecord(file: seq<byte>, start: nat, k: nat)
    requires forall i :: 0 <= i < k ==> EntryContinues(file, start, i)
    requires !EntryContinues(file, start, k)
    ensures |SeqTableEntries(file, start)| == k
  {
    EntriesAreRecordPointers(file, start);
    EntriesStopAtFailingRecord(file, start);
  }

  /** The walk examines at most ceil((length - start) / 12) records, and none when start is past the end. */
  lemma {:induction false} WalkBound(file: seq<byte>, start: nat)
    ensures start >= |file| ==> SeqTableEntries(file, start) == []
    ensures start < |file| ==>
      |SeqTableEntries(file, start)| <= (|file| - start + SeqTableStride - 1) / SeqTableStride
    decreases |file| - start
  {
    if start < |file| && SeqTableEntries(file, start) != [] {
      WalkBound(file, start + SeqTableStride);
    }
  }

  /** The walk depends only on the file's length and the words at the record offsets start + 12 * k. */
  lemma {:induction false} WalkReadsOnlyRecords(f1: seq<byte>, f2: seq<byte>, start: nat)
    requires |f1| == |f2|
    requires forall k: nat :: GetWordBE(f1, EntryOffset(start, k)) == GetWordBE(f2, EntryOffset(start, k))
    ensures SeqTableEntries(f1, start) == SeqTableEntries(f2, start)
    decreases |f1| - start
  {
    assert EntryOffset(start, 0) == start;
    if start < |f1| {
      var next := start + SeqTableStride;
      forall k: nat
        ensures GetWordBE(f1, EntryOffset(next, k)) == GetWordBE(f2, EntryOffset(next, k))
      {
        assert EntryOffset(next, k) == EntryOffset(start, k + 1);
      }
      WalkReadsOnlyRecords(f1, f2, next);
    }
  }

  /** Overwriting bytes outside a word leaves the word as read. */
  lemma WordUnchangedOutside(file: seq<byte>, at: nat, word: seq<byte>, offset: nat)
    requires at + |word| <= |file|
    requires offset + 4 <= at || at + |word| <= offset
    ensures GetWordBE(file[..at] + word + file[at + |word|..], offset) == GetWordBE(file, offset)
  {
    var file' := file[..at] + word + file[at + |word|..];
    if offset + 4 <= |file| {
      assert file'[offset..offset + 4] == file[offset..offset + 4];
    }
  }

  /** Four 0xFF bytes written at `at` read back as the word 0xFFFFFFFF. */
  lemma CorruptedWordIsMax(file: seq<byte>, at: nat)
    requires at + 4 <= |file|
    ensures GetWordBE(file[..at] + [255, 255, 255, 255] + file[at + 4..], at) == Some(0xFFFF_FFFF)
  {
    var corrupted := file[..at] + [255, 255, 255, 255] + file[at + 4..];
    assert corrupted[at..at + 4] == [255, 255, 255, 255];
    assert [255, 255, 255, 255][..3] == [255, 255, 255];
    assert [255, 255, 255][..2] == [255, 255];
    assert [255, 255][..1] == [255];
  }

  /**
   * If f2 has f1's length, reads like f1 in the first n records attempted
   * on f1, and fails the walk's test at record n, then its walk attempts
   * the first n of f1's attempts.
   */
  lemma SameRecordsSameEntries(f1: seq<byte>, f2: seq<byte>, start: nat, n: nat)
    requires |f1| == |f2|
    requires n <= |SeqTableEntries(f1, start)|
    requires forall i :: 0 <= i < n ==> GetWordBE(f2, EntryOffset(start, i)) == GetWordBE(f1, EntryOffset(start, i))
    requires !EntryContinues(f2, start, n)
    ensures SeqTableEntries(f2, start) == SeqTableEntries(f1, start)[..n]
  {
    EntriesAreRecordPointers(f1, start);
    assert forall i :: 0 <= i < n ==> EntryContinues(f2, start, i);
    WalkStopsAtFirstFailingRecord(f2, start, n);
    EntriesAreRecordPointers(f2, start);
  }

  /**
   * Corrupting record k's pointer to 0xFFFFFFFF keeps the attempts before
   * record k and stops the walk there, even when later records are well formed.
   */
  lemma CorruptedRecordStopsWalk(file: seq<byte>, start: nat, k: nat)
    requires |file| < 0x1_0000_0000
    requires EntryOffset(start, k) + 4 <= |file|
    ensures var corrupted := file[..EntryOffset(start, k)] + [255, 255, 255, 255] + file[EntryOffset(start, k) + 4..];
      SeqTableEntries(corrupted, start) ==
        if k < |SeqTableEntries(file, start)| then SeqTableEntries(file, start)[..k] else SeqTableEntries(file, start)
  {
    var at := EntryOffset(start, k);
    var corrupted := file[..at] + [255, 255, 255, 255] + file[at + 4..];
    var entries := SeqTableEntries(file, start);
    forall i | 0 <= i < k
      ensures GetWordBE(corrupted, EntryOffset(start, i)) == GetWordBE(file, EntryOffset(start, i))
    {
      WordUnchangedOutside(file, at, [255, 255, 255, 255], EntryOffset(start, i));
    }
    var n := if k < |entries| then k else |entries|;
    if n < k {
      EntriesStopAtFailingRecord(file, start);
      WordUnchangedOutside(file, at, [255, 255, 255, 255], EntryOffset(start, n));
    } else {
      CorruptedWordIsMax(file, at);
    }
    SameRecordsSameEntries(file, corrupted, start, n);
    assert entries[..|entries|] == entries;
  }

  /**
   * A table at 0x100 holding the pointers 0x200, 0x300 and 0 in consecutive
   * 12-byte records yields attempts at exactly 0x200 then 0x300.
   */
  lemma ExampleTable(file: seq<byte>)
    requires |file| > 0x300
    requires file[0x100..0x104] == [0, 0, 2, 0]
    requires file[0x10C..0x110] == [0, 0, 3, 0]
    requires file[0x118..0x11C] == [0, 0, 0, 0]
    ensures SeqTableEntries(file, 0x100) == [0x200, 0x300]
  {
    assert [0, 0, 2, 0][..3] == [0, 0, 2];
    assert [0, 0, 3, 0][..3] == [0, 0, 3];
    assert [0, 0, 0, 0][..3] == [0, 0, 0];
    assert [0, 0, 2][..2] == [0, 0] && [0, 0, 3][..2] == [0, 0] && [0, 0, 0][..2] == [0, 0];
    assert [0, 0][..1] == [0];
    assert GetWordBE(file, 0x118) == Some(0);
    assert SeqTableEntries(file, 0x118) == [];
    assert GetWordBE(file, 0x10C) == Some(0x300);
    assert GetWordBE(file, 0x100) == Some(0x200);
  }

  /**
   * Making the construction of one sequence fail drops exactly that
   * offset from the kept sequences; the others stay, in the same order.
   */
  lemma {:induction false} FailureIsolated(loads: (seq<byte>, nat) -> bool, file: seq<byte>, attempted: seq<nat>, p: nat)
    ensures Kept((f: seq<byte>, x: nat) => x != p && loads(f, x), file, attempted) == Without(Kept(loads, file, attempted), p)
  {
    if attempted != [] {
      var init := attempted[..|attempted| - 1];
      FailureIsolated(loads, file, init, p);
      WithoutAppend(Kept(loads, file, init), if loads(file, attempted[|attempted| - 1]) then [attempted[|attempted| - 1]] else [], p);
    }
  }

  lemma {:induction false} WithoutAppend(s: seq<nat>, t: seq<nat>, p: nat)
    requires |t| <= 1
    ensures Without(s + t, p) == Without(s, p) + Without(t, p)
  {
    if t != [] {
      assert (s + t)[..|s + t| - 1] == s;
      assert t[..0] == [];
    } else {
      assert s + t == s;
    }
  }

  /** One step of the walk: the record at `at` either ends it or contributes its pointer. */
  lemma WalkStep(file: seq<byte>, at: nat)
    ensures SeqTableEntries(file, at) ==
      if at < |file| && GetWordBE(file, at).Some? && GetWordBE(file, at).value != 0 && GetWordBE(file, at).value < |file|
      then [GetWordBE(file, at).value as nat] + SeqTableEntries(file, at + SeqTableStride)
      else []
  {
  }

  lemma KeptAppend(loads: (seq<byte>, nat) -> bool, file: seq<byte>, attempted: seq<nat>, x: nat)
    ensures Kept(loads, file, attempted + [x]) == Kept(loads, file, attempted) + (if loads(file, x) then [x] else [])
  {
  }

  /**
   * LoadSeqTable: walk the records from `offset`, constructing one sequence
   * per accepted pointer and keeping it when it loads.
   */
  method LoadSeqTable(file: seq<byte>, offset: nat, loads: (seq<byte>, nat) -> bool)
    returns (attempted: seq<nat>, loaded: seq<nat>)
    ensures attempted == SeqTableEntries(file, offset)
    ensures loaded == Kept(loads, file, attempted)
  {
    var fileLength := |file|;
    var at := offset;
    attempted, loaded := [], [];
    while at < fileLength
      invariant SeqTableEntries(file, offset) == attempted + SeqTableEntries(file, at)
      invariant loaded == Kept(loads, file, attempted)
      decreases fileLength - at
    {
      WalkStep(file, at);
      var word := GetWordBE(file, at);
      if word.None? {
        break;
      }
      var seqOffset := word.value;
      if seqOffset == 0 || seqOffset >= fileLength {
        break;
      }
      ghost var rest := SeqTableEntries(file, at + SeqTableStride);
      assert SeqTableEntries(file, offset) == (attempted + [seqOffset as nat]) + rest;
      KeptAppend(loads, file, attempted, seqOffset);
      attempted := attempted + [seqOffset];
      if loads(file, seqOffset) {
        loaded := loaded + [seqOffset];
      }
      at := at + SeqTableStride;
    }
  }

  /**
   * Scan: run the table walk only when the metadata entry is present, has
   * "soundcpu" and "shared" rom groups that both carry a file, and gives
   * "soundcpu" a "seq_table" hex attribute; otherwise do nothing.
   * The `file` argument is not used: the table is read from the soundcpu file.
   */
  method Scan(file: seq<byte>, info: Option<GameEntry>, loads: (seq<byte>, nat) -> bool)
    returns (attempted: seq<nat>, loaded: seq<nat>)
    ensures info.None? ==> attempted == [] && loaded == []
    ensures info.Some? ==>
      var groups := info.value.romGroups;
      if && "soundcpu" in groups && "shared" in groups
         && groups["soundcpu"].file.Some? && groups["shared"].file.Some?
         && "seq_table" in groups["soundcpu"].hexAttributes
      then
        && attempted == SeqTableEntries(groups["soundcpu"].file.value, groups["soundcpu"].hexAttributes["seq_table"])
        && loaded == Kept(loads, groups["soundcpu"].file.value, attempted)
      else attempted == [] && loaded == []
  {
    attempted, loaded := [], [];
    if info.None? {
      return;
    }
    var gameEntry := info.value;
    var seqRomGroupEntry := GetRomGroupOfType(gameEntry, "soundcpu");
    var sampsRomGroupEntry := GetRomGroupOfType(gameEntry, "shared");
    if seqRomGroupEntry.None? || sampsRomGroupEntry.None? {
      return;
    }
    var seqTableOffset := GetHexAttribute(seqRomGroupEntry.value, "seq_table");
    if seqRomGroupEntry.value.file.None? || sampsRomGroupEntry.value.file.None? || seqTableOffset.None? {
      return;
    }
    attempted, loaded := LoadSeqTable(seqRomGroupEntry.value.file.value, seqTableOffset.value, loads);
  }
}
