/**
 * The one RawFile read the scanner uses: a bounds-checked 32-bit big-endian
 * word read over the file's bytes.
 */
module RawFile {
  import opened Wrappers
  import opened Helper

  type u32 = x: int | 0 <= x < 0x1_0000_0000

  /** GetWordBE: the big-endian word at `offset`, or None when its four bytes do not all lie in the file. */
  function GetWordBE(file: seq<byte>, offset: nat): (r: Option<u32>)
  {
    if offset + 4 <= |file| then
      assert Pow256(4) == 0x1_0000_0000;
      Some(DecodeBE(file[offset..offset + 4]))
    else None
  }

  /** GetWordBE reads back a word that PushTypeOnVectBE wrote, whatever surrounds it. */
  lemma GetWordBEReadsPushed(prefix: seq<byte>, unit: u32, suffix: seq<byte>)
    ensures GetWordBE(prefix + BigEndianBytes(unit, 4) + suffix, |prefix|) == Some(unit)
  {
    assert Pow256(4) == 0x1_0000_0000;
    BigEndianBytesRoundTrip(unit, 4);
    var file := prefix + BigEndianBytes(unit, 4) + suffix;
    assert file[|prefix|..|prefix| + 4] == BigEndianBytes(unit, 4);
  }
}
