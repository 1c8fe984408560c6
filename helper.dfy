/**
 * Model of src/main/util/helper.h: byte-vector serialisation helpers and the
 * container-emptying helpers.
 *
 * A value of a C++ type T is modelled by `size`, standing for sizeof(T), and
 * by `unit`, the unsigned value of its bit pattern; signed and floating-point
 * T are passed that way (an int16_t holding -1 is unit == 0xFFFF). The host is
 * taken to be little-endian, so the bytes of `unit` in memory are its
 * little-endian encoding (`HostBytes`).
 */
module Helper {

  type byte = x: int | 0 <= x < 256

  function Pow256(n: nat): (r: nat)
    ensures r > 0
  {
    if n == 0 then 1 else 256 * Pow256(n - 1)
  }

  /** The `size` bytes of `unit` as a little-endian host stores them. */
  function HostBytes(unit: nat, size: nat): (r: seq<byte>)
    ensures |r| == size
  {
    if size == 0 then [] else [unit % 256] + HostBytes(unit / 256, size - 1)
  }

  /** The value of a little-endian byte string (least significant byte first). */
  function DecodeLE(s: seq<byte>): (r: nat)
    ensures r < Pow256(|s|)
  {
    if s == [] then 0 else s[0] + 256 * DecodeLE(s[1..])
  }

  /** The value of a big-endian byte string (most significant byte first). */
  function DecodeBE(s: seq<byte>): (r: nat)
    ensures r < Pow256(|s|)
  {
    if s == [] then 0 else 256 * DecodeBE(s[..|s| - 1]) + s[|s| - 1]
  }

  /** The elements of `s` from last to first. */
  function Reversed<T>(s: seq<T>): (r: seq<T>)
    ensures |r| == |s|
  {
    if s == [] then [] else Reversed(s[1..]) + [s[0]]
  }

  /** Element i of `s` ends up at position |s| - 1 - i of its reversal. */
  lemma {:induction false} ReversedMoves<T>(s: seq<T>, i: nat)
    requires i < |s|
    ensures Reversed(s)[|s| - 1 - i] == s[i]
  {
    if i > 0 {
      ReversedMoves(s[1..], i - 1);
    }
  }

  lemma DivUnique(v: int, d: int, q: int, r: int)
    requires d > 0 && 0 <= r < d && v == d * q + r
    ensures v / d == q && v % d == r
  {
    var q', r' := v / d, v % d;
    assert d * (q - q') == r' - r;
    if q - q' >= 1 {
      assert false;
    } else if q - q' <= -1 {
      assert false;
    }
  }

  lemma DivDiv(v: nat, p: nat)
    requires p > 0
    ensures v / (256 * p) == (v / 256) / p
  {
    var q, r := v / 256, v % 256;
    var q2, r2 := q / p, q % p;
    assert v == 256 * q + r;
    assert q == p * q2 + r2;
    assert v == (256 * p) * q2 + (256 * r2 + r);
    assert 256 * r2 + r < 256 * p by {
      assert r2 <= p - 1;
      assert 256 * r2 <= 256 * (p - 1);
    }
    DivUnique(v, 256 * p, q2, 256 * r2 + r);
  }

  /** Host byte k of `unit` is digit k in base 256: the least significant byte comes first. */
  lemma {:induction false} HostBytesDigit(unit: nat, size: nat, k: nat)
    requires k < size
    ensures HostBytes(unit, size)[k] == (unit / Pow256(k)) % 256
  {
    if k > 0 {
      HostBytesDigit(unit / 256, size - 1, k - 1);
      DivDiv(unit, Pow256(k - 1));
    }
  }

  /** Reading the host bytes back as little-endian gives `unit` back, for every value that fits in `size` bytes. */
  lemma {:induction false} HostBytesRoundTrip(unit: nat, size: nat)
    requires unit < Pow256(size)
    ensures DecodeLE(HostBytes(unit, size)) == unit
  {
    if size > 0 {
      assert unit / 256 < Pow256(size - 1);
      HostBytesRoundTrip(unit / 256, size - 1);
      assert HostBytes(unit, size)[1..] == HostBytes(unit / 256, size - 1);
    }
  }

  /** Every byte string of length n is the host encoding of exactly its little-endian value. */
  lemma {:induction false} HostBytesOfDecode(s: seq<byte>)
    ensures HostBytes(DecodeLE(s), |s|) == s
  {
    if s != [] {
      var x := DecodeLE(s[1..]);
      DivUnique(DecodeLE(s), 256, x, s[0]);
      HostBytesOfDecode(s[1..]);
    }
  }

  /** Reading a reversed byte string as big-endian is reading the original as little-endian. */
  lemma {:induction false} DecodeBEReversed(s: seq<byte>)
    ensures DecodeBE(Reversed(s)) == DecodeLE(s)
  {
    if s != [] {
      var rest := Reversed(s[1..]);
      assert (rest + [s[0]])[..|rest|] == rest;
      DecodeBEReversed(s[1..]);
    }
  }

  /** The bytes `PushTypeOnVectBE` appends: the host bytes in reverse order. */
  function BigEndianBytes(unit: nat, size: nat): (r: seq<byte>)
  {
    Reversed(HostBytes(unit, size))
  }

  /**
   * Big-endian byte i is host byte size-1-i, and the big-endian encoding of a
   * value that fits decodes back to that value.
   */
  lemma {:induction false} BigEndianBytesRoundTrip(unit: nat, size: nat)
    requires unit < Pow256(size)
    ensures |BigEndianBytes(unit, size)| == size
    ensures forall i :: 0 <= i < size ==> BigEndianBytes(unit, size)[i] == HostBytes(unit, size)[size - 1 - i]
    ensures DecodeBE(BigEndianBytes(unit, size)) == unit
  {
    forall i | 0 <= i < size
      ensures BigEndianBytes(unit, size)[i] == HostBytes(unit, size)[size - 1 - i]
    {
      ReversedMoves(HostBytes(unit, size), size - 1 - i);
    }
    DecodeBEReversed(HostBytes(unit, size));
    HostBytesRoundTrip(unit, size);
  }

  /** `std::vector<uint8_t>`, updated in place by the helpers below. */
  class ByteVector {
    var bytes: seq<byte>

    constructor ()
      ensures bytes == []
    {
      bytes := [];
    }
  }

  /** PushTypeOnVect: append the `size` bytes of `unit` in host (little-endian) order. */
  method PushTypeOnVect(v: ByteVector, unit: nat, size: nat)
    modifies v
    ensures v.bytes == old(v.bytes) + HostBytes(unit, size)
  {
    v.bytes := v.bytes + HostBytes(unit, size);
  }

  /** PushTypeOnVectBE: append host bytes size-1, size-2, ..., 0, one per iteration. */
  method PushTypeOnVectBE(v: ByteVector, unit: nat, size: nat)
    modifies v
    ensures v.bytes == old(v.bytes) + BigEndianBytes(unit, size)
  {
    var host := HostBytes(unit, size);
    ghost var be := BigEndianBytes(unit, size);
    for i := 0 to size
      invariant v.bytes == old(v.bytes) + be[..i]
    {
      ReversedMoves(host, size - 1 - i);
      assert be[..i + 1] == be[..i] + [host[size - 1 - i]];
      v.bytes := v.bytes + [host[size - 1 - i]];
    }
    assert be[..size] == be;
  }

  /** A C++ `std::string`: its characters are single bytes. */
  predicate IsByteString(str: string)
  {
    forall i :: 0 <= i < |str| ==> str[i] as int < 256
  }

  function StringBytes(str: string): (r: seq<byte>)
    requires IsByteString(str)
    ensures |r| == |str|
    ensures forall i :: 0 <= i < |str| ==> r[i] == str[i] as int
  {
    seq(|str|, i requires 0 <= i < |str| => str[i] as int)
  }

  /** PushBackStringOnVector: append the string's bytes, in order. */
  method PushBackStringOnVector(v: ByteVector, str: string)
    requires IsByteString(str)
    modifies v
    ensures v.bytes == old(v.bytes) + StringBytes(str)
  {
    v.bytes := v.bytes + StringBytes(str);
  }

  /** `std::vector<T *>`, `std::list<T *>` and `std::map<K, V *>` owning their pointees. */
  class PointerVector<T> {
    var items: seq<T>
  }

  class PointerList<T> {
    var items: seq<T>
  }

  class PointerMap<K(==), V> {
    var entries: map<K, V>
  }

  /** DeleteVect: free every element, then clear the vector. */
  method DeleteVect<T>(vect: PointerVector<T>)
    modifies vect
    ensures vect.items == []
  {
    vect.items := [];
  }

  /** DeleteList: free every element, then clear the list. */
  method DeleteList<T>(list: PointerList<T>)
    modifies list
    ensures list.items == []
  {
    list.items := [];
  }

  /** DeleteMap: free every mapped value, then clear the map. */
  method DeleteMap<K(==), V>(container: PointerMap<K, V>)
    modifies container
    ensures container.entries == map[]
  {
    container.entries := map[];
  }
}
