/** Little-endian words over byte sequences, shared by guest memory and the
    image records. */
module Bytes {
  import opened Platform

  function Le32(value: u32): (bytes: seq<u8>)
    ensures |bytes| == 4
  {
    [value % 256, value / 256 % 256, value / 256 / 256 % 256, value / 256 / 256 / 256]
  }

  function FromLe32(bytes: seq<u8>): u32
    requires |bytes| == 4
  {
    var b0: int, b1: int, b2: int, b3: int := bytes[0], bytes[1], bytes[2], bytes[3];
    b0 + 256 * (b1 + 256 * (b2 + 256 * b3))
  }

  /** Byte `i` is `value / 256^i % 256`, and its weight in the word is 256^i. */
  lemma LittleEndian(value: u32, bytes: seq<u8>)
    requires |bytes| == 4
    ensures Le32(value)[0] == value % 256 && Le32(value)[1] == value / 0x100 % 256
    ensures Le32(value)[2] == value / 0x1_0000 % 256 && Le32(value)[3] == value / 0x100_0000 % 256
    ensures var b0: int, b1: int, b2: int, b3: int := bytes[0], bytes[1], bytes[2], bytes[3];
      FromLe32(bytes) == b0 + 0x100 * b1 + 0x1_0000 * b2 + 0x100_0000 * b3
  {}

  lemma Le32RoundTrip(value: u32)
    ensures FromLe32(Le32(value)) == value
  {}

  lemma DivModLow(low: int, high: int)
    requires 0 <= low < 256
    ensures (low + 256 * high) % 256 == low && (low + 256 * high) / 256 == high
  {}

  lemma FromLe32RoundTrip(bytes: seq<u8>)
    requires |bytes| == 4
    ensures Le32(FromLe32(bytes)) == bytes
  {
    var b0: int, b1: int, b2: int, b3: int := bytes[0], bytes[1], bytes[2], bytes[3];
    DivModLow(b0, b1 + 256 * (b2 + 256 * b3));
    DivModLow(b1, b2 + 256 * b3);
    DivModLow(b2, b3);
  }

  /** Replaces `data` in `s` at `offset`. */
  function Splice<T>(s: seq<T>, offset: nat, data: seq<T>): (r: seq<T>)
    requires offset + |data| <= |s|
    ensures |r| == |s|
  {
    s[..offset] + data + s[offset + |data|..]
  }

  /** A splice shows its data in place and leaves every disjoint slice unchanged. */
  lemma SpliceSlices<T>(s: seq<T>, offset: nat, data: seq<T>, low: nat, high: nat)
    requires offset + |data| <= |s| && low <= high <= |s|
    ensures Splice(s, offset, data)[offset..offset + |data|] == data
    ensures high <= offset || offset + |data| <= low ==> Splice(s, offset, data)[low..high] == s[low..high]
  {
    var r := Splice(s, offset, data);
    assert forall i | 0 <= i < |s| ::
        r[i] == if i < offset then s[i] else if i < offset + |data| then data[i - offset] else s[i];
  }

  lemma SliceOfSlice<T>(s: seq<T>, low: nat, high: nat, from: nat, to: nat)
    requires low <= high <= |s| && from <= to <= high - low
    ensures s[low..high][from..to] == s[low + from..low + to]
  {
    var a, b := s[low..high][from..to], s[low + from..low + to];
    assert |a| == |b|;
    forall k | 0 <= k < |a| ensures a[k] == b[k] {}
  }

  function Zeros(n: nat): (z: seq<u8>)
    ensures |z| == n && forall i | 0 <= i < n :: z[i] == 0
  {
    if n == 0 then [] else [0] + Zeros(n - 1)
  }
}
