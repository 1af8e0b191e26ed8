/** Byte-level primitives shared by the ELF reader and the embed-table walker:
    the clamped slice that `read_bytes` amounts to, unsigned integer decoding
    in either byte order, and lower-case hex rendering. */
module Bytes {

  type uint8 = x: int | 0 <= x < 0x100

  /** The byte order of an image as identified by EI_DATA. `NoOrder` stands
      for an unrecognised encoding byte; decoding with it is an error. */
  datatype ByteOrder = Little | Big | NoOrder

  type KnownOrder = o: ByteOrder | o != NoOrder witness Little

  /** What the decoders can fail with: an integer decode asked for with an
      unknown byte order, or an index past the end of a list or buffer. */
  datatype Error = InvalidByteOrder | IndexOutOfRange

  datatype Result<T> = Ok(value: T) | Err(error: Error)

  datatype Option<T> = None | Some(value: T)

  function Min(a: int, b: int): int { if a <= b then a else b }

  function Max(a: int, b: int): int { if a <= b then b else a }

  /** `buf[s:e]` for non-negative bounds: both bounds are clamped to the
      buffer and an inverted range is empty. Out-of-range reads are silent. */
  function Slice(buf: seq<uint8>, s: nat, e: nat): (r: seq<uint8>)
    ensures |r| == Max(0, Min(e, |buf|) - s)
    ensures forall k :: 0 <= k < |r| ==> r[k] == buf[s + k]
  {
    var n := Max(0, Min(e, |buf|) - s);
    seq(n, k requires 0 <= k < n => buf[s + k])
  }

  /** Within the buffer, the slice is the sequence range [s, e). */
  lemma SliceRange(buf: seq<uint8>, s: nat, e: nat)
    requires s <= e <= |buf|
    ensures Slice(buf, s, e) == buf[s..e]
  {
  }

  /** A Python slice bound made non-negative: a negative bound counts from
      the end of a sequence of length n, and stops at its start. */
  function PyIndex(i: int, n: nat): nat
  {
    if i >= 0 then i else Max(0, i + n)
  }

  /** Python's `buf[s:e]` for any integer bounds: negative bounds count from
      the end, then the slice is clamped like `Slice`. */
  function PySlice(buf: seq<uint8>, s: int, e: int): seq<uint8>
  {
    Slice(buf, PyIndex(s, |buf|), PyIndex(e, |buf|))
  }

  /** Slicing never yields more than the bounds span, unless the end is
      negative and the start is not. */
  lemma PySliceLength(buf: seq<uint8>, s: int, e: int)
    requires s < 0 || e >= 0
    ensures |PySlice(buf, s, e)| <= Max(0, e - s)
  {
  }

  /** A negative bound reads from the end: `buf[-k:]`-style windows pick the
      same bytes as the non-negative bounds k places before the end. */
  lemma PySliceFromEnd(buf: seq<uint8>, s: int, e: int)
    requires -|buf| <= s < 0 && -|buf| <= e < 0
    ensures PySlice(buf, s, e) == Slice(buf, s + |buf|, e + |buf|)
  {
  }

  /** Reading a sub-range of a slice is the same as slicing the buffer at
      the shifted bounds: a reader confined to a window sees the buffer. */
  lemma SliceWithin(buf: seq<uint8>, s: nat, n: nat, x: nat, y: nat)
    requires x <= y <= n
    ensures Slice(Slice(buf, s, s + n), x, y) == Slice(buf, s + x, s + y)
  {
    var w := Slice(buf, s, s + n);
    var lhs := Slice(w, x, y);
    var rhs := Slice(buf, s + x, s + y);
    assert |lhs| == |rhs| by {
      if s >= |buf| {
        assert |w| == 0;
      } else {
        assert |w| == Min(s + n, |buf|) - s;
        assert Min(y, |w|) == Min(s + y, |buf|) - s;
      }
    }
    forall k | 0 <= k < |lhs|
      ensures lhs[k] == rhs[k]
    {
      assert lhs[k] == w[x + k] == buf[s + x + k];
    }
  }

  /** Buffers that agree on a window agree on every range inside it. */
  lemma SliceWindowEqual(b1: seq<uint8>, b2: seq<uint8>, s: nat, n: nat, x: nat, y: nat)
    requires x <= y <= n
    requires Slice(b1, s, s + n) == Slice(b2, s, s + n)
    ensures Slice(b1, s + x, s + y) == Slice(b2, s + x, s + y)
  {
    SliceWithin(b1, s, n, x, y);
    SliceWithin(b2, s, n, x, y);
  }

  /** The same for a decoded integer. */
  lemma UintWindowEqual(b1: seq<uint8>, b2: seq<uint8>, s: nat, n: nat, x: nat, y: nat, order: KnownOrder)
    requires x <= y <= n
    requires Slice(b1, s, s + n) == Slice(b2, s, s + n)
    ensures Uint(Slice(b1, s + x, s + y), order) == Uint(Slice(b2, s + x, s + y), order)
  {
    SliceWindowEqual(b1, b2, s, n, x, y);
  }

  function Pow256(n: nat): (p: nat)
    ensures p >= 1
  {
    if n == 0 then 1 else 256 * Pow256(n - 1)
  }

  /** Unsigned little-endian value: byte i has weight 256^i. */
  function LittleEndian(bs: seq<uint8>): nat
  {
    if bs == [] then 0 else bs[0] + 256 * LittleEndian(bs[1..])
  }

  /** Unsigned big-endian value: the last byte has weight 1. */
  function BigEndian(bs: seq<uint8>): nat
  {
    if bs == [] then 0 else 256 * BigEndian(bs[..|bs| - 1]) + bs[|bs| - 1]
  }

  /** `int.from_bytes` with a recognised byte order. */
  function Uint(bs: seq<uint8>, order: KnownOrder): nat
  {
    if order == Little then LittleEndian(bs) else BigEndian(bs)
  }

  /** `int.from_bytes`: an unrecognised byte order is rejected whatever the
      bytes are; otherwise the value fits in as many bytes as were given. */
  function FromBytes(bs: seq<uint8>, order: ByteOrder): (r: Result<nat>)
    ensures r.Err? <==> order == NoOrder
    ensures r.Err? ==> r.error == InvalidByteOrder
    ensures r.Ok? ==> r.value < Pow256(|bs|)
  {
    if order == NoOrder then Err(InvalidByteOrder)
    else
      UintBound(bs, order);
      Ok(Uint(bs, order))
  }

  /** `read_bytes_as_int`: decode the clamped slice [s, e). */
  function ReadBytesAsInt(buf: seq<uint8>, s: nat, e: nat, order: ByteOrder): (r: Result<nat>)
    ensures r.Err? <==> order == NoOrder
    ensures r.Ok? ==> r.value < Pow256(Max(0, e - s))
  {
    var bs := Slice(buf, s, e);
    assert Pow256(|bs|) <= Pow256(Max(0, e - s)) by { Pow256Monotone(|bs|, Max(0, e - s)); }
    FromBytes(bs, order)
  }

  lemma {:induction false} Pow256Monotone(m: nat, n: nat)
    requires m <= n
    ensures Pow256(m) <= Pow256(n)
  {
    if m < n { Pow256Monotone(m, n - 1); }
  }

  lemma {:induction false} LittleEndianBound(bs: seq<uint8>)
    ensures LittleEndian(bs) < Pow256(|bs|)
  {
    if bs != [] { LittleEndianBound(bs[1..]); }
  }

  lemma {:induction false} BigEndianBound(bs: seq<uint8>)
    ensures BigEndian(bs) < Pow256(|bs|)
  {
    if bs != [] { BigEndianBound(bs[..|bs| - 1]); }
  }

  lemma UintBound(bs: seq<uint8>, order: KnownOrder)
    ensures Uint(bs, order) < Pow256(|bs|)
  {
    if order == Little { LittleEndianBound(bs); } else { BigEndianBound(bs); }
  }

  /** The n-byte little-endian encoding of v (v taken modulo 256^n). */
  function EncodeLittle(v: nat, n: nat): (bs: seq<uint8>)
    ensures |bs| == n
  {
    if n == 0 then [] else [v % 256] + EncodeLittle(v / 256, n - 1)
  }

  function Reverse(bs: seq<uint8>): (r: seq<uint8>)
    ensures |r| == |bs|
  {
    if bs == [] then [] else Reverse(bs[1..]) + [bs[0]]
  }

  /** Encoding then decoding gives back every value representable in n bytes. */
  lemma {:induction false} LittleEndianRoundTrip(v: nat, n: nat)
    requires v < Pow256(n)
    ensures LittleEndian(EncodeLittle(v, n)) == v
  {
    if n > 0 {
      var bs := EncodeLittle(v, n);
      assert bs[1..] == EncodeLittle(v / 256, n - 1);
      LittleEndianRoundTrip(v / 256, n - 1);
    }
  }

  /** Decoding then re-encoding at the same width gives back the bytes. */
  lemma {:induction false} EncodeLittleRoundTrip(bs: seq<uint8>)
    ensures EncodeLittle(LittleEndian(bs), |bs|) == bs
  {
    if bs != [] {
      var v := LittleEndian(bs);
      assert v % 256 == bs[0] && v / 256 == LittleEndian(bs[1..]);
      EncodeLittleRoundTrip(bs[1..]);
    }
  }

  /** Big-endian decoding is little-endian decoding of the reversed bytes. */
  lemma {:induction false} BigEndianIsReversedLittle(bs: seq<uint8>)
    ensures BigEndian(bs) == LittleEndian(Reverse(bs))
  {
    if bs != [] {
      var n := |bs|;
      ReverseSnoc(bs[..n - 1], bs[n - 1]);
      assert bs[..n - 1] + [bs[n - 1]] == bs;
      BigEndianIsReversedLittle(bs[..n - 1]);
      var r := Reverse(bs);
      assert r[0] == bs[n - 1] && r[1..] == Reverse(bs[..n - 1]);
    }
  }

  lemma {:induction false} ReverseSnoc(bs: seq<uint8>, b: uint8)
    ensures Reverse(bs + [b]) == [b] + Reverse(bs)
  {
    if bs != [] {
      assert (bs + [b])[1..] == bs[1..] + [b];
      ReverseSnoc(bs[1..], b);
    }
  }

  /** A value is the same in both orders when it is one byte long. */
  lemma SingleByteEitherOrder(bs: seq<uint8>)
    requires |bs| <= 1
    ensures LittleEndian(bs) == BigEndian(bs)
    ensures |bs| == 1 ==> LittleEndian(bs) == bs[0]
  {
    if |bs| == 1 { assert bs[1..] == [] && bs[..0] == []; }
  }

  /** The lower-case hex digit for a nibble. */
  function HexDigit(d: nat): char
    requires d < 16
  {
    if d < 10 then '0' + d as char else 'a' + (d - 10) as char
  }

  predicate IsHexChar(c: char) { '0' <= c <= '9' || 'a' <= c <= 'f' }

  /** Python's `bytes.hex()`: two lower-case hex digits per byte, high nibble first. */
  function Hex(bs: seq<uint8>): (s: string)
    ensures |s| == 2 * |bs|
    ensures forall k :: 0 <= k < |s| ==> IsHexChar(s[k])
  {
    if bs == [] then []
    else [HexDigit(bs[0] / 16), HexDigit(bs[0] % 16)] + Hex(bs[1..])
  }

  function HexValue(c: char): (v: nat)
    ensures v < 16
    ensures IsHexChar(c) ==> HexDigit(v) == c
  {
    if '0' <= c <= '9' then (c - '0') as nat
    else if 'a' <= c <= 'f' then (c - 'a') as nat + 10
    else 0
  }

  lemma HexValueOfDigit(d: nat)
    requires d < 16
    ensures HexValue(HexDigit(d)) == d
  {
  }

  /** Reads a hex string back into bytes, two digits at a time. */
  function UnHex(s: string): (bs: seq<uint8>)
    decreases |s|
  {
    if |s| < 2 then [] else [16 * HexValue(s[0]) + HexValue(s[1])] + UnHex(s[2..])
  }

  /** The hex rendering loses nothing: reading it back yields the bytes. */
  lemma {:induction false} HexRoundTrip(bs: seq<uint8>)
    ensures UnHex(Hex(bs)) == bs
  {
    if bs != [] {
      var s := Hex(bs);
      assert s[2..] == Hex(bs[1..]);
      HexValueOfDigit(bs[0] / 16);
      HexValueOfDigit(bs[0] % 16);
      assert UnHex(s) == [16 * (bs[0] / 16) + bs[0] % 16] + UnHex(s[2..]);
      HexRoundTrip(bs[1..]);
    }
  }

  /** Where record i of a run of fixed-size records starts: i whole records
      past the base. */
  function RecordStart(base: int, i: nat, size: nat): (p: int)
    ensures base >= 0 ==> p >= 0
  {
    base + i * size
  }

  /** A cursor that starts at the base and moves on by one record size at a
      time is at RecordStart after i steps. */
  lemma RecordStartStep(base: int, i: nat, size: nat)
    ensures RecordStart(base, 0, size) == base
    ensures RecordStart(base, i + 1, size) == RecordStart(base, i, size) + size
  {
  }

  /** Records 0 to n - 1, in order, as a loop that appends them one at a
      time collects them. */
  function Records<T>(decode: nat -> T, n: nat): (rs: seq<T>)
    ensures |rs| == n
  {
    seq(n, (i: int) requires 0 <= i => decode(i))
  }

  /** Record i is decoded on its own, however many records follow it. */
  lemma RecordsAt<T>(decode: nat -> T, n: nat, i: nat)
    requires i < n
    ensures Records(decode, n)[i] == decode(i)
  {
  }

  /** One more record appends the next one. */
  lemma RecordsSnoc<T>(decode: nat -> T, n: nat)
    ensures Records(decode, n) + [decode(n)] == Records(decode, n + 1)
  {
  }
}
