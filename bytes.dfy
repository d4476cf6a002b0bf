/** Byte-level vocabulary shared by every reader: bytes and fixed-width
    unsigned integers, the `struct` decodings the tools use ('<I', '>I', '<i',
    '<H'), file reads that come back short at the end of the file, and the two
    ways the tools turn name bytes into text. */
module Bytes {
  import opened Results

  type byte = b: int | 0 <= b < 0x100
  type u16 = x: int | 0 <= x < 0x1_0000
  type u32 = x: int | 0 <= x < 0x1_0000_0000

  /** The byte order a reader applies to every multi-byte field. */
  datatype ByteOrder = LittleEndian | BigEndian

  // ---------------------------------------------------------------------------
  // Unsigned 32-bit fields
  // ---------------------------------------------------------------------------

  /** `struct.unpack('<I' or '>I', s[i:i+4])[0]`. */
  function U32At(s: seq<byte>, i: nat, order: ByteOrder): u32
    requires i + 4 <= |s|
  {
    match order
    case LittleEndian => Compose(s[i], s[i + 1], s[i + 2], s[i + 3])
    case BigEndian => Compose(s[i + 3], s[i + 2], s[i + 1], s[i])
  }

  /** The value whose base-256 digits, least significant first, are b0..b3. */
  function Compose(b0: byte, b1: byte, b2: byte, b3: byte): u32
  {
    b0 + 0x100 * (b1 + 0x100 * (b2 + 0x100 * b3 as int))
  }

  /** The `n` lowest base-256 digits of `x`, least significant first. */
  function LeDigits(x: nat, n: nat): (r: seq<byte>)
    ensures |r| == n
    decreases n
  {
    if n == 0 then [] else [x % 0x100] + LeDigits(x / 0x100, n - 1)
  }

  /** `struct.pack('<I' or '>I', x)`. */
  function U32Bytes(x: u32, order: ByteOrder): (r: seq<byte>)
    ensures |r| == 4
  {
    var le := LeDigits(x, 4);
    match order
    case LittleEndian => le
    case BigEndian => [le[3], le[2], le[1], le[0]]
  }

  /** The four digits of a u32, spelled out. */
  lemma {:induction false} U32Digits(x: u32)
    ensures var y := x / 0x100; var z := y / 0x100;
      LeDigits(x, 4) == [x % 0x100, y % 0x100, z % 0x100, z / 0x100]
  {
    var y := x / 0x100;
    var z := y / 0x100;
    assert LeDigits(x, 4) == [x % 0x100] + LeDigits(y, 3);
    assert LeDigits(y, 3) == [y % 0x100] + LeDigits(z, 2);
    assert LeDigits(z, 2) == [z % 0x100] + LeDigits(z / 0x100, 1);
    assert LeDigits(z / 0x100, 1) == [(z / 0x100) % 0x100] + LeDigits(z / 0x100 / 0x100, 0);
  }

  lemma DigitSplit(x: int, q: int, r: int)
    requires x == 0x100 * q + r && 0 <= r < 0x100
    ensures x / 0x100 == q && x % 0x100 == r
  {
  }

  /** Decoding four bytes that encode `x` gives `x` back, wherever they sit. */
  lemma U32RoundTrip(s: seq<byte>, i: nat, x: u32, order: ByteOrder)
    requires i + 4 <= |s| && s[i..i + 4] == U32Bytes(x, order)
    ensures U32At(s, i, order) == x
  {
    assert s[i] == s[i..i + 4][0] && s[i + 1] == s[i..i + 4][1];
    assert s[i + 2] == s[i..i + 4][2] && s[i + 3] == s[i..i + 4][3];
    U32Digits(x);
    var y := x / 0x100;
    var z := y / 0x100;
    assert x == x % 0x100 + 0x100 * y;
    assert y == y % 0x100 + 0x100 * z;
    assert z == z % 0x100 + 0x100 * (z / 0x100);
  }

  /** Encoding the value of the four bytes at `i` reproduces them. */
  lemma U32BytesOfDecode(s: seq<byte>, i: nat, order: ByteOrder)
    requires i + 4 <= |s|
    ensures U32Bytes(U32At(s, i, order), order) == s[i..i + 4]
  {
    var d0, d1, d2, d3 := s[i], s[i + 1], s[i + 2], s[i + 3];
    if order.BigEndian? {
      d0, d1, d2, d3 := s[i + 3], s[i + 2], s[i + 1], s[i];
    }
    var z := d2 + 0x100 * d3 as int;
    var y := d1 + 0x100 * z;
    var x := d0 + 0x100 * y;
    assert x == U32At(s, i, order);
    U32Digits(x);
    DigitSplit(x, y, d0);
    DigitSplit(y, z, d1);
    DigitSplit(z, d3, d2);
  }

  /** A read of a u32 field from a file: `struct.unpack` of a short read
      raises, modelled as None. */
  function ReadU32(s: seq<byte>, pos: nat, order: ByteOrder): (r: Option<u32>)
    ensures r.Some? <==> pos + 4 <= |s|
    ensures r.Some? ==> r.value == U32At(s, pos, order)
  {
    if pos + 4 <= |s| then Some(U32At(s, pos, order)) else None
  }

  /** `struct.unpack('<i' or '>i', ...)`: the same four bytes read as a signed
      two's-complement value. */
  function I32(u: u32): (r: int)
    ensures -0x8000_0000 <= r < 0x8000_0000
    ensures r % 0x1_0000_0000 == u
    ensures r < 0 <==> u >= 0x8000_0000
  {
    if u < 0x8000_0000 then u else u - 0x1_0000_0000
  }

  /** The bits `struct.pack('<i' or '>i', v)` stores for a signed value: its
      two's-complement pattern, which I32 reads back. */
  function I32Bits(v: int): (u: u32)
    requires -0x8000_0000 <= v < 0x8000_0000
    ensures I32(u) == v
  {
    if v < 0 then v + 0x1_0000_0000 else v
  }

  /** `struct.unpack('<H', s[i:i+2])[0]`. */
  function U16Le(s: seq<byte>, i: nat): u16
    requires i + 2 <= |s|
  {
    s[i] + 0x100 * s[i + 1] as int
  }

  /** `struct.pack('<H', x)`. */
  function U16LeBytes(x: u16): (r: seq<byte>)
    ensures |r| == 2
  {
    [x % 0x100, x / 0x100]
  }

  lemma U16RoundTrip(s: seq<byte>, i: nat, x: u16)
    requires i + 2 <= |s| && s[i..i + 2] == U16LeBytes(x)
    ensures U16Le(s, i) == x
  {
    assert s[i] == s[i..i + 2][0] && s[i + 1] == s[i..i + 2][1];
  }

  /** Encoding the value of the two bytes at `i` reproduces them. */
  lemma U16BytesOfDecode(s: seq<byte>, i: nat)
    requires i + 2 <= |s|
    ensures U16LeBytes(U16Le(s, i)) == s[i..i + 2]
  {
    DigitSplit(U16Le(s, i), s[i + 1], s[i]);
  }

  /** A field read past the end of `a` in `a + b` is a field of `b`. */
  lemma FieldsAfter(a: seq<byte>, b: seq<byte>, i: nat)
    requires i + 2 <= |b|
    ensures U16Le(a + b, |a| + i) == U16Le(b, i)
    ensures i + 4 <= |b| ==> U32At(a + b, |a| + i, LittleEndian) == U32At(b, i, LittleEndian)
  {
  }

  /** A field read within `a` in `a + b` is a field of `a`. */
  lemma FieldsBefore(a: seq<byte>, b: seq<byte>, i: nat)
    requires i + 2 <= |a|
    ensures U16Le(a + b, i) == U16Le(a, i)
    ensures i + 4 <= |a| ==> U32At(a + b, i, LittleEndian) == U32At(a, i, LittleEndian)
  {
  }

  // ---------------------------------------------------------------------------
  // Runs of little-endian u32 fields ('<nI')
  // ---------------------------------------------------------------------------

  /** `struct.unpack('<' + 'I' * (|s| / 4), s)`. */
  function U32sLe(s: seq<byte>): (r: seq<u32>)
    requires |s| % 4 == 0
    ensures |r| == |s| / 4
    ensures forall k :: 0 <= k < |r| ==> r[k] == U32At(s, 4 * k, LittleEndian)
    decreases |s|
  {
    if |s| == 0 then []
    else
      var rest := U32sLe(s[4..]);
      assert forall k :: 0 <= k < |rest| ==> U32At(s[4..], 4 * k, LittleEndian) == U32At(s, 4 * (k + 1), LittleEndian);
      [U32At(s, 0, LittleEndian)] + rest
  }

  /** `struct.pack(order + 'I' * |xs|, *xs)`. */
  function U32sBytes(xs: seq<u32>, order: ByteOrder): (r: seq<byte>)
    ensures |r| == 4 * |xs|
  {
    if xs == [] then [] else U32Bytes(xs[0], order) + U32sBytes(xs[1..], order)
  }

  /** A run of two, or of four, u32s packs field by field. */
  lemma U32sBytesTwo(a: u32, b: u32, order: ByteOrder)
    ensures U32sBytes([a, b], order) == U32Bytes(a, order) + U32Bytes(b, order)
  {
    assert [a, b][1..] == [b];
    assert U32sBytes([b], order) == U32Bytes(b, order) + U32sBytes([], order);
  }

  lemma U32sBytesFour(a: u32, b: u32, c: u32, d: u32, order: ByteOrder)
    ensures U32sBytes([a, b, c, d], order) == U32Bytes(a, order) + U32Bytes(b, order) + U32sBytes([c, d], order)
  {
    assert [a, b, c, d][1..] == [b, c, d];
    assert [b, c, d][1..] == [c, d];
  }

  /** Field `k` of a packed run of u32s decodes back from its own four
      bytes, wherever the run sits. */
  lemma {:induction false} U32sBytesNth(s: seq<byte>, pos: nat, xs: seq<u32>, order: ByteOrder, k: nat)
    requires pos + 4 * |xs| <= |s| && s[pos..pos + 4 * |xs|] == U32sBytes(xs, order)
    requires k < |xs|
    ensures U32At(s, pos + 4 * k, order) == xs[k]
    decreases k
  {
    SplitWindow(s, pos, U32Bytes(xs[0], order), U32sBytes(xs[1..], order));
    if k == 0 {
      U32RoundTrip(s, pos, xs[0], order);
    } else {
      U32sBytesNth(s, pos + 4, xs[1..], order, k - 1);
    }
  }

  /** Field `k` of a packed run of u32s reads back when more bytes follow
      the run. */
  lemma U32sBytesBefore(xs: seq<u32>, rest: seq<byte>, order: ByteOrder, k: nat)
    requires k < |xs|
    ensures U32At(U32sBytes(xs, order) + rest, 4 * k, order) == xs[k]
  {
    var s := U32sBytes(xs, order) + rest;
    assert s[0..4 * |xs|] == U32sBytes(xs, order);
    U32sBytesNth(s, 0, xs, order, k);
  }

  lemma U32sBytesAt(s: seq<byte>, pos: nat, xs: seq<u32>, order: ByteOrder)
    requires pos + 4 * |xs| <= |s| && s[pos..pos + 4 * |xs|] == U32sBytes(xs, order)
    ensures forall k :: 0 <= k < |xs| ==> U32At(s, pos + 4 * k, order) == xs[k]
  {
    forall k | 0 <= k < |xs|
      ensures U32At(s, pos + 4 * k, order) == xs[k]
    {
      U32sBytesNth(s, pos, xs, order, k);
    }
  }

  /** A window of `s` holding `a + b` holds `a`, then `b`. */
  lemma SplitWindow(s: seq<byte>, pos: nat, a: seq<byte>, b: seq<byte>)
    requires pos + |a| + |b| <= |s| && s[pos..pos + |a| + |b|] == a + b
    ensures s[pos..pos + |a|] == a && s[pos + |a|..pos + |a| + |b|] == b
  {
    assert s[pos..pos + |a|] == (a + b)[..|a|];
    assert s[pos + |a|..pos + |a| + |b|] == (a + b)[|a|..];
  }

  /** Packing then unpacking a little-endian run of u32 fields is the
      identity. */
  lemma U32sLeRoundTrip(xs: seq<u32>)
    ensures U32sLe(U32sBytes(xs, LittleEndian)) == xs
  {
    var s := U32sBytes(xs, LittleEndian);
    assert s[0..4 * |xs|] == s;
    U32sBytesAt(s, 0, xs, LittleEndian);
  }

  // ---------------------------------------------------------------------------
  // File reads
  // ---------------------------------------------------------------------------

  /** `f.seek(pos); f.read(n)`: up to `n` bytes, fewer (possibly none) at the
      end of the file; seeking past the end is allowed. */
  function ReadAt(s: seq<byte>, pos: nat, n: nat): (r: seq<byte>)
    ensures |r| == if pos + n <= |s| then n else if pos <= |s| then |s| - pos else 0
    ensures pos + n <= |s| ==> r == s[pos..pos + n]
    ensures forall k :: 0 <= k < |r| ==> r[k] == s[pos + k]
  {
    if pos + n <= |s| then s[pos..pos + n] else if pos <= |s| then s[pos..] else []
  }

  /** Python's slice `s[a:b]` for non-negative bounds. */
  function Slice(s: seq<byte>, a: nat, b: nat): (r: seq<byte>)
    ensures |r| == if a <= b && a <= |s| then (if b <= |s| then b else |s|) - a else 0
    ensures forall k :: 0 <= k < |r| ==> r[k] == s[a + k]
  {
    var hi := if b <= |s| then b else |s|;
    if a <= hi then s[a..hi] else []
  }

  /** `(4 - n % 4) % 4`: the zero bytes that bring `n` bytes up to a
      multiple of four. */
  function Padding(n: nat): (p: nat)
    ensures p < 4
  {
    (4 - n % 4) % 4
  }

  /** Padding aligns, and adds nothing to what is already aligned. */
  lemma PaddingAligns(n: nat)
    ensures (n + Padding(n)) % 4 == 0
    ensures n % 4 == 0 <==> Padding(n) == 0
  {
  }

  // ---------------------------------------------------------------------------
  // Names
  // ---------------------------------------------------------------------------

  predicate IsAscii(bs: seq<byte>) {
    forall k :: 0 <= k < |bs| ==> bs[k] < 0x80
  }

  /** The position of the first NUL at or after `offset`, or the table end. */
  function NulFrom(names: seq<byte>, offset: nat): (end: nat)
    requires offset <= |names|
    ensures offset <= end <= |names|
    ensures forall k :: offset <= k < end ==> names[k] != 0
    ensures end < |names| ==> names[end] == 0
    decreases |names| - offset
  {
    if offset == |names| || names[offset] == 0 then offset else NulFrom(names, offset + 1)
  }

  /** A name free of NUL bytes, stored NUL-terminated, ends at that NUL. */
  lemma {:induction false} NulAfterName(prefix: seq<byte>, bytes: seq<byte>, rest: seq<byte>)
    requires forall k :: 0 <= k < |bytes| ==> bytes[k] != 0
    ensures NulFrom(prefix + bytes + [0] + rest, |prefix|) == |prefix| + |bytes|
    ensures (prefix + bytes + [0] + rest)[|prefix|..|prefix| + |bytes|] == bytes
  {
    var table := prefix + bytes + [0] + rest;
    var o := |prefix|;
    forall k | o <= k < o + |bytes|
      ensures table[k] != 0
    {
      assert table[k] == bytes[k - o];
    }
    assert table[o + |bytes|] == 0;
  }

  /** `bs.decode('ascii')` when every byte is ASCII. */
  function AsciiText(bs: seq<byte>): (r: string)
    requires IsAscii(bs)
    ensures |r| == |bs|
    ensures forall k :: 0 <= k < |r| ==> r[k] as int == bs[k]
  {
    seq(|bs|, k requires 0 <= k < |bs| => bs[k] as char)
  }

  /** `bs.decode('utf-8', errors='ignore')` restricted to what this model
      tracks: ASCII bytes decode to their characters, every other byte is
      dropped. */
  function LenientText(bs: seq<byte>): (r: string)
    ensures |r| <= |bs|
  {
    if bs == [] then ""
    else (if bs[0] < 0x80 then [bs[0] as char] else []) + LenientText(bs[1..])
  }

  /** ASCII bytes decode leniently to exactly their characters. */
  lemma {:induction false} LenientTextAscii(bs: seq<byte>)
    requires IsAscii(bs)
    ensures LenientText(bs) == AsciiText(bs)
  {
    if bs != [] {
      LenientTextAscii(bs[1..]);
      assert AsciiText(bs) == [bs[0] as char] + AsciiText(bs[1..]);
    }
  }

  /** Lenient decoding only ever yields ASCII characters. */
  lemma {:induction false} LenientTextChars(bs: seq<byte>)
    ensures forall k :: 0 <= k < |LenientText(bs)| ==> LenientText(bs)[k] as int < 0x80
  {
    if bs != [] {
      LenientTextChars(bs[1..]);
    }
  }

  /** The bytes of an ASCII string, the inverse of AsciiText. */
  function TextBytes(t: string): (r: seq<byte>)
    requires forall k :: 0 <= k < |t| ==> t[k] as int < 0x80
    ensures |r| == |t| && IsAscii(r) && AsciiText(r) == t
  {
    seq(|t|, k requires 0 <= k < |t| => t[k] as int)
  }
}
