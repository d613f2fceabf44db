/** The integer encoders of src/utils.rs: `left_encode` and `right_encode` from
    section 2.3.1 of NIST SP 800-185. Each writes the eight big-endian bytes of a
    `u64` into a caller-supplied 9-byte buffer, counts the leading zero bytes
    with a `take_while` scan, stores a count byte and returns a suffix of the
    buffer.

    `LeftEncoding` and `RightEncoding` say what the returned slice holds: the
    minimal big-endian bytes of the value (`Digits`) with their count in front
    or behind, except that `left_encode` keeps one data byte for zero. The
    methods work on the buffer in place and are proved to return exactly those
    bytes; the lemmas state what the bytes mean and that the decoders
    `LeftDecode` / `RightDecode` invert them. */
module Utils {

  /** Rust `u8`. */
  type Byte = b: int | 0 <= b < 256

  /** 2^64: one more than the largest Rust `u64`. */
  const U64_LIMIT: nat := 0x1_0000_0000_0000_0000

  /** Rust `u64`. */
  type U64 = n: nat | n < U64_LIMIT

  datatype Option<T> = None | Some(value: T)

  function Pow256(k: nat): (p: nat)
    ensures p > 0
  {
    if k == 0 then 1 else 256 * Pow256(k - 1)
  }

  /** The `width` big-endian bytes of `val` modulo 256^width; with width 8 this is
      `u64::to_be_bytes`. */
  function BigEndian(val: nat, width: nat): (r: seq<Byte>)
    ensures |r| == width
  {
    if width == 0 then [] else BigEndian(val / 256, width - 1) + [val % 256]
  }

  /** The number a big-endian byte string denotes. */
  function FromBigEndian(s: seq<Byte>): nat
  {
    if s == [] then 0 else FromBigEndian(s[..|s| - 1]) * 256 + s[|s| - 1]
  }

  /** The big-endian bytes of `val` without any leading zero byte; zero has none. */
  function Digits(val: nat): (r: seq<Byte>)
    ensures val != 0 ==> |r| > 0 && r[0] != 0
    decreases val
  {
    if val == 0 then [] else Digits(val / 256) + [val % 256]
  }

  /** `n` zero bytes. */
  function Zeros(n: nat): (r: seq<Byte>)
    ensures |r| == n
  {
    seq(n, _ => 0)
  }

  /** `s.iter().take_while(|&&a| a == 0).count()`: the length of the longest
      all-zero prefix of `s`. */
  function LeadingZeros(s: seq<Byte>): (n: nat)
    ensures n <= |s|
  {
    if s == [] || s[0] != 0 then 0 else 1 + LeadingZeros(s[1..])
  }

  /** The slice `left_encode(val, b)` returns: the number of data bytes, then the
      minimal big-endian bytes of `val`; zero keeps one data byte, 0. */
  function LeftEncoding(val: U64): (r: seq<Byte>)
  {
    DigitsFit(val);
    if val == 0 then [1, 0] else [|Digits(val)|] + Digits(val)
  }

  /** The slice `right_encode(val, b)` returns: the minimal big-endian bytes of
      `val`, then their number; zero has no data byte at all. */
  function RightEncoding(val: U64): (r: seq<Byte>)
  {
    DigitsFit(val);
    Digits(val) + [|Digits(val)|]
  }

  /** Reads a left-encoded integer from the front of `s`: the value and the number
      of bytes it occupies. */
  function LeftDecode(s: seq<Byte>): Option<(nat, nat)>
  {
    if |s| == 0 || s[0] == 0 || s[0] > 8 || |s| < 1 + s[0] then None
    else Some((FromBigEndian(s[1..1 + s[0]]), 1 + s[0]))
  }

  /** Reads a right-encoded integer from the end of `s`: the value and the number
      of bytes it occupies. */
  function RightDecode(s: seq<Byte>): Option<(nat, nat)>
  {
    if |s| == 0 || s[|s| - 1] > 8 || |s| < 1 + s[|s| - 1] then None
    else
      var n := s[|s| - 1];
      Some((FromBigEndian(s[|s| - 1 - n..|s| - 1]), 1 + n))
  }

  // ---------------------------------------------------------------------------
  // The buffer-writing encoders (src/utils.rs:2-15)

  /** `b[offset..offset + 8].copy_from_slice(&val.to_be_bytes())`. */
  method CopyBigEndian(val: U64, b: array<Byte>, offset: nat)
    requires offset + 8 <= b.Length
    modifies b
    ensures b[..] == old(b[..offset]) + BigEndian(val, 8) + old(b[offset + 8..])
  {
    var bytes := BigEndian(val, 8);
    for k := 0 to 8
      invariant forall j :: 0 <= j < offset ==> b[j] == old(b[j])
      invariant forall j :: 0 <= j < k ==> b[offset + j] == bytes[j]
      invariant forall j :: offset + k <= j < b.Length ==> b[j] == old(b[j])
    {
      b[offset + k] := bytes[k];
    }
    assert b[..] == old(b[..offset]) + bytes + old(b[offset + 8..]);
  }

  /** The `take_while(..).count()` scan over `b[lo..hi]`. */
  method CountLeadingZeros(b: array<Byte>, lo: nat, hi: nat) returns (n: nat)
    requires lo <= hi <= b.Length
    ensures n == LeadingZeros(b[lo..hi])
  {
    n := 0;
    while lo + n < hi && b[lo + n] == 0
      invariant lo + n <= hi
      invariant forall k :: lo <= k < lo + n ==> b[k] == 0
    {
      n := n + 1;
    }
    LeadingZerosUnique(b[lo..hi], n);
  }

  /** `left_encode(val, b)`: the returned slice is `b[i..]`. */
  method LeftEncode(val: U64, b: array<Byte>) returns (i: nat)
    requires b.Length == 9
    modifies b
    ensures i <= 7 && b[i] == 8 - i
    ensures b[..] == (old(b[..1]) + BigEndian(val, 8))[i := 8 - i]
    ensures b[i..] == LeftEncoding(val)
  {
    ghost var first := b[..1];
    CopyBigEndian(val, b, 1);
    i := CountLeadingZeros(b, 1, 8);
    ghost var be := BigEndian(val, 8);
    assert b[..] == first + be;
    assert b[1..8] == be[..7];
    LeftScan(val);
    ghost var s := b[..];
    b[i] := 8 - i;
    WriteFirst(s, be, i, 8 - i);
  }

  /** `right_encode(val, b)`: the returned slice is `b[i..]`. */
  method RightEncode(val: U64, b: array<Byte>) returns (i: nat)
    requires b.Length == 9
    modifies b
    ensures i <= 8 && b[8] == 8 - i
    ensures b[..] == BigEndian(val, 8) + [8 - i]
    ensures b[i..] == RightEncoding(val)
  {
    CopyBigEndian(val, b, 0);
    ghost var s := b[..];
    i := CountLeadingZeros(b, 0, 8);
    RightScan(val);
    b[8] := 8 - i;
    WriteLast(s, BigEndian(val, 8), i, 8 - i);
  }

  // ---------------------------------------------------------------------------
  // What the scans find

  /** Storing `x` in the last byte of a buffer that holds `be` then one byte. */
  lemma WriteLast(s: seq<Byte>, be: seq<Byte>, i: nat, x: Byte)
    requires |be| == 8 && |s| == 9 && i <= 8 && s == be + s[8..]
    ensures s[..8] == be
    ensures s[8 := x] == be + [x] && s[8 := x][i..] == be[i..] + [x]
  {
    assert s[8 := x] == be + [x];
  }

  /** Storing `x` at index `i <= 7` of a buffer that holds one byte then `be`. */
  lemma WriteFirst(s: seq<Byte>, be: seq<Byte>, i: nat, x: Byte)
    requires |s| == 9 && |be| == 8 && i <= 7 && s[1..] == be
    ensures s[i := x][i..] == [x] + be[i..]
  {
    assert s[i := x][i + 1..] == s[i + 1..];
  }

  /** The count of leading zeros is the only `n` with a zero prefix of length `n`
      followed by a nonzero byte or the end. */
  lemma {:induction false} LeadingZerosUnique(s: seq<Byte>, n: nat)
    requires n <= |s|
    requires forall k :: 0 <= k < n ==> s[k] == 0
    requires n < |s| ==> s[n] != 0
    ensures LeadingZeros(s) == n
  {
    if n > 0 {
      LeadingZerosUnique(s[1..], n - 1);
    }
  }

  /** The count is the length of the all-zero prefix: every byte before it is 0,
      and the byte at it, if any, is not. */
  lemma {:induction false} LeadingZerosMeaning(s: seq<Byte>)
    ensures var n := LeadingZeros(s);
      && (forall k :: 0 <= k < n ==> s[k] == 0)
      && (n < |s| ==> s[n] != 0)
  {
    if s != [] && s[0] == 0 {
      LeadingZerosMeaning(s[1..]);
    }
  }

  /** Below 256^width, the `width` big-endian bytes are the minimal ones padded
      with zero bytes in front. */
  lemma {:induction false} DigitsPadded(val: nat, width: nat)
    requires val < Pow256(width)
    ensures |Digits(val)| <= width
    ensures BigEndian(val, width) == Zeros(width - |Digits(val)|) + Digits(val)
  {
    if width > 0 {
      DigitsPadded(val / 256, width - 1);
      if val == 0 {
        assert Zeros(width - 1) + [0] == Zeros(width);
      } else {
        var d := Digits(val / 256);
        assert Zeros(width - 1 - |d|) + d + [val % 256] == Zeros(width - 1 - |d|) + (d + [val % 256]);
      }
    }
  }

  /** A `u64` has at most eight minimal big-endian bytes. */
  lemma DigitsFit(val: U64)
    ensures |Digits(val)| <= 8
  {
    assert Pow256(8) == U64_LIMIT;
    DigitsPadded(val, 8);
  }

  /** The minimal big-endian bytes denote the value. */
  lemma {:induction false} DigitsValue(val: nat)
    ensures FromBigEndian(Digits(val)) == val
    decreases val
  {
    if val != 0 {
      DigitsValue(val / 256);
      var r := Digits(val);
      assert r[..|r| - 1] == Digits(val / 256);
    }
  }

  /** The scan of `left_encode`, over the first seven big-endian bytes only,
      stops at the first data byte, or at the last byte for zero; the count byte
      and the bytes from there on are the left encoding. */
  lemma LeftScan(val: U64)
    ensures var be := BigEndian(val, 8);
      var i := LeadingZeros(be[..7]);
      i <= 7 && LeftEncoding(val) == [8 - i] + be[i..]
  {
    assert Pow256(8) == U64_LIMIT;
    DigitsPadded(val, 8);
    var be, d := BigEndian(val, 8), Digits(val);
    if val == 0 {
      LeadingZerosUnique(be[..7], 7);
      assert be[7..] == [0];
    } else {
      LeadingZerosUnique(be[..7], 8 - |d|);
      assert be[8 - |d|..] == d;
    }
  }

  /** The scan of `right_encode`, over all eight big-endian bytes, stops at the
      first data byte, or runs to the end for zero; the bytes from there on and
      the count byte are the right encoding. */
  lemma RightScan(val: U64)
    ensures var be := BigEndian(val, 8);
      var i := LeadingZeros(be);
      RightEncoding(val) == be[i..] + [8 - i]
  {
    assert Pow256(8) == U64_LIMIT;
    DigitsPadded(val, 8);
    var be, d := BigEndian(val, 8), Digits(val);
    LeadingZerosUnique(be, 8 - |d|);
    assert be[8 - |d|..] == d;
  }

  // ---------------------------------------------------------------------------
  // What the encodings mean

  /** `left_encode` returns 2 to 9 bytes; the first is the count of those that
      follow; those are `val` in big-endian with no leading zero byte, except that
      zero is written as the single data byte 0. */
  lemma LeftEncodingMeaning(val: U64)
    ensures var r := LeftEncoding(val);
      && 2 <= |r| <= 9
      && r[0] == |r| - 1
      && FromBigEndian(r[1..]) == val
      && (val != 0 ==> r[1] != 0)
      && (val == 0 <==> r == [1, 0])
  {
    var r := LeftEncoding(val);
    DigitsFit(val);
    DigitsValue(val);
    if val == 0 {
      assert r[1..] == [0];
      assert FromBigEndian([0]) == FromBigEndian([]) * 256 + 0;
    } else {
      assert r[1..] == Digits(val);
    }
  }

  /** `right_encode` returns 1 to 9 bytes; the last is the count of those before
      it; those are `val` in big-endian with no leading zero byte, so zero is
      written with no data byte at all. */
  lemma RightEncodingMeaning(val: U64)
    ensures var r := RightEncoding(val);
      && 1 <= |r| <= 9
      && r[|r| - 1] == |r| - 1
      && FromBigEndian(r[..|r| - 1]) == val
      && (|r| > 1 ==> r[0] != 0)
      && (val == 0 <==> r == [0])
  {
    var r := RightEncoding(val);
    DigitsFit(val);
    DigitsValue(val);
    assert r[..|r| - 1] == Digits(val);
  }

  /** The literal vectors: 450000 is 0x06DDD0, and zero is written `01 00` on the
      left but `00` on the right. */
  lemma EncodingVectors()
    ensures LeftEncoding(450000) == [0x03, 0x06, 0xDD, 0xD0]
    ensures RightEncoding(450000) == [0x06, 0xDD, 0xD0, 0x03]
    ensures LeftEncoding(0) == [0x01, 0x00]
    ensures RightEncoding(0) == [0x00]
  {
    var d0, d1, d2 := Digits(6), Digits(1757), Digits(450000);
    assert d0 == [0x06];
    assert d1 == d0 + [0xDD];
    assert d2 == d1 + [0xD0];
  }

  /** For a nonzero value both encoders carry the same data bytes; only the
      place of the count byte differs. */
  lemma SameDataBytes(val: U64)
    requires val != 0
    ensures LeftEncoding(val)[1..] == RightEncoding(val)[..|RightEncoding(val)| - 1] == Digits(val)
    ensures LeftEncoding(val)[0] == RightEncoding(val)[|RightEncoding(val)| - 1]
  {
  }

  /** A left-encoded integer is read back from the front of any byte string that
      starts with it. */
  lemma LeftDecodeRoundTrip(val: U64, rest: seq<Byte>)
    ensures LeftDecode(LeftEncoding(val) + rest) == Some((val, |LeftEncoding(val)|))
  {
    var r := LeftEncoding(val);
    LeftEncodingMeaning(val);
    var s := r + rest;
    assert s[1..1 + s[0]] == r[1..];
  }

  /** The same, stated for a byte string the encoding is a prefix of. */
  lemma LeftDecodePrefix(val: U64, s: seq<Byte>)
    requires LeftEncoding(val) <= s
    ensures LeftDecode(s) == Some((val, |LeftEncoding(val)|))
  {
    var r := LeftEncoding(val);
    LeftDecodeRoundTrip(val, s[|r|..]);
    assert s == r + s[|r|..];
  }

  /** A right-encoded integer is read back from the end of any byte string that
      ends with it. */
  lemma RightDecodeRoundTrip(val: U64, front: seq<Byte>)
    ensures RightDecode(front + RightEncoding(val)) == Some((val, |RightEncoding(val)|))
  {
    var r := RightEncoding(val);
    RightEncodingMeaning(val);
    var s := front + r;
    assert s[|s| - 1] == r[|r| - 1];
    assert s[|s| - 1 - s[|s| - 1]..|s| - 1] == r[..|r| - 1];
  }
}
