/** Bytes and text as the Rust standard library sees them: `String::from_utf8`,
    `usize::to_string`, `str::parse::<usize>` and little-endian integers.
    A Rust `String` is a Dafny `string` (a sequence of Unicode scalar values). */
module Text {
  import opened Results

  type byte = b: int | 0 <= b < 256

  /** One past the largest `usize` (a 64-bit target). */
  const USIZE_LIMIT: nat := 0x1_0000_0000_0000_0000

  // ---------------------------------------------------------------------
  // Little-endian integers
  // ---------------------------------------------------------------------

  function Pow256(k: nat): (r: nat)
    ensures r > 0
  {
    if k == 0 then 1 else 256 * Pow256(k - 1)
  }

  /** The unsigned integer whose little-endian bytes are `bs` (first byte least significant). */
  function LittleEndian(bs: seq<byte>): (r: nat)
    ensures r < Pow256(|bs|)
  {
    if |bs| == 0 then 0 else bs[0] + 256 * LittleEndian(bs[1..])
  }

  /** The `k` little-endian bytes of `n`. */
  function LeBytes(n: nat, k: nat): (r: seq<byte>)
    ensures |r| == k
  {
    if k == 0 then [] else [n % 256] + LeBytes(n / 256, k - 1)
  }

  /** Four bytes combined as `b3 << 24 | b2 << 16 | b1 << 8 | b0`. */
  lemma LittleEndianFour(bs: seq<byte>)
    requires |bs| == 4
    ensures var b0, b1, b2, b3: int := bs[0], bs[1], bs[2], bs[3];
      LittleEndian(bs) == b0 + 256 * b1 + 65536 * b2 + 16777216 * b3
  {
    var b1, b2, b3: int := bs[1], bs[2], bs[3];
    var t1, t2, t3 := bs[1..], bs[2..], bs[3..];
    assert t1[1..] == t2 && t2[1..] == t3 && t3[1..] == [];
    assert LittleEndian(t3) == b3;
    assert LittleEndian(t2) == b2 + 256 * b3;
    assert LittleEndian(t1) == b1 + 256 * b2 + 65536 * b3;
  }

  lemma {:induction false} LittleEndianOfLeBytes(n: nat, k: nat)
    requires n < Pow256(k)
    ensures LittleEndian(LeBytes(n, k)) == n
  {
    if k > 0 {
      LittleEndianOfLeBytes(n / 256, k - 1);
      assert LeBytes(n, k)[1..] == LeBytes(n / 256, k - 1);
    }
  }

  /** Eight bytes are their low four plus their high four scaled by `2^32`. */
  lemma LittleEndianEight(bs: seq<byte>)
    requires |bs| == 8
    ensures LittleEndian(bs) == LittleEndian(bs[..4]) + 0x1_0000_0000 * LittleEndian(bs[4..])
  {
    var t1, t2, t3, t4 := bs[1..], bs[2..], bs[3..], bs[4..];
    assert t1[1..] == t2 && t2[1..] == t3 && t3[1..] == t4;
    var high := LittleEndian(t4);
    var b1, b2, b3: int := bs[1], bs[2], bs[3];
    assert LittleEndian(t3) == b3 + 256 * high;
    assert LittleEndian(t2) == b2 + 256 * b3 + 65536 * high;
    assert LittleEndian(t1) == b1 + 256 * b2 + 65536 * b3 + 16777216 * high;
    LittleEndianFour(bs[..4]);
  }

  /** The 32-bit little-endian integer at `buf[q..q + 4]`, as
      `b3 << 24 | b2 << 16 | b1 << 8 | b0`. */
  function U32At(buf: seq<byte>, q: nat): (r: nat)
    requires q + 4 <= |buf|
    ensures r < 0x1_0000_0000
  {
    buf[q] as int + 256 * buf[q + 1] as int + 65536 * buf[q + 2] as int + 16777216 * buf[q + 3] as int
  }

  /** `u64::from_le_bytes` of `buf[q..q + 8]`. */
  function U64At(buf: seq<byte>, q: nat): (r: nat)
    requires q + 8 <= |buf|
    ensures r < 0x1_0000_0000_0000_0000
  {
    U32At(buf, q) + 0x1_0000_0000 * U32At(buf, q + 4)
  }

  lemma U32AtIsLittleEndian(buf: seq<byte>, q: nat)
    requires q + 4 <= |buf|
    ensures U32At(buf, q) == LittleEndian(buf[q..q + 4])
  {
    LittleEndianFour(buf[q..q + 4]);
  }

  lemma U64AtIsLittleEndian(buf: seq<byte>, q: nat)
    requires q + 8 <= |buf|
    ensures U64At(buf, q) == LittleEndian(buf[q..q + 8])
  {
    var bs := buf[q..q + 8];
    LittleEndianEight(bs);
    assert bs[..4] == buf[q..q + 4] && bs[4..] == buf[q + 4..q + 8];
    U32AtIsLittleEndian(buf, q);
    U32AtIsLittleEndian(buf, q + 4);
  }

  // ---------------------------------------------------------------------
  // Byte layouts inside a larger buffer
  // ---------------------------------------------------------------------

  /** `buf` holds `enc` at position `p`, byte by byte. */
  predicate Encoded(buf: seq<byte>, p: nat, enc: seq<byte>)
    decreases |enc|
  {
    if |enc| == 0 then p <= |buf|
    else p < |buf| && buf[p] == enc[0] && Encoded(buf, p + 1, enc[1..])
  }

  lemma {:induction false} EncodedSplit(buf: seq<byte>, p: nat, x: seq<byte>, y: seq<byte>)
    requires Encoded(buf, p, x + y)
    ensures Encoded(buf, p, x) && Encoded(buf, p + |x|, y)
    decreases |x|
  {
    if |x| == 0 {
      assert x + y == y;
    } else {
      assert (x + y)[0] == x[0] && (x + y)[1..] == x[1..] + y;
      EncodedSplit(buf, p + 1, x[1..], y);
    }
  }

  lemma {:induction false} EncodedHead(buf: seq<byte>, p: nat, b: byte, rest: seq<byte>)
    requires Encoded(buf, p, [b] + rest)
    ensures p < |buf| && buf[p] == b && Encoded(buf, p + 1, rest)
  {
    assert ([b] + rest)[0] == b && ([b] + rest)[1..] == rest;
  }

  /** The bytes of `enc` as a slice of `buf`. */
  lemma {:induction false} EncodedSlice(buf: seq<byte>, p: nat, enc: seq<byte>)
    requires Encoded(buf, p, enc)
    ensures p + |enc| <= |buf|
    ensures buf[p..p + |enc|] == enc
    decreases |enc|
  {
    if |enc| > 0 {
      EncodedSlice(buf, p + 1, enc[1..]);
      var tail := buf[p + 1..p + |enc|];
      assert tail == enc[1..];
      assert buf[p] == enc[0];
      forall i | 0 <= i < |enc| ensures buf[p..p + |enc|][i] == enc[i] {
        if i > 0 {
          assert buf[p..p + |enc|][i] == tail[i - 1];
        }
      }
    }
  }

  /** A slice equal to `enc` holds `enc`. */
  lemma {:induction false} SliceEncoded(buf: seq<byte>, p: nat, enc: seq<byte>)
    requires p + |enc| <= |buf| && buf[p..p + |enc|] == enc
    ensures Encoded(buf, p, enc)
    decreases |enc|
  {
    if |enc| > 0 {
      assert buf[p] == enc[0];
      assert buf[p + 1..p + |enc|] == enc[1..];
      SliceEncoded(buf, p + 1, enc[1..]);
    }
  }

  // ---------------------------------------------------------------------
  // UTF-8 (well-formed byte sequences of table 3-7 of the Unicode Standard)
  // ---------------------------------------------------------------------

  predicate IsContinuation(b: byte) {
    0x80 <= b <= 0xBF
  }

  /** The second byte of a multi-byte sequence, whose range depends on the lead byte. */
  predicate SecondByteOk(lead: byte, b: byte) {
    if lead == 0xE0 then 0xA0 <= b <= 0xBF
    else if lead == 0xED then 0x80 <= b <= 0x9F
    else if lead == 0xF0 then 0x90 <= b <= 0xBF
    else if lead == 0xF4 then 0x80 <= b <= 0x8F
    else IsContinuation(b)
  }

  /** The length of the well-formed sequence `bs` starts with, or 0 if it starts with none. */
  function SequenceWidth(bs: seq<byte>): (n: nat)
    requires |bs| > 0
    ensures n <= 4 && n <= |bs|
    ensures bs[0] < 0x80 <==> n == 1
  {
    var lead := bs[0];
    if lead < 0x80 then 1
    else if 0xC2 <= lead <= 0xDF then
      (if |bs| >= 2 && IsContinuation(bs[1]) then 2 else 0)
    else if 0xE0 <= lead <= 0xEF then
      (if |bs| >= 3 && SecondByteOk(lead, bs[1]) && IsContinuation(bs[2]) then 3 else 0)
    else if 0xF0 <= lead <= 0xF4 then
      (if |bs| >= 4 && SecondByteOk(lead, bs[1]) && IsContinuation(bs[2]) && IsContinuation(bs[3]) then 4 else 0)
    else 0
  }

  predicate IsScalarValue(v: int) {
    0 <= v < 0xD800 || 0xE000 <= v < 0x11_0000
  }

  /** The code point encoded by the well-formed sequence at the start of `bs`. */
  function ScalarValue(bs: seq<byte>): (v: int)
    requires |bs| > 0 && SequenceWidth(bs) > 0
    ensures IsScalarValue(v)
    ensures bs[0] < 0x80 ==> v == bs[0]
  {
    var n := SequenceWidth(bs);
    var b0: int := bs[0];
    if n == 1 then b0
    else if n == 2 then (b0 - 0xC0) * 64 + (bs[1] as int - 0x80)
    else if n == 3 then (b0 - 0xE0) * 4096 + (bs[1] as int - 0x80) * 64 + (bs[2] as int - 0x80)
    else (b0 - 0xF0) * 262144 + (bs[1] as int - 0x80) * 4096 + (bs[2] as int - 0x80) * 64 + (bs[3] as int - 0x80)
  }

  /** `String::from_utf8`: the text `bs` encodes, or None when `bs` is not well-formed UTF-8. */
  function DecodeUtf8(bs: seq<byte>): (r: Option<string>)
    ensures r.Some? ==> |r.value| <= |bs|
    ensures r.Some? && |bs| > 0 ==> |r.value| > 0
    decreases |bs|
  {
    if |bs| == 0 then Some([])
    else
      var n := SequenceWidth(bs);
      if n == 0 then None
      else match DecodeUtf8(bs[n..])
        case None => None
        case Some(rest) => Some([ScalarValue(bs) as char] + rest)
  }

  predicate IsAscii(s: string) {
    forall i :: 0 <= i < |s| ==> s[i] as int < 0x80
  }

  /** The UTF-8 bytes of an ASCII string: one byte per character. */
  function AsciiBytes(s: string): (r: seq<byte>)
    requires IsAscii(s)
    ensures |r| == |s|
    ensures forall i :: 0 <= i < |s| ==> r[i] == s[i] as int
  {
    if |s| == 0 then [] else [s[0] as int] + AsciiBytes(s[1..])
  }

  /** Decoding the bytes of an ASCII string gives the string back. */
  lemma {:induction false} DecodeAscii(s: string)
    requires IsAscii(s)
    ensures DecodeUtf8(AsciiBytes(s)) == Some(s)
  {
    if |s| > 0 {
      var bs := AsciiBytes(s);
      assert bs[1..] == AsciiBytes(s[1..]);
      DecodeAscii(s[1..]);
      assert (ScalarValue(bs) as char) == s[0];
      assert [s[0]] + s[1..] == s;
    }
  }

  // ---------------------------------------------------------------------
  // Decimal text
  // ---------------------------------------------------------------------

  predicate IsDigit(c: char) {
    '0' <= c <= '9'
  }

  predicate AllDigits(s: string) {
    forall i :: 0 <= i < |s| ==> IsDigit(s[i])
  }

  function DigitChar(d: nat): (c: char)
    requires d < 10
    ensures IsDigit(c) && c as int - '0' as int == d
  {
    ('0' as int + d) as char
  }

  /** The value of a string of decimal digits, most significant first. */
  function DigitsValue(s: string): nat
    requires AllDigits(s)
  {
    if |s| == 0 then 0 else DigitsValue(s[..|s| - 1]) * 10 + (s[|s| - 1] as int - '0' as int)
  }

  /** `usize::to_string`: decimal digits without leading zeros. */
  function NatToString(n: nat): (s: string)
    ensures |s| > 0 && AllDigits(s) && IsAscii(s)
    ensures s[0] == '0' ==> n == 0
  {
    if n < 10 then [DigitChar(n)] else NatToString(n / 10) + [DigitChar(n % 10)]
  }

  lemma {:induction false} DigitsValueOfNatToString(n: nat)
    ensures DigitsValue(NatToString(n)) == n
  {
    var s := NatToString(n);
    if n >= 10 {
      DigitsValueOfNatToString(n / 10);
      assert s[..|s| - 1] == NatToString(n / 10);
    }
  }

  /** `str::parse::<usize>`: an optional `+`, then at least one decimal digit,
      with a value that fits in a 64-bit `usize`. */
  function ParseUsize(s: string): (r: Option<nat>)
    ensures r.Some? ==> r.value < USIZE_LIMIT
    ensures r.Some? ==> |s| > 0 && (IsDigit(s[0]) || s[0] == '+')
  {
    var digits := if |s| > 0 && s[0] == '+' then s[1..] else s;
    if |digits| == 0 || !AllDigits(digits) then None
    else
      var v := DigitsValue(digits);
      if v < USIZE_LIMIT then Some(v) else None
  }

  /** Parsing is the inverse of `to_string` on every `usize`. */
  lemma ParseUsizeOfNatToString(n: nat)
    requires n < USIZE_LIMIT
    ensures ParseUsize(NatToString(n)) == Some(n)
  {
    DigitsValueOfNatToString(n);
  }

  /** `String::from_utf8(bytes)?.parse::<usize>()?` as used by the request parser. */
  datatype NumberError = NotUtf8 | NotANumber

  function ParseNumber(bs: seq<byte>): (r: Result<nat, NumberError>)
    ensures r.Ok? <==> (DecodeUtf8(bs).Some? && ParseUsize(DecodeUtf8(bs).value).Some?)
    ensures r.Ok? ==> r.value < USIZE_LIMIT && Some(r.value) == ParseUsize(DecodeUtf8(bs).value)
  {
    match DecodeUtf8(bs)
    case None => Err(NotUtf8)
    case Some(s) =>
      match ParseUsize(s)
      case None => Err(NotANumber)
      case Some(n) => Ok(n)
  }

  /** A one-byte number is exactly one decimal digit, 0 to 9. */
  lemma ParseOneByte(b: byte)
    ensures ParseNumber([b]).Ok? <==> '0' as int <= b <= '9' as int
    ensures ParseNumber([b]).Ok? ==> ParseNumber([b]).value == b - '0' as int
  {
    var bs: seq<byte> := [b];
    if b < 0x80 {
      assert bs[1..] == [];
      assert SequenceWidth(bs) == 1;
      assert DecodeUtf8(bs[1..]) == Some([]);
      assert ScalarValue(bs) == b;
      assert [ScalarValue(bs) as char] + [] == [b as char];
      var s: string := [b as char];
      if b == '+' as int {
        assert s[1..] == [];
      } else if '0' as int <= b <= '9' as int {
        assert s[..0] == [];
        assert DigitsValue(s) == b - '0' as int;
      }
    } else {
      assert SequenceWidth(bs) == 0;
    }
  }

  /** The decimal text of a `usize` parses back through its UTF-8 bytes. */
  lemma ParseNumberOfDecimal(n: nat)
    requires n < USIZE_LIMIT
    ensures ParseNumber(AsciiBytes(NatToString(n))) == Ok(n)
  {
    DecodeAscii(NatToString(n));
    ParseUsizeOfNatToString(n);
  }
}
