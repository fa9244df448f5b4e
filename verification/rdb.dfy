/** The snapshot (RDB) decoder of `src/rdb.rs`: the length and string encodings
    and the opcode-driven scan that turns a byte buffer into
    `(key, value, expiry)` records.

    The model follows what the decoder does, which differs from the published
    RDB layout in several places: 14-bit lengths take their high byte second,
    32-bit lengths are little-endian, the 16-bit special integer advances only
    two bytes, RESIZEDB decodes its first length from the opcode byte itself,
    and a pending expiry is never reset after an entry.

    Times are integer milliseconds since the Unix epoch. Every Rust panic
    (an index out of bounds, the `todo!()` of compressed strings) is an error
    value. */
module Rdb {
  import opened Results
  import opened Text

  const AUX: byte := 0xFA
  const RESIZEDB: byte := 0xFB
  const EXPIRETIME_MS: byte := 0xFC
  const EXPIRETIME: byte := 0xFD
  const SELECTDB: byte := 0xFE
  const EOF: byte := 0xFF

  /** Five bytes of magic string, then four bytes of version. */
  const MAGIC_SIZE: nat := 5
  const HEADER_SIZE: nat := 9

  /** The initial pending expiry is `now + u32::MAX` seconds. */
  const NEVER_OFFSET_MS: nat := 4294967295 * 1000

  datatype RdbError =
    | Truncated         // an index or slice beyond the buffer (a panic in the source)
    | InvalidUtf8       // `String::from_utf8` failed
    | CompressedString  // special sub-code 3, a `todo!()` in the source

  /** A decoded length: its value, the position after it, and whether it was a
      special (integer-as-string) encoding. */
  datatype Length = Length(value: nat, next: nat, special: bool)

  datatype Decoded = Decoded(text: string, next: nat)

  datatype Record = Record(key: string, value: string, expiry: int)

  /** The variables of the scan loop of `RDB::load`. */
  datatype ScanState = ScanState(pointer: nat, expiry: int, data: seq<Record>, hashSize: nat, expireHashSize: nat)

  datatype Outcome = Stop | Continue(state: ScanState)

  /** The fields of a loaded `RDB`. */
  datatype Snapshot = Snapshot(version: string, data: seq<Record>, hashSize: nat, expireHashSize: nat)

  predicate IsOpcode(b: byte) {
    b >= AUX
  }

  /** How many bytes after the lead byte `lead` the length decoder reads. */
  function Reach(lead: byte): nat {
    if lead < 0x40 then 0
    else if lead < 0x80 then 1
    else if lead < 0xC0 then 4
    else if lead == 0xC0 then 1
    else if lead == 0xC1 then 2
    else if lead == 0xC2 then 4
    else 0
  }

  /** `length_encoding`: selects the layout by the top two bits of `buf[p]`
      (see `LengthEncodingLayout` for each layout). */
  function LengthEncoding(buf: seq<byte>, p: nat): (r: Result<Length, RdbError>)
    ensures r.Ok? ==> p < r.value.next <= |buf|
    ensures r.Ok? ==> p + Reach(buf[p]) <= r.value.next
    ensures r.Ok? ==> (r.value.special <==> buf[p] >= 0xC0)
    ensures r.Ok? ==> r.value.value < 0x1_0000_0000
  {
    if p >= |buf| then Err(Truncated)
    else
      var lead := buf[p];
      if lead < 0x40 then Ok(Length(lead, p + 1, false))
      else if lead < 0x80 then
        if p + 1 >= |buf| then Err(Truncated)
        else Ok(Length(buf[p + 1] as int * 256 + lead % 64, p + 2, false))
      else if lead < 0xC0 then
        if p + 4 >= |buf| then Err(Truncated)
        else Ok(Length(U32At(buf, p + 1), p + 5, false))
      else
        var subCode := lead % 64;
        if subCode == 0 then
          if p + 1 >= |buf| then Err(Truncated) else Ok(Length(buf[p + 1], p + 2, true))
        else if subCode == 1 then
          if p + 2 >= |buf| then Err(Truncated)
          else Ok(Length(buf[p + 2] as int * 256 + buf[p + 1], p + 2, true))
        else if subCode == 2 then
          if p + 4 >= |buf| then Err(Truncated)
          else Ok(Length(U32At(buf, p + 1), p + 5, true))
        else if subCode == 3 then Err(CompressedString)
        else Ok(Length(0, p + 1, true))
  }

  /** The byte layouts `length_encoding` decodes, and when it fails. */
  lemma LengthEncodingLayout(buf: seq<byte>, p: nat)
    ensures LengthEncoding(buf, p) == Err(Truncated) <==> p >= |buf| || p + Reach(buf[p]) >= |buf|
    ensures LengthEncoding(buf, p) == Err(CompressedString) <==> p < |buf| && buf[p] == 0xC3
    ensures LengthEncoding(buf, p) != Err(InvalidUtf8)
    // prefix 00: the byte itself
    ensures p < |buf| && buf[p] < 0x40 ==> LengthEncoding(buf, p) == Ok(Length(buf[p], p + 1, false))
    // prefix 01: low six bits of the first byte, second byte as the high byte
    ensures p + 1 < |buf| && 0x40 <= buf[p] < 0x80 ==>
      LengthEncoding(buf, p) == Ok(Length(256 * buf[p + 1] as int + (buf[p] as int - 0x40), p + 2, false))
    // prefix 10: the next four bytes, least significant first
    ensures p + 4 < |buf| && 0x80 <= buf[p] < 0xC0 ==>
      LengthEncoding(buf, p) == Ok(Length(buf[p + 1] as int + 256 * buf[p + 2] as int + 65536 * buf[p + 3] as int
                     + 16777216 * buf[p + 4] as int, p + 5, false))
    // prefix 11, sub-code 0: one byte
    ensures p + 1 < |buf| && buf[p] == 0xC0 ==> LengthEncoding(buf, p) == Ok(Length(buf[p + 1], p + 2, true))
    // prefix 11, sub-code 1: two bytes, least significant first, but advancing only two
    ensures p + 2 < |buf| && buf[p] == 0xC1 ==>
      LengthEncoding(buf, p) == Ok(Length(buf[p + 1] as int + 256 * buf[p + 2] as int, p + 2, true))
    // prefix 11, sub-code 2: four bytes, least significant first
    ensures p + 4 < |buf| && buf[p] == 0xC2 ==>
      LengthEncoding(buf, p) == Ok(Length(buf[p + 1] as int + 256 * buf[p + 2] as int + 65536 * buf[p + 3] as int
                     + 16777216 * buf[p + 4] as int, p + 5, true))
    // prefix 11, any other sub-code: zero, one byte consumed
    ensures p < |buf| && buf[p] >= 0xC4 ==> LengthEncoding(buf, p) == Ok(Length(0, p + 1, true))
  {
  }

  /** `string_encoding`: a length, then either the decimal text of a special
      integer (no payload) or exactly that many bytes of UTF-8. */
  function StringEncoding(buf: seq<byte>, p: nat): (r: Result<Decoded, RdbError>)
    ensures r.Ok? ==> p < r.value.next <= |buf|
  {
    var len :- LengthEncoding(buf, p);
    if len.special then
      Ok(Decoded(NatToString(len.value), len.next))
    else if len.next + len.value > |buf| then Err(Truncated)
    else
      match DecodeUtf8(buf[len.next..len.next + len.value])
      case None => Err(InvalidUtf8)
      case Some(s) => Ok(Decoded(s, len.next + len.value))
  }

  /** What `string_encoding` returns: the decimal text of a special length
      without consuming any payload, or exactly the UTF-8 text of the `l` bytes
      that follow the length. */
  lemma StringEncodingSpec(buf: seq<byte>, p: nat)
    ensures LengthEncoding(buf, p).Err? ==> StringEncoding(buf, p) == Err(LengthEncoding(buf, p).error)
    ensures var len := LengthEncoding(buf, p);
      len.Ok? && len.value.special ==>
        && StringEncoding(buf, p).Ok? && StringEncoding(buf, p).value.next == len.value.next
        && StringEncoding(buf, p).value.text == NatToString(len.value.value)
        && ParseUsize(StringEncoding(buf, p).value.text) == Some(len.value.value)
    ensures var len := LengthEncoding(buf, p);
      len.Ok? && !len.value.special ==>
        var start, end := len.value.next, len.value.next + len.value.value;
        && (StringEncoding(buf, p) == Err(Truncated) <==> end > |buf|)
        && (StringEncoding(buf, p).Ok? <==> end <= |buf| && DecodeUtf8(buf[start..end]).Some?)
        && (StringEncoding(buf, p).Ok? ==>
              && end <= |buf|
              && StringEncoding(buf, p).value.next == end
              && Some(StringEncoding(buf, p).value.text) == DecodeUtf8(buf[start..end]))
  {
    var len := LengthEncoding(buf, p);
    if len.Ok? && len.value.special {
      ParseUsizeOfNatToString(len.value.value);
    }
  }

  /** AUX: a metadata key string and value string, not kept. */
  function ReadAux(buf: seq<byte>, st: ScanState): (r: Result<ScanState, RdbError>)
    ensures r.Ok? <==> StringEncoding(buf, st.pointer + 1).Ok? && StringEncoding(buf, StringEncoding(buf, st.pointer + 1).value.next).Ok?
    ensures r.Ok? ==>
      var key := StringEncoding(buf, st.pointer + 1).value;
      r.value == st.(pointer := StringEncoding(buf, key.next).value.next)
  {
    var key :- StringEncoding(buf, st.pointer + 1);
    var value :- StringEncoding(buf, key.next);
    Ok(st.(pointer := value.next))
  }

  /** SELECTDB: the database number byte after the opcode, not kept. */
  function ReadSelectDb(buf: seq<byte>, st: ScanState): (r: Result<ScanState, RdbError>)
    ensures r.Ok? <==> st.pointer + 1 < |buf|
    ensures r.Ok? ==> r.value == st.(pointer := st.pointer + 2)
  {
    if st.pointer + 1 >= |buf| then Err(Truncated) else Ok(st.(pointer := st.pointer + 2))
  }

  /** RESIZEDB: two lengths, the first decoded from the opcode byte itself,
      then one more byte skipped unread. */
  function ReadResizeDb(buf: seq<byte>, st: ScanState): (r: Result<ScanState, RdbError>)
    requires st.pointer < |buf| && buf[st.pointer] == RESIZEDB
    ensures r.Ok? <==> LengthEncoding(buf, st.pointer + 1).Ok?
    ensures r.Ok? ==>
      var size := LengthEncoding(buf, st.pointer + 1).value;
      r.value == st.(pointer := size.next + 1, hashSize := 0, expireHashSize := size.value)
  {
    // the opcode byte itself is read as a length: sub-code 0x3B, so zero, one byte
    var dbSize := LengthEncoding(buf, st.pointer).value;
    var expireSize :- LengthEncoding(buf, dbSize.next);
    Ok(st.(pointer := expireSize.next + 1, hashSize := dbSize.value, expireHashSize := expireSize.value))
  }

  /** EXPIRETIME: four bytes of seconds since the epoch, least significant first. */
  function ReadExpireTime(buf: seq<byte>, st: ScanState): (r: Result<ScanState, RdbError>)
    ensures var p := st.pointer;
      && (r.Ok? <==> p + 4 < |buf|)
      && (r.Ok? ==> r.value == st.(pointer := p + 5, expiry := 1000 * (
            buf[p + 1] as int + 256 * buf[p + 2] as int + 65536 * buf[p + 3] as int + 16777216 * buf[p + 4] as int)))
  {
    var p := st.pointer;
    if p + 4 >= |buf| then Err(Truncated)
    else Ok(st.(pointer := p + 5, expiry := U32At(buf, p + 1) * 1000))
  }

  /** EXPIRETIME_MS: `u64::from_le_bytes` of the eight bytes after the opcode, in milliseconds. */
  function ReadExpireTimeMs(buf: seq<byte>, st: ScanState): (r: Result<ScanState, RdbError>)
    ensures r.Ok? <==> st.pointer + 8 < |buf|
    ensures r.Ok? ==> r.value.pointer == st.pointer + 9 && r.value == st.(pointer := r.value.pointer, expiry := r.value.expiry)
    ensures r.Ok? ==> 0 <= r.value.expiry < 0x1_0000_0000_0000_0000
    ensures r.Ok? ==> r.value.expiry == LittleEndian(buf[st.pointer + 1..st.pointer + 9])
  {
    var p := st.pointer;
    if p + 8 >= |buf| then Err(Truncated)
    else
      U64AtIsLittleEndian(buf, p + 1);
      Ok(st.(pointer := p + 9, expiry := U64At(buf, p + 1)))
  }

  /** Any other byte: a value-type tag, then a key string and a value string,
      stored with the pending expiry. */
  function ReadEntry(buf: seq<byte>, st: ScanState): (r: Result<ScanState, RdbError>)
    ensures r.Ok? <==> StringEncoding(buf, st.pointer + 1).Ok? && StringEncoding(buf, StringEncoding(buf, st.pointer + 1).value.next).Ok?
    ensures r.Ok? ==>
      var key := StringEncoding(buf, st.pointer + 1).value;
      var value := StringEncoding(buf, key.next).value;
      r.value == st.(pointer := value.next, data := st.data + [Record(key.text, value.text, st.expiry)])
  {
    var key :- StringEncoding(buf, st.pointer + 1);
    var value :- StringEncoding(buf, key.next);
    Ok(st.(pointer := value.next, data := st.data + [Record(key.text, value.text, st.expiry)]))
  }

  /** AUX and entry reads given the results of their two string reads. */
  lemma {:induction false} ReadEntryOfStrings(buf: seq<byte>, st: ScanState, key: Decoded, value: Decoded)
    requires StringEncoding(buf, st.pointer + 1) == Ok(key) && StringEncoding(buf, key.next) == Ok(value)
    ensures ReadEntry(buf, st) == Ok(st.(pointer := value.next, data := st.data + [Record(key.text, value.text, st.expiry)]))
  {
  }

  lemma {:induction false} ReadAuxOfStrings(buf: seq<byte>, st: ScanState, key: Decoded, value: Decoded)
    requires StringEncoding(buf, st.pointer + 1) == Ok(key) && StringEncoding(buf, key.next) == Ok(value)
    ensures ReadAux(buf, st) == Ok(st.(pointer := value.next))
  {
  }

  /** One iteration of the loop of `RDB::load`, at the opcode `buf[st.pointer]`. */
  function Step(buf: seq<byte>, st: ScanState): (r: Result<Outcome, RdbError>)
    requires st.pointer < |buf|
    ensures r.Ok? ==> (r.value.Stop? <==> buf[st.pointer] == EOF)
    ensures r.Ok? && r.value.Continue? ==>
      var next, op := r.value.state, buf[st.pointer];
      && next.pointer > st.pointer
      && (op == EXPIRETIME || op == EXPIRETIME_MS || next.expiry == st.expiry)
      && (op == RESIZEDB || (next.hashSize == st.hashSize && next.expireHashSize == st.expireHashSize))
      && (op == RESIZEDB ==> next.hashSize == 0)
      && (IsOpcode(op) ==> next.data == st.data)
      && (!IsOpcode(op) ==>
            && |next.data| == |st.data| + 1
            && next.data[..|st.data|] == st.data
            && next.data[|st.data|].expiry == st.expiry)
  {
    var op := buf[st.pointer];
    if op == EOF then Ok(Stop)
    else
      var next :-
        if op == AUX then ReadAux(buf, st)
        else if op == SELECTDB then ReadSelectDb(buf, st)
        else if op == RESIZEDB then ReadResizeDb(buf, st)
        else if op == EXPIRETIME then ReadExpireTime(buf, st)
        else if op == EXPIRETIME_MS then ReadExpireTimeMs(buf, st)
        else ReadEntry(buf, st);
      Ok(Continue(next))
  }

  /** The loop of `RDB::load`: step until the pointer leaves the buffer or an EOF opcode is met. */
  function Scan(buf: seq<byte>, st: ScanState): (r: Result<ScanState, RdbError>)
    ensures r.Ok? ==> r.value.pointer >= st.pointer
    ensures r.Ok? ==> r.value.pointer >= |buf| || buf[r.value.pointer] == EOF
    ensures r.Ok? ==> |r.value.data| >= |st.data| && r.value.data[..|st.data|] == st.data
    ensures st.pointer < |buf| && buf[st.pointer] == EOF ==> r == Ok(st)
    decreases |buf| - st.pointer
  {
    if st.pointer >= |buf| then Ok(st)
    else
      var out :- Step(buf, st);
      match out
      case Stop => Ok(st)
      case Continue(next) => Scan(buf, next)
  }

  function InitialState(now: int): ScanState {
    ScanState(HEADER_SIZE, now + NEVER_OFFSET_MS, [], 0, 0)
  }

  /** `RDB::load` on a buffer read at time `now`. */
  function Load(buf: seq<byte>, now: int): (r: Result<Snapshot, RdbError>)
    ensures |buf| < HEADER_SIZE ==> r.Err?
    ensures r.Ok? ==> DecodeUtf8(buf[..MAGIC_SIZE]).Some? && DecodeUtf8(buf[MAGIC_SIZE..HEADER_SIZE]) == Some(r.value.version)
    ensures r.Ok? ==> Scan(buf, InitialState(now)).Ok? && r.value.data == Scan(buf, InitialState(now)).value.data
    ensures r.Ok? ==> r.value.hashSize == Scan(buf, InitialState(now)).value.hashSize
    ensures r.Ok? ==> r.value.expireHashSize == Scan(buf, InitialState(now)).value.expireHashSize
    // a valid header and a scan that succeeds always load; a failing scan's error is the result
    ensures |buf| >= HEADER_SIZE && DecodeUtf8(buf[..MAGIC_SIZE]).Some? && DecodeUtf8(buf[MAGIC_SIZE..HEADER_SIZE]).Some? ==>
      (r.Ok? <==> Scan(buf, InitialState(now)).Ok?)
      && (Scan(buf, InitialState(now)).Err? ==> r == Err(Scan(buf, InitialState(now)).error))
  {
    if |buf| < MAGIC_SIZE then Err(Truncated)
    else if DecodeUtf8(buf[..MAGIC_SIZE]).None? then Err(InvalidUtf8)
    else if |buf| < HEADER_SIZE then Err(Truncated)
    else
      match DecodeUtf8(buf[MAGIC_SIZE..HEADER_SIZE])
      case None => Err(InvalidUtf8)
      case Some(version) =>
        var fin :- Scan(buf, InitialState(now));
        Ok(Snapshot(version, fin.data, fin.hashSize, fin.expireHashSize))
  }
}
