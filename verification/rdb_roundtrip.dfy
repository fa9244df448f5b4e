/** An RDB writer for the layouts the decoder of `src/rdb.rs` reads back
    faithfully, a reference interpretation of the written items, and the
    round trip: scanning and loading the written bytes gives exactly what the
    reference interpretation says. */
module RdbRoundTrip {
  import opened Results
  import opened Text
  import opened Rdb
  import opened RdbReading

  // ---------------------------------------------------------------------
  // Lengths and strings
  // ---------------------------------------------------------------------

  /** A length below 64 in one byte (prefix 00), otherwise prefix 10 and four
      bytes least significant first, the order the decoder reads. */
  function EncodeLength(n: nat): (r: seq<byte>)
    requires n < Pow256(4)
    ensures 0 < |r| && (|r| == 1 <==> n < 64)
  {
    if n < 64 then [n] else [0x80] + LeBytes(n, 4)
  }

  lemma {:induction false} LengthRoundTrip(buf: seq<byte>, p: nat, n: nat)
    requires n < Pow256(4) && Encoded(buf, p, EncodeLength(n))
    ensures LengthEncoding(buf, p) == Ok(Length(n, p + |EncodeLength(n)|, false))
  {
    if n >= 64 {
      EncodedHead(buf, p, 0x80, LeBytes(n, 4));
      EncodedSlice(buf, p + 1, LeBytes(n, 4));
      LittleEndianOfLeBytes(n, 4);
      U32AtIsLittleEndian(buf, p + 1);
    } else {
      assert [n] == [n] + [];
      EncodedHead(buf, p, n, []);
    }
  }

  /** One string of a record: raw UTF-8 bytes, or an integer stored in the
      special one-byte (sub-code 0) or four-byte (sub-code 2) layout. */
  datatype Field = Bytes(bytes: seq<byte>) | SmallInt(small: byte) | Int32(wide: nat)

  predicate FieldOk(f: Field) {
    match f
    case Bytes(bs) => |bs| < Pow256(4) && DecodeUtf8(bs).Some?
    case SmallInt(_) => true
    case Int32(n) => n < Pow256(4)
  }

  /** The text a field stands for. */
  function FieldText(f: Field): string
    requires FieldOk(f)
  {
    match f
    case Bytes(bs) => DecodeUtf8(bs).value
    case SmallInt(n) => NatToString(n)
    case Int32(n) => NatToString(n)
  }

  function EncodeField(f: Field): (r: seq<byte>)
    requires FieldOk(f)
    ensures |r| > 0
  {
    match f
    case Bytes(bs) => EncodeLength(|bs|) + bs
    case SmallInt(n) => [0xC0, n]
    case Int32(n) => [0xC2] + LeBytes(n, 4)
  }

  lemma {:induction false} BytesRoundTrip(buf: seq<byte>, p: nat, bs: seq<byte>)
    requires |bs| < Pow256(4) && DecodeUtf8(bs).Some?
    requires Encoded(buf, p, EncodeLength(|bs|) + bs)
    ensures StringEncoding(buf, p) == Ok(Decoded(DecodeUtf8(bs).value, p + |EncodeLength(|bs|) + bs|))
  {
    EncodedSplit(buf, p, EncodeLength(|bs|), bs);
    LengthRoundTrip(buf, p, |bs|);
    EncodedSlice(buf, p + |EncodeLength(|bs|)|, bs);
  }

  lemma {:induction false} SmallIntRoundTrip(buf: seq<byte>, p: nat, n: byte)
    requires Encoded(buf, p, [0xC0, n])
    ensures StringEncoding(buf, p) == Ok(Decoded(NatToString(n), p + 2))
  {
    assert [0xC0, n] == [0xC0] + [n];
    EncodedHead(buf, p, 0xC0, [n]);
    assert [n] == [n] + [];
    EncodedHead(buf, p + 1, n, []);
  }

  lemma {:induction false} Int32RoundTrip(buf: seq<byte>, p: nat, n: nat)
    requires n < Pow256(4) && Encoded(buf, p, [0xC2] + LeBytes(n, 4))
    ensures StringEncoding(buf, p) == Ok(Decoded(NatToString(n), p + 5))
  {
    EncodedHead(buf, p, 0xC2, LeBytes(n, 4));
    EncodedSlice(buf, p + 1, LeBytes(n, 4));
    LittleEndianOfLeBytes(n, 4);
    U32AtIsLittleEndian(buf, p + 1);
    assert LengthEncoding(buf, p) == Ok(Length(n, p + 5, true));
  }

  /** `string_encoding` at `q` reads `text` from exactly `w` bytes. */
  predicate StringAt(buf: seq<byte>, q: nat, text: string, w: nat) {
    StringEncoding(buf, q) == Ok(Decoded(text, q + w))
  }

  /** `string_encoding` reads back every written field as its text. */
  lemma {:induction false} FieldRoundTrip(buf: seq<byte>, p: nat, f: Field)
    requires FieldOk(f) && Encoded(buf, p, EncodeField(f))
    ensures StringAt(buf, p, FieldText(f), |EncodeField(f)|)
  {
    match f
    case Bytes(bs) => BytesRoundTrip(buf, p, bs);
    case SmallInt(n) => SmallIntRoundTrip(buf, p, n);
    case Int32(n) => Int32RoundTrip(buf, p, n);
  }

  /** The bytes `enc` read as `text` wherever they are placed. */
  ghost predicate StringAnywhere(enc: seq<byte>, text: string) {
    forall buf: seq<byte>, q: nat :: Encoded(buf, q, enc) ==> StringAt(buf, q, text, |enc|)
  }

  lemma {:induction false} FieldAnywhere(f: Field)
    requires FieldOk(f)
    ensures StringAnywhere(EncodeField(f), FieldText(f))
  {
    forall buf: seq<byte>, q: nat | Encoded(buf, q, EncodeField(f))
      ensures StringAt(buf, q, FieldText(f), |EncodeField(f)|)
    {
      FieldRoundTrip(buf, q, f);
    }
  }

  // ---------------------------------------------------------------------
  // Items
  // ---------------------------------------------------------------------

  /** One unit of the body of a snapshot, as a writer lays it out. */
  datatype Item =
    | Aux(auxKey: Field, auxValue: Field)
    | SelectDb(db: byte)
    | ResizeDb(expireSize: nat, skipped: byte)
    | ExpireSeconds(seconds: nat)
    | ExpireMillis(millis: nat)
    | Entry(tag: byte, key: Field, value: Field)

  predicate ItemOk(item: Item) {
    match item
    case Aux(k, v) => FieldOk(k) && FieldOk(v)
    case SelectDb(_) => true
    case ResizeDb(expireSize, _) => expireSize < Pow256(4)
    case ExpireSeconds(s) => s < Pow256(4)
    case ExpireMillis(ms) => ms < Pow256(8)
    case Entry(tag, k, v) => !IsOpcode(tag) && FieldOk(k) && FieldOk(v)
  }

  predicate AllOk(items: seq<Item>) {
    forall i :: 0 <= i < |items| ==> ItemOk(items[i])
  }

  function EncodeItem(item: Item): (r: seq<byte>)
    requires ItemOk(item)
    ensures |r| > 0
  {
    match item
    case Aux(k, v) => [AUX] + (EncodeField(k) + EncodeField(v))
    case SelectDb(db) => [SELECTDB, db]
    case ResizeDb(expireSize, skipped) => [RESIZEDB] + (EncodeLength(expireSize) + [skipped])
    case ExpireSeconds(s) => [EXPIRETIME] + LeBytes(s, 4)
    case ExpireMillis(ms) => [EXPIRETIME_MS] + LeBytes(ms, 8)
    case Entry(tag, k, v) => [tag] + (EncodeField(k) + EncodeField(v))
  }

  /** What the decoder makes of an item, wherever it is placed: its texts,
      and the widths of its strings and lengths. A `Layout` is a `Reading`
      with widths in place of absolute end positions, so that what an item's
      bytes mean is proved once for every placement; `Place` turns it into
      the `Reading` at a given position. */
  datatype Layout =
    | AuxLayout(auxKey: string, auxKeyWidth: nat, auxValue: string, auxValueWidth: nat)
    | SelectDbLayout
    | ResizeDbLayout(expireSize: nat, sizeWidth: nat)
    | ExpireSecondsLayout(seconds: nat)
    | ExpireMillisLayout(millis: nat)
    | EntryLayout(key: string, keyWidth: nat, value: string, valueWidth: nat)

  /** The bytes of a laid-out item, opcode included. */
  function Width(l: Layout): nat {
    match l
    case AuxLayout(_, kw, _, vw) => 1 + kw + vw
    case SelectDbLayout => 2
    case ResizeDbLayout(_, sw) => 1 + sw + 1
    case ExpireSecondsLayout(_) => 5
    case ExpireMillisLayout(_) => 9
    case EntryLayout(_, kw, _, vw) => 1 + kw + vw
  }

  /** The reading of a laid-out item placed at `p`. */
  function Place(l: Layout, p: nat): (r: Reading)
    ensures After(p, r) == p + Width(l)
  {
    match l
    case AuxLayout(k, kw, v, vw) => AuxRead(k, p + 1 + kw, v, p + 1 + kw + vw)
    case SelectDbLayout => SelectDbRead
    case ResizeDbLayout(expireSize, sw) => ResizeDbRead(expireSize, p + 1 + sw)
    case ExpireSecondsLayout(s) => ExpireSecondsRead(s)
    case ExpireMillisLayout(ms) => ExpireMillisRead(ms)
    case EntryLayout(k, kw, v, vw) => EntryRead(k, p + 1 + kw, v, p + 1 + kw + vw)
  }

  /** The readings of laid-out items placed one after another from `p`. */
  function PlaceAll(ls: seq<Layout>, p: nat): (rs: seq<Reading>)
    ensures |rs| == |ls|
    decreases |ls|
  {
    if |ls| == 0 then [] else [Place(ls[0], p)] + PlaceAll(ls[1..], p + Width(ls[0]))
  }

  function LayoutOf(item: Item): Layout
    requires ItemOk(item)
  {
    match item
    case Aux(k, v) => AuxLayout(FieldText(k), |EncodeField(k)|, FieldText(v), |EncodeField(v)|)
    case SelectDb(_) => SelectDbLayout
    case ResizeDb(expireSize, _) => ResizeDbLayout(expireSize, |EncodeLength(expireSize)|)
    case ExpireSeconds(s) => ExpireSecondsLayout(s)
    case ExpireMillis(ms) => ExpireMillisLayout(ms)
    case Entry(_, k, v) => EntryLayout(FieldText(k), |EncodeField(k)|, FieldText(v), |EncodeField(v)|)
  }

  function LayoutsOf(items: seq<Item>): (ls: seq<Layout>)
    requires AllOk(items)
    ensures |ls| == |items|
    ensures forall i :: 0 <= i < |items| ==> ls[i] == LayoutOf(items[i])
  {
    if |items| == 0 then [] else [LayoutOf(items[0])] + LayoutsOf(items[1..])
  }

  function EncodeEach(items: seq<Item>): (encs: seq<seq<byte>>)
    requires AllOk(items)
    ensures |encs| == |items|
    ensures forall i :: 0 <= i < |items| ==> encs[i] == EncodeItem(items[i])
  {
    if |items| == 0 then [] else [EncodeItem(items[0])] + EncodeEach(items[1..])
  }

  function Concat(chunks: seq<seq<byte>>): seq<byte> {
    if |chunks| == 0 then [] else chunks[0] + Concat(chunks[1..])
  }

  /** The body of a snapshot: the items one after another. */
  function EncodeItems(items: seq<Item>): seq<byte>
    requires AllOk(items)
  {
    Concat(EncodeEach(items))
  }

  /** The reference replay of items written from the loop state's position on. */
  function Replay(st: ScanState, items: seq<Item>): ScanState
    requires AllOk(items)
  {
    ReplayReadings(st, PlaceAll(LayoutsOf(items), st.pointer))
  }

  // ---------------------------------------------------------------------
  // Each written item reads back as its reading, wherever it is placed
  // ---------------------------------------------------------------------

  /** The bytes `enc` read as `l` wherever they are placed, and `l` spans
      exactly those bytes. */
  ghost predicate ReadsAnywhere(enc: seq<byte>, l: Layout) {
    Width(l) == |enc| && forall buf: seq<byte>, p: nat :: Encoded(buf, p, enc) ==> ReadsAs(buf, p, Place(l, p))
  }

  lemma {:induction false} EncodedTwo(buf: seq<byte>, p: nat, op: byte, x: seq<byte>, y: seq<byte>)
    requires Encoded(buf, p, [op] + (x + y))
    ensures p < |buf| && buf[p] == op && Encoded(buf, p + 1, x) && Encoded(buf, p + 1 + |x|, y)
  {
    EncodedHead(buf, p, op, x + y);
    EncodedSplit(buf, p + 1, x, y);
  }

  /** AUX and two strings placed at `p` read as an AUX reading. */
  lemma {:induction false} AuxStringsPlaced(buf: seq<byte>, p: nat, k: seq<byte>, kt: string, v: seq<byte>, vt: string)
    requires StringAnywhere(k, kt) && StringAnywhere(v, vt)
    requires Encoded(buf, p, [AUX] + (k + v))
    ensures ReadsAs(buf, p, AuxRead(kt, p + 1 + |k|, vt, p + 1 + |k| + |v|))
  {
    EncodedTwo(buf, p, AUX, k, v);
  }

  /** A value-type tag and two strings placed at `p` read as an entry. */
  lemma {:induction false} EntryStringsPlaced(buf: seq<byte>, p: nat, tag: byte, k: seq<byte>, kt: string, v: seq<byte>, vt: string)
    requires !IsOpcode(tag) && StringAnywhere(k, kt) && StringAnywhere(v, vt)
    requires Encoded(buf, p, [tag] + (k + v))
    ensures ReadsAs(buf, p, EntryRead(kt, p + 1 + |k|, vt, p + 1 + |k| + |v|))
  {
    EncodedTwo(buf, p, tag, k, v);
  }

  lemma {:induction false} AuxStringsAnywhere(k: seq<byte>, kt: string, v: seq<byte>, vt: string)
    requires StringAnywhere(k, kt) && StringAnywhere(v, vt)
    ensures ReadsAnywhere([AUX] + (k + v), AuxLayout(kt, |k|, vt, |v|))
  {
    forall buf: seq<byte>, p: nat | Encoded(buf, p, [AUX] + (k + v))
      ensures ReadsAs(buf, p, Place(AuxLayout(kt, |k|, vt, |v|), p))
    {
      AuxStringsPlaced(buf, p, k, kt, v, vt);
    }
  }

  lemma {:induction false} EntryStringsAnywhere(tag: byte, k: seq<byte>, kt: string, v: seq<byte>, vt: string)
    requires !IsOpcode(tag) && StringAnywhere(k, kt) && StringAnywhere(v, vt)
    ensures ReadsAnywhere([tag] + (k + v), EntryLayout(kt, |k|, vt, |v|))
  {
    forall buf: seq<byte>, p: nat | Encoded(buf, p, [tag] + (k + v))
      ensures ReadsAs(buf, p, Place(EntryLayout(kt, |k|, vt, |v|), p))
    {
      EntryStringsPlaced(buf, p, tag, k, kt, v, vt);
    }
  }

  lemma {:induction false} AuxAnywhere(k: Field, v: Field)
    requires FieldOk(k) && FieldOk(v)
    ensures ReadsAnywhere([AUX] + (EncodeField(k) + EncodeField(v)), AuxLayout(FieldText(k), |EncodeField(k)|, FieldText(v), |EncodeField(v)|))
  {
    FieldAnywhere(k);
    FieldAnywhere(v);
    AuxStringsAnywhere(EncodeField(k), FieldText(k), EncodeField(v), FieldText(v));
  }

  lemma {:induction false} EntryAnywhere(tag: byte, k: Field, v: Field)
    requires !IsOpcode(tag) && FieldOk(k) && FieldOk(v)
    ensures ReadsAnywhere([tag] + (EncodeField(k) + EncodeField(v)), EntryLayout(FieldText(k), |EncodeField(k)|, FieldText(v), |EncodeField(v)|))
  {
    FieldAnywhere(k);
    FieldAnywhere(v);
    EntryStringsAnywhere(tag, EncodeField(k), FieldText(k), EncodeField(v), FieldText(v));
  }

  lemma {:induction false} SelectDbAnywhere(db: byte)
    ensures ReadsAnywhere([SELECTDB, db], SelectDbLayout)
  {
    forall buf: seq<byte>, p: nat | Encoded(buf, p, [SELECTDB, db]) ensures ReadsAs(buf, p, SelectDbRead) {
      assert [SELECTDB, db] == [SELECTDB] + [db];
      EncodedHead(buf, p, SELECTDB, [db]);
    }
  }

  /** RESIZEDB, the one length the decoder reads after it (the expire-hash
      size), and the byte it skips. */
  lemma {:induction false} ResizeDbAnywhere(expireSize: nat, skipped: byte)
    requires expireSize < Pow256(4)
    ensures ReadsAnywhere([RESIZEDB] + (EncodeLength(expireSize) + [skipped]), ResizeDbLayout(expireSize, |EncodeLength(expireSize)|))
  {
    forall buf: seq<byte>, p: nat | Encoded(buf, p, [RESIZEDB] + (EncodeLength(expireSize) + [skipped]))
      ensures ReadsResizeDb(buf, p, expireSize, p + 1 + |EncodeLength(expireSize)|)
    {
      EncodedTwo(buf, p, RESIZEDB, EncodeLength(expireSize), [skipped]);
      LengthRoundTrip(buf, p + 1, expireSize);
    }
  }

  lemma {:induction false} ExpireSecondsAnywhere(s: nat)
    requires s < Pow256(4)
    ensures ReadsAnywhere([EXPIRETIME] + LeBytes(s, 4), ExpireSecondsLayout(s))
  {
    forall buf: seq<byte>, p: nat | Encoded(buf, p, [EXPIRETIME] + LeBytes(s, 4))
      ensures ReadsExpireSeconds(buf, p, s)
    {
      EncodedHead(buf, p, EXPIRETIME, LeBytes(s, 4));
      EncodedSlice(buf, p + 1, LeBytes(s, 4));
      LittleEndianOfLeBytes(s, 4);
      U32AtIsLittleEndian(buf, p + 1);
    }
  }

  lemma {:induction false} ExpireMillisAnywhere(ms: nat)
    requires ms < Pow256(8)
    ensures ReadsAnywhere([EXPIRETIME_MS] + LeBytes(ms, 8), ExpireMillisLayout(ms))
  {
    forall buf: seq<byte>, p: nat | Encoded(buf, p, [EXPIRETIME_MS] + LeBytes(ms, 8))
      ensures ReadsExpireMillis(buf, p, ms)
    {
      EncodedHead(buf, p, EXPIRETIME_MS, LeBytes(ms, 8));
      EncodedSlice(buf, p + 1, LeBytes(ms, 8));
      LittleEndianOfLeBytes(ms, 8);
      U64AtIsLittleEndian(buf, p + 1);
    }
  }

  /** Every written item reads back as its reading, over exactly its bytes. */
  lemma {:induction false} ItemAnywhere(item: Item)
    requires ItemOk(item)
    ensures ReadsAnywhere(EncodeItem(item), LayoutOf(item))
  {
    match item
    case Aux(k, v) => AuxAnywhere(k, v);
    case SelectDb(db) => SelectDbAnywhere(db);
    case ResizeDb(expireSize, skipped) => ResizeDbAnywhere(expireSize, skipped);
    case ExpireSeconds(s) => ExpireSecondsAnywhere(s);
    case ExpireMillis(ms) => ExpireMillisAnywhere(ms);
    case Entry(tag, k, v) => EntryAnywhere(tag, k, v);
  }

  lemma {:induction false} ReadsPlaced(buf: seq<byte>, p: nat, enc: seq<byte>, l: Layout)
    requires ReadsAnywhere(enc, l) && Encoded(buf, p, enc)
    ensures ReadsAs(buf, p, Place(l, p)) && Width(l) == |enc|
  {
  }

  /** Each chunk reads as the reading in the same position. */
  ghost predicate AllReadAnywhere(encs: seq<seq<byte>>, ls: seq<Layout>)
    decreases |ls|
  {
    |encs| == |ls| && (|ls| == 0 || (ReadsAnywhere(encs[0], ls[0]) && AllReadAnywhere(encs[1..], ls[1..])))
  }

  /** Chunks that each read as their reading, written one after another and
      closed by EOF, read as the whole sequence of readings. */
  lemma {:induction false} ChunksRead(buf: seq<byte>, p: nat, encs: seq<seq<byte>>, ls: seq<Layout>)
    requires AllReadAnywhere(encs, ls)
    requires Encoded(buf, p, Concat(encs) + [EOF])
    ensures ReadsAll(buf, p, PlaceAll(ls, p))
    decreases |ls|
  {
    if |ls| == 0 {
      assert [EOF] == [EOF] + [];
      EncodedHead(buf, p, EOF, []);
    } else {
      assert Concat(encs) + [EOF] == encs[0] + (Concat(encs[1..]) + [EOF]);
      EncodedSplit(buf, p, encs[0], Concat(encs[1..]) + [EOF]);
      ReadsPlaced(buf, p, encs[0], ls[0]);
      ChunksRead(buf, p + |encs[0]|, encs[1..], ls[1..]);
    }
  }

  lemma {:induction false} ItemsReadAnywhere(items: seq<Item>)
    requires AllOk(items)
    ensures AllReadAnywhere(EncodeEach(items), LayoutsOf(items))
    decreases |items|
  {
    if |items| > 0 {
      ItemAnywhere(items[0]);
      assert AllOk(items[1..]) by {
        forall i | 0 <= i < |items| - 1 ensures ItemOk(items[1..][i]) {
          assert items[1..][i] == items[i + 1];
        }
      }
      ItemsReadAnywhere(items[1..]);
    }
  }

  // ---------------------------------------------------------------------
  // Whole snapshots
  // ---------------------------------------------------------------------

  /** A whole snapshot: five bytes of magic, four of version, the items, EOF. */
  function EncodeSnapshot(magic: seq<byte>, version: seq<byte>, items: seq<Item>): seq<byte>
    requires AllOk(items)
  {
    magic + version + EncodeItems(items) + [EOF]
  }

  /** `RDB::load` of a written snapshot, with anything after its EOF: the
      version text, and the records and sizes the reference replay yields
      from the initial state. */
  lemma {:induction false} LoadOfSnapshot(magic: seq<byte>, version: seq<byte>, items: seq<Item>, tail: seq<byte>, now: int)
    requires |magic| == MAGIC_SIZE && DecodeUtf8(magic).Some?
    requires |version| == HEADER_SIZE - MAGIC_SIZE && DecodeUtf8(version).Some?
    requires AllOk(items)
    ensures var fin := Replay(InitialState(now), items);
      Load(EncodeSnapshot(magic, version, items) + tail, now)
        == Ok(Snapshot(DecodeUtf8(version).value, fin.data, fin.hashSize, fin.expireHashSize))
  {
    var body := EncodeItems(items) + [EOF];
    var buf := EncodeSnapshot(magic, version, items) + tail;
    assert buf == magic + version + body + tail;
    assert buf[HEADER_SIZE..HEADER_SIZE + |body|] == body;
    SliceEncoded(buf, HEADER_SIZE, body);
    assert buf[..MAGIC_SIZE] == magic;
    assert buf[MAGIC_SIZE..HEADER_SIZE] == version;
    ItemsReadAnywhere(items);
    ChunksRead(buf, HEADER_SIZE, EncodeEach(items), LayoutsOf(items));
    LoadOfReadings(buf, now, PlaceAll(LayoutsOf(items), HEADER_SIZE));
  }
}
