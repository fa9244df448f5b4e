/** Worked examples: concrete byte buffers and what the decoder, the request
    parser and the store make of them, derived from the general round-trip
    lemmas rather than by evaluation. */
module Samples {
  import opened Results
  import opened Text
  import opened Rdb
  import RdbReading
  import RdbRoundTrip
  import RedisMessage
  import RedisRoundTrip
  import Database

  const FOO: seq<byte> := [102, 111, 111]  // "foo"
  const BAR: seq<byte> := [98, 97, 114]    // "bar"

  /** A dump with magic `REDIS`, version `0011`, a RESIZEDB opcode followed
      by the bytes 1 and 0, one entry of value type 0 with key `foo` and value
      `bar`, and EOF. */
  const SAMPLE_DUMP: seq<byte> :=
    SAMPLE_MAGIC + SAMPLE_VERSION
    + [RESIZEDB, 1, 0]
    + [0, 3] + FOO + [3] + BAR
    + [EOF]

  /** The items a writer lays out for `SAMPLE_DUMP`. */
  function SampleItems(): seq<RdbRoundTrip.Item> {
    [RdbRoundTrip.ResizeDb(1, 0), RdbRoundTrip.Entry(0, RdbRoundTrip.Bytes(FOO), RdbRoundTrip.Bytes(BAR))]
  }

  lemma AsciiSamples()
    ensures AsciiBytes("foo") == FOO && AsciiBytes("bar") == BAR
    ensures DecodeUtf8(FOO) == Some("foo") && DecodeUtf8(BAR) == Some("bar")
  {
    AsciiFoo();
    AsciiBar();
  }

  lemma AsciiFoo()
    ensures AsciiBytes("foo") == FOO && DecodeUtf8(FOO) == Some("foo")
  {
    var bs := AsciiBytes("foo");
    assert bs[0] == 102 && bs[1] == 111 && bs[2] == 111;
    assert bs == FOO;
    DecodeAscii("foo");
  }

  lemma AsciiBar()
    ensures AsciiBytes("bar") == BAR && DecodeUtf8(BAR) == Some("bar")
  {
    var bs := AsciiBytes("bar");
    assert bs[0] == 98 && bs[1] == 97 && bs[2] == 114;
    assert bs == BAR;
    DecodeAscii("bar");
  }

  /** The 14-bit layout `[0b01000001, 0x05]` takes its second byte as the
      high byte: the value is 0x0501, where the published layout has 0x0105. */
  lemma FourteenBitSample()
    ensures LengthEncoding([0x41, 0x05], 0) == Ok(Length(0x0501, 2, false))
  {
    LengthEncodingLayout([0x41, 0x05], 0);
  }

  /** The largest 14-bit length: six one bits and a full high byte give
      0xFF3F, well above 2^14 - 1. */
  lemma FourteenBitLargest()
    ensures LengthEncoding([0x7F, 0xFF], 0) == Ok(Length(0xFF3F, 2, false))
  {
    LengthEncodingLayout([0x7F, 0xFF], 0);
  }

  const SAMPLE_MAGIC: seq<byte> := [82, 69, 68, 73, 83]  // "REDIS"
  const SAMPLE_VERSION: seq<byte> := [48, 48, 49, 49]    // "0011"

  /** The key and value fields of the sample entry, as written. */
  lemma SampleFields()
    ensures RdbRoundTrip.FieldOk(RdbRoundTrip.Bytes(FOO)) && RdbRoundTrip.FieldOk(RdbRoundTrip.Bytes(BAR))
    ensures RdbRoundTrip.EncodeField(RdbRoundTrip.Bytes(FOO)) == [3] + FOO
    ensures RdbRoundTrip.EncodeField(RdbRoundTrip.Bytes(BAR)) == [3] + BAR
    ensures RdbRoundTrip.FieldText(RdbRoundTrip.Bytes(FOO)) == "foo"
    ensures RdbRoundTrip.FieldText(RdbRoundTrip.Bytes(BAR)) == "bar"
  {
    AsciiSamples();
    assert Pow256(4) == 256 * Pow256(3);
  }

  /** The bytes of each sample item. */
  lemma SampleItemBytes()
    ensures RdbRoundTrip.AllOk(SampleItems())
    ensures RdbRoundTrip.EncodeItem(SampleItems()[0]) == [RESIZEDB, 1, 0]
    ensures RdbRoundTrip.EncodeItem(SampleItems()[1]) == [0] + ([3] + FOO + ([3] + BAR))
  {
    SampleFields();
    assert Pow256(4) == 256 * Pow256(3);
  }

  /** `SAMPLE_DUMP` is what a writer lays out for `SampleItems()`. */
  lemma SampleWritten()
    ensures RdbRoundTrip.AllOk(SampleItems())
    ensures RdbRoundTrip.EncodeSnapshot(SAMPLE_MAGIC, SAMPLE_VERSION, SampleItems()) == SAMPLE_DUMP
  {
    var items := SampleItems();
    SampleItemBytes();
    var e0, e1 := RdbRoundTrip.EncodeItem(items[0]), RdbRoundTrip.EncodeItem(items[1]);
    assert RdbRoundTrip.EncodeEach(items) == [e0, e1];
    assert RdbRoundTrip.EncodeItems(items) == e0 + (e1 + []);
  }

  /** The header of `SAMPLE_DUMP` is UTF-8 text. */
  lemma SampleHeader()
    ensures DecodeUtf8(SAMPLE_MAGIC) == Some("REDIS") && DecodeUtf8(SAMPLE_VERSION) == Some("0011")
  {
    SampleMagic();
    SampleVersion();
  }

  lemma SampleMagic()
    ensures DecodeUtf8(SAMPLE_MAGIC) == Some("REDIS")
  {
    var bs := AsciiBytes("REDIS");
    assert bs[0] == 82 && bs[1] == 69 && bs[2] == 68 && bs[3] == 73 && bs[4] == 83;
    assert bs == SAMPLE_MAGIC;
    DecodeAscii("REDIS");
  }

  lemma SampleVersion()
    ensures DecodeUtf8(SAMPLE_VERSION) == Some("0011")
  {
    var bs := AsciiBytes("0011");
    assert bs[0] == 48 && bs[1] == 48 && bs[2] == 49 && bs[3] == 49;
    assert bs == SAMPLE_VERSION;
    DecodeAscii("0011");
  }

  /** What the decoder makes of each sample item. */
  lemma SampleLayouts()
    requires RdbRoundTrip.AllOk(SampleItems())
    ensures RdbRoundTrip.LayoutsOf(SampleItems())
      == [RdbRoundTrip.ResizeDbLayout(1, 1), RdbRoundTrip.EntryLayout("foo", 4, "bar", 4)]
  {
    SampleFields();
    var layouts := RdbRoundTrip.LayoutsOf(SampleItems());
    assert layouts[0] == RdbRoundTrip.ResizeDbLayout(1, 1);
    assert layouts[1] == RdbRoundTrip.EntryLayout("foo", 4, "bar", 4);
  }

  /** The readings of the sample body: RESIZEDB with its one decoded
      length, then the entry. */
  const SAMPLE_READINGS: seq<RdbReading.Reading> :=
    [RdbReading.ResizeDbRead(1, 11), RdbReading.EntryRead("foo", 17, "bar", 21)]

  /** The sample items placed after the header. */
  lemma SamplePlacement()
    ensures RdbRoundTrip.PlaceAll([RdbRoundTrip.ResizeDbLayout(1, 1), RdbRoundTrip.EntryLayout("foo", 4, "bar", 4)], HEADER_SIZE)
      == SAMPLE_READINGS
  {
    var l1 := RdbRoundTrip.EntryLayout("foo", 4, "bar", 4);
    assert RdbRoundTrip.PlaceAll([l1], HEADER_SIZE + 3) == [RdbRoundTrip.Place(l1, HEADER_SIZE + 3)];
  }

  /** Replaying the sample readings: the expire-hash size becomes 1 and the
      entry takes the initial pending expiry. */
  lemma SampleReadingsReplay(now: int)
    ensures RdbReading.ReplayReadings(InitialState(now), SAMPLE_READINGS)
      == ScanState(21, now + NEVER_OFFSET_MS, [Record("foo", "bar", now + NEVER_OFFSET_MS)], 0, 1)
  {
    var st := InitialState(now);
    var r0, r1 := SAMPLE_READINGS[0], SAMPLE_READINGS[1];
    var st1 := RdbReading.ApplyReading(st, r0);
    assert st1 == ScanState(12, now + NEVER_OFFSET_MS, [], 0, 1);
    assert SAMPLE_READINGS[1..] == [r1];
    assert RdbReading.ReplayReadings(st1, [r1]) == RdbReading.ReplayReadings(RdbReading.ApplyReading(st1, r1), []);
  }

  /** The reference replay of the sample items from the initial state. */
  lemma SampleReplay(now: int)
    requires RdbRoundTrip.AllOk(SampleItems())
    ensures RdbRoundTrip.Replay(InitialState(now), SampleItems())
      == ScanState(21, now + NEVER_OFFSET_MS, [Record("foo", "bar", now + NEVER_OFFSET_MS)], 0, 1)
  {
    SampleLayouts();
    SamplePlacement();
    SampleReadingsReplay(now);
  }

  /** Loading `SAMPLE_DUMP`: one record `foo` -> `bar` with the never-expiring
      default expiry. RESIZEDB reads its opcode byte as the table size, so
      the hash size is 0, the byte 1 becomes the expire-hash size, and the
      byte 0 is skipped. */
  lemma {:induction false} SnapshotSample(now: int)
    ensures Load(SAMPLE_DUMP, now) == Ok(Snapshot("0011", [Record("foo", "bar", now + NEVER_OFFSET_MS)], 0, 1))
  {
    SampleWritten();
    SampleHeader();
    SampleReplay(now);
    assert SAMPLE_DUMP + [] == SAMPLE_DUMP;
    RdbRoundTrip.LoadOfSnapshot(SAMPLE_MAGIC, SAMPLE_VERSION, SampleItems(), [], now);
  }

  /** After loading `SAMPLE_DUMP` into a fresh store, `get foo` answers `bar`
      at the moment of loading and for the next `u32::MAX` seconds. */
  lemma GetAfterLoadSample(dir: string, now: int, later: int)
    requires now <= later <= now + NEVER_OFFSET_MS
    ensures var loaded := Database.Load(Database.New(dir, "dump.rdb"), Some(SAMPLE_DUMP), now);
      loaded.Ok? && Database.Get(loaded.value, "foo", later) == "bar"
      && Database.Get(loaded.value, "foo", now + NEVER_OFFSET_MS + 1) == ""
  {
    SnapshotSample(now);
    var records := [Record("foo", "bar", now + NEVER_OFFSET_MS)];
    assert Database.LastFor(records, 0);
  }

  /** `*2\r\n$3\r\nGET\r\n$3\r\nfoo\r\n` padded with NUL bytes parses to a
      `GET` of `foo`. */
  lemma RequestSample(pad: seq<byte>)
    requires RedisRoundTrip.AllNul(pad)
    ensures RedisMessage.ParseRequest(RedisRoundTrip.Frame(2, ["GET", "foo"]) + pad)
      == Ok(RedisMessage.RedisCommand(RedisMessage.Get, ["foo"]))
  {
    var ts := ["GET", "foo"];
    SampleTokens();
    RedisRoundTrip.ParseOfFrame(2, ts, pad);
    assert ts[1..] == ["foo"];
  }

  /** The sample tokens can be framed, and the first one is `GET`. */
  lemma SampleTokens()
    ensures RedisRoundTrip.AllSendable(["GET", "foo"])
    ensures RedisMessage.FromStr("GET") == RedisMessage.Get
  {
    assert RedisRoundTrip.Sendable("GET") && RedisRoundTrip.Sendable("foo");
    var ts := ["GET", "foo"];
    assert ts[0] == "GET" && ts[1] == "foo";
    assert RedisMessage.SameIgnoringCase("GET", RedisMessage.Word(RedisMessage.Get));
    RedisMessage.FromStrOfWord(RedisMessage.Get, "GET");
  }
}
