/** What the snapshot decoder reads: every step reads only bytes up to the
    position it advances to, so once the scan has stopped at an EOF opcode
    the bytes after that opcode play no part in the result. */
module RdbFrame {
  import opened Results
  import opened Text
  import opened Rdb

  /** `a` and `b` both have at least `k` bytes and hold the same bytes below `k`. */
  predicate AgreeBelow(a: seq<byte>, b: seq<byte>, k: nat) {
    k <= |a| && k <= |b| && forall i :: 0 <= i < k ==> a[i] == b[i]
  }

  lemma {:induction false} LengthEncodingFrame(a: seq<byte>, b: seq<byte>, p: nat, k: nat)
    requires LengthEncoding(a, p).Ok? && LengthEncoding(a, p).value.next < k
    requires AgreeBelow(a, b, k)
    ensures LengthEncoding(b, p) == LengthEncoding(a, p)
  {
    assert a[p] == b[p];
    var lead := a[p];
    if 0x40 <= lead < 0x80 || lead == 0xC0 {
      assert a[p + 1] == b[p + 1];
    } else if lead == 0xC1 {
      assert a[p + 1] == b[p + 1] && a[p + 2] == b[p + 2];
    } else if 0x80 <= lead < 0xC0 || lead == 0xC2 {
      assert a[p + 1..p + 5] == b[p + 1..p + 5];
    }
  }

  lemma {:induction false} StringEncodingFrame(a: seq<byte>, b: seq<byte>, p: nat, k: nat)
    requires StringEncoding(a, p).Ok? && StringEncoding(a, p).value.next < k
    requires AgreeBelow(a, b, k)
    ensures StringEncoding(b, p) == StringEncoding(a, p)
  {
    var len := LengthEncoding(a, p).value;
    LengthEncodingFrame(a, b, p, k);
    if !len.special {
      assert a[len.next..len.next + len.value] == b[len.next..len.next + len.value];
    }
  }

  lemma {:induction false} ReadTwoStringsFrame(a: seq<byte>, b: seq<byte>, p: nat, k: nat)
    requires StringEncoding(a, p).Ok? && StringEncoding(a, StringEncoding(a, p).value.next).Ok?
    requires StringEncoding(a, StringEncoding(a, p).value.next).value.next < k
    requires AgreeBelow(a, b, k)
    ensures StringEncoding(b, p) == StringEncoding(a, p)
    ensures StringEncoding(b, StringEncoding(b, p).value.next) == StringEncoding(a, StringEncoding(a, p).value.next)
  {
    var key := StringEncoding(a, p).value;
    StringEncodingFrame(a, b, p, k);
    StringEncodingFrame(a, b, key.next, k);
  }

  lemma {:induction false} ReadEntryFrame(a: seq<byte>, b: seq<byte>, st: ScanState, k: nat)
    requires ReadEntry(a, st).Ok? && ReadEntry(a, st).value.pointer < k
    requires AgreeBelow(a, b, k)
    ensures ReadEntry(b, st) == ReadEntry(a, st)
  {
    var key := StringEncoding(a, st.pointer + 1).value;
    var value := StringEncoding(a, key.next).value;
    assert value.next < k;
    ReadTwoStringsFrame(a, b, st.pointer + 1, k);
    ReadEntryOfStrings(a, st, key, value);
    ReadEntryOfStrings(b, st, key, value);
  }

  lemma {:induction false} ReadAuxFrame(a: seq<byte>, b: seq<byte>, st: ScanState, k: nat)
    requires ReadAux(a, st).Ok? && ReadAux(a, st).value.pointer < k
    requires AgreeBelow(a, b, k)
    ensures ReadAux(b, st) == ReadAux(a, st)
  {
    var key := StringEncoding(a, st.pointer + 1).value;
    var value := StringEncoding(a, key.next).value;
    ReadTwoStringsFrame(a, b, st.pointer + 1, k);
    ReadAuxOfStrings(a, st, key, value);
    ReadAuxOfStrings(b, st, key, value);
  }

  lemma {:induction false} StepFrameAux(a: seq<byte>, b: seq<byte>, st: ScanState, k: nat)
    requires var p := st.pointer; p < |a| && a[p] == AUX
    requires Step(a, st).Ok? && Step(a, st).value.Continue? && Step(a, st).value.state.pointer < k
    requires AgreeBelow(a, b, k)
    ensures st.pointer < |b| && Step(b, st) == Step(a, st)
  {
    var p := st.pointer;
    assert a[p] == b[p];
    ReadAuxFrame(a, b, st, k);
  }

  lemma {:induction false} StepFrameSelectDb(a: seq<byte>, b: seq<byte>, st: ScanState, k: nat)
    requires var p := st.pointer; p < |a| && a[p] == SELECTDB
    requires Step(a, st).Ok? && Step(a, st).value.Continue? && Step(a, st).value.state.pointer < k
    requires AgreeBelow(a, b, k)
    ensures st.pointer < |b| && Step(b, st) == Step(a, st)
  {
    var p := st.pointer;
    assert a[p] == b[p];
    assert ReadSelectDb(b, st) == ReadSelectDb(a, st);
  }

  lemma {:induction false} ReadResizeDbFrame(a: seq<byte>, b: seq<byte>, st: ScanState, k: nat)
    requires st.pointer < |a| && a[st.pointer] == RESIZEDB
    requires ReadResizeDb(a, st).Ok? && ReadResizeDb(a, st).value.pointer < k
    requires AgreeBelow(a, b, k)
    ensures st.pointer < |b| && b[st.pointer] == RESIZEDB && ReadResizeDb(b, st) == ReadResizeDb(a, st)
  {
    assert a[st.pointer] == b[st.pointer];
    LengthEncodingFrame(a, b, st.pointer + 1, k);
  }

  lemma {:induction false} StepFrameResizeDb(a: seq<byte>, b: seq<byte>, st: ScanState, k: nat)
    requires var p := st.pointer; p < |a| && a[p] == RESIZEDB
    requires Step(a, st).Ok? && Step(a, st).value.Continue? && Step(a, st).value.state.pointer < k
    requires AgreeBelow(a, b, k)
    ensures st.pointer < |b| && Step(b, st) == Step(a, st)
  {
    assert Step(a, st) == Ok(Continue(ReadResizeDb(a, st).value));
    ReadResizeDbFrame(a, b, st, k);
  }

  lemma {:induction false} StepFrameExpireTime(a: seq<byte>, b: seq<byte>, st: ScanState, k: nat)
    requires var p := st.pointer; p < |a| && a[p] == EXPIRETIME
    requires Step(a, st).Ok? && Step(a, st).value.Continue? && Step(a, st).value.state.pointer < k
    requires AgreeBelow(a, b, k)
    ensures st.pointer < |b| && Step(b, st) == Step(a, st)
  {
    var p := st.pointer;
    assert a[p] == b[p];
    assert a[p + 1..p + 5] == b[p + 1..p + 5];
    assert ReadExpireTime(b, st) == ReadExpireTime(a, st);
  }

  lemma {:induction false} StepFrameExpireTimeMs(a: seq<byte>, b: seq<byte>, st: ScanState, k: nat)
    requires var p := st.pointer; p < |a| && a[p] == EXPIRETIME_MS
    requires Step(a, st).Ok? && Step(a, st).value.Continue? && Step(a, st).value.state.pointer < k
    requires AgreeBelow(a, b, k)
    ensures st.pointer < |b| && Step(b, st) == Step(a, st)
  {
    var p := st.pointer;
    assert a[p] == b[p];
    assert a[p + 1..p + 9] == b[p + 1..p + 9];
    assert ReadExpireTimeMs(b, st) == ReadExpireTimeMs(a, st);
  }

  lemma {:induction false} StepFrameEntry(a: seq<byte>, b: seq<byte>, st: ScanState, k: nat)
    requires var p := st.pointer; p < |a| && !IsOpcode(a[p])
    requires Step(a, st).Ok? && Step(a, st).value.Continue? && Step(a, st).value.state.pointer < k
    requires AgreeBelow(a, b, k)
    ensures st.pointer < |b| && Step(b, st) == Step(a, st)
  {
    var p := st.pointer;
    assert a[p] == b[p];
    ReadEntryFrame(a, b, st, k);
  }

  /** A step that continues to a position below `k` reads only bytes below `k`. */
  lemma {:induction false} StepFrame(a: seq<byte>, b: seq<byte>, st: ScanState, k: nat)
    requires st.pointer < |a| && Step(a, st).Ok? && Step(a, st).value.Continue?
    requires Step(a, st).value.state.pointer < k
    requires AgreeBelow(a, b, k)
    ensures st.pointer < |b| && Step(b, st) == Step(a, st)
  {
    var op := a[st.pointer];
    if op == AUX {
      StepFrameAux(a, b, st, k);
    } else if op == SELECTDB {
      StepFrameSelectDb(a, b, st, k);
    } else if op == RESIZEDB {
      StepFrameResizeDb(a, b, st, k);
    } else if op == EXPIRETIME {
      StepFrameExpireTime(a, b, st, k);
    } else if op == EXPIRETIME_MS {
      StepFrameExpireTimeMs(a, b, st, k);
    } else {
      StepFrameEntry(a, b, st, k);
    }
  }

  /** A scan that stops at an EOF opcode gives the same result on any buffer
      that agrees with its own up to and including that opcode. */
  lemma {:induction false} ScanIgnoresBytesAfterEof(a: seq<byte>, b: seq<byte>, st: ScanState)
    requires Scan(a, st).Ok? && Scan(a, st).value.pointer < |a|
    requires AgreeBelow(a, b, Scan(a, st).value.pointer + 1)
    ensures Scan(b, st) == Scan(a, st)
    decreases |a| - st.pointer
  {
    var fin := Scan(a, st).value;
    var k := fin.pointer + 1;
    if st.pointer < |a| {
      match Step(a, st).value
      case Stop =>
        assert b[st.pointer] == EOF;
      case Continue(next) =>
        StepFrame(a, b, st, k);
        ScanIgnoresBytesAfterEof(a, b, next);
    }
  }

  lemma {:induction false} PrefixAgrees(buf: seq<byte>, n: nat, tail: seq<byte>)
    requires n <= |buf|
    ensures AgreeBelow(buf, buf[..n] + tail, n)
  {
  }

  /** `RDB::load` depends on the buffer only through its header and its scan. */
  lemma {:induction false} LoadDependsOnHeaderAndScan(a: seq<byte>, b: seq<byte>, now: int)
    requires |a| >= HEADER_SIZE && |b| >= HEADER_SIZE && a[..HEADER_SIZE] == b[..HEADER_SIZE]
    requires Scan(a, InitialState(now)) == Scan(b, InitialState(now))
    ensures Load(a, now) == Load(b, now)
  {
    assert a[..MAGIC_SIZE] == a[..HEADER_SIZE][..MAGIC_SIZE];
    assert b[..MAGIC_SIZE] == b[..HEADER_SIZE][..MAGIC_SIZE];
    assert a[MAGIC_SIZE..HEADER_SIZE] == a[..HEADER_SIZE][MAGIC_SIZE..];
    assert b[MAGIC_SIZE..HEADER_SIZE] == b[..HEADER_SIZE][MAGIC_SIZE..];
  }

  /** `RDB::load` never looks past the EOF opcode that ends its scan:
      any bytes may follow it. */
  lemma {:induction false} LoadIgnoresBytesAfterEof(buf: seq<byte>, tail: seq<byte>, now: int, fin: ScanState)
    requires Scan(buf, InitialState(now)) == Ok(fin) && fin.pointer < |buf|
    ensures Load(buf[..fin.pointer + 1] + tail, now) == Load(buf, now)
  {
    var b := buf[..fin.pointer + 1] + tail;
    ScanOfTruncated(buf, tail, InitialState(now), fin);
    HeaderOfTruncated(buf, fin.pointer + 1, tail);
    LoadDependsOnHeaderAndScan(buf, b, now);
  }

  lemma {:induction false} HeaderOfTruncated(buf: seq<byte>, n: nat, tail: seq<byte>)
    requires HEADER_SIZE <= n <= |buf|
    ensures |buf[..n] + tail| >= HEADER_SIZE && (buf[..n] + tail)[..HEADER_SIZE] == buf[..HEADER_SIZE]
  {
  }

  lemma {:induction false} ScanOfTruncated(buf: seq<byte>, tail: seq<byte>, st: ScanState, fin: ScanState)
    requires Scan(buf, st) == Ok(fin) && fin.pointer < |buf|
    ensures fin.pointer >= st.pointer
    ensures Scan(buf[..fin.pointer + 1] + tail, st) == Ok(fin)
  {
    PrefixAgrees(buf, fin.pointer + 1, tail);
    ScanIgnoresBytesAfterEof(buf, buf[..fin.pointer + 1] + tail, st);
  }
}
