/** What the scan of `RDB::load` (src/rdb.rs) does with a buffer laid out as a
    sequence of known readings: one `Reading` per opcode (or entry), each
    described by what `length_encoding` and `string_encoding` return at its
    position. A buffer that reads as `rs` followed by EOF scans to the replay
    of `rs`, which makes the scan's record order, expiry tracking and table
    sizes explicit. */
module RdbReading {
  import opened Results
  import opened Text
  import opened Rdb

  /** One loop iteration's worth of input, as the decoder reads it at a
      given position. `keyEnd`, `valueEnd` and `sizeEnd` are the positions
      just after a decoded string or length. */
  datatype Reading =
    | AuxRead(auxKey: string, keyEnd: nat, auxValue: string, valueEnd: nat)
    | SelectDbRead
    | ResizeDbRead(size: nat, sizeEnd: nat)
    | ExpireSecondsRead(seconds: nat)
    | ExpireMillisRead(millis: nat)
    | EntryRead(key: string, keyEnd: nat, value: string, valueEnd: nat)

  /** Where the decoder goes on after reading `r` at `p`. */
  function After(p: nat, r: Reading): nat {
    match r
    case AuxRead(_, _, _, valueEnd) => valueEnd
    case SelectDbRead => p + 2
    case ResizeDbRead(_, sizeEnd) => sizeEnd + 1
    case ExpireSecondsRead(_) => p + 5
    case ExpireMillisRead(_) => p + 9
    case EntryRead(_, _, _, valueEnd) => valueEnd
  }

  /** After the byte at `p` come two strings, ending at `keyEnd` and `valueEnd`. */
  predicate ReadsTwoStrings(buf: seq<byte>, p: nat, k: string, keyEnd: nat, v: string, valueEnd: nat) {
    && p < |buf|
    && StringEncoding(buf, p + 1) == Ok(Decoded(k, keyEnd))
    && StringEncoding(buf, keyEnd) == Ok(Decoded(v, valueEnd))
  }

  predicate ReadsResizeDb(buf: seq<byte>, p: nat, size: nat, sizeEnd: nat) {
    && p < |buf| && buf[p] == RESIZEDB
    && LengthEncoding(buf, p + 1).Ok?
    && LengthEncoding(buf, p + 1).value.value == size
    && LengthEncoding(buf, p + 1).value.next == sizeEnd
  }

  predicate ReadsExpireSeconds(buf: seq<byte>, p: nat, s: nat) {
    p + 4 < |buf| && buf[p] == EXPIRETIME && U32At(buf, p + 1) == s
  }

  predicate ReadsExpireMillis(buf: seq<byte>, p: nat, ms: nat) {
    p + 8 < |buf| && buf[p] == EXPIRETIME_MS && U64At(buf, p + 1) == ms
  }

  /** `buf` at `p` reads as `r`. */
  predicate ReadsAs(buf: seq<byte>, p: nat, r: Reading) {
    match r
    case AuxRead(k, keyEnd, v, valueEnd) => ReadsTwoStrings(buf, p, k, keyEnd, v, valueEnd) && buf[p] == AUX
    case SelectDbRead => p + 1 < |buf| && buf[p] == SELECTDB
    case ResizeDbRead(size, sizeEnd) => ReadsResizeDb(buf, p, size, sizeEnd)
    case ExpireSecondsRead(s) => ReadsExpireSeconds(buf, p, s)
    case ExpireMillisRead(ms) => ReadsExpireMillis(buf, p, ms)
    case EntryRead(k, keyEnd, v, valueEnd) => ReadsTwoStrings(buf, p, k, keyEnd, v, valueEnd) && !IsOpcode(buf[p])
  }

  /** Where the EOF opcode sits when `buf` at `p` reads as `rs` and then
      EOF, or None when it does not. */
  function EofAfter(buf: seq<byte>, p: nat, rs: seq<Reading>): (e: Option<nat>)
    ensures e.Some? ==> p <= e.value < |buf| && buf[e.value] == EOF
    decreases |rs|
  {
    if |rs| == 0 then (if p < |buf| && buf[p] == EOF then Some(p) else None)
    else if ReadsAs(buf, p, rs[0]) then EofAfter(buf, After(p, rs[0]), rs[1..])
    else None
  }

  /** `buf` at `p` reads as `rs` and then an EOF opcode. */
  predicate ReadsAll(buf: seq<byte>, p: nat, rs: seq<Reading>) {
    EofAfter(buf, p, rs).Some?
  }

  /** The reference effect of a reading on the loop variables: entries take
      the pending expiry and are appended; an expiry opcode replaces the
      pending expiry (seconds scaled to milliseconds); RESIZEDB zeroes the
      table size and records its one decoded length as the expire-table
      size; AUX and SELECTDB change nothing but the position. */
  function ApplyReading(st: ScanState, r: Reading): (next: ScanState)
    ensures next.pointer == After(st.pointer, r)
  {
    var moved := st.(pointer := After(st.pointer, r));
    match r
    case AuxRead(_, _, _, _) => moved
    case SelectDbRead => moved
    case ResizeDbRead(size, _) => moved.(hashSize := 0, expireHashSize := size)
    case ExpireSecondsRead(s) => moved.(expiry := s * 1000)
    case ExpireMillisRead(ms) => moved.(expiry := ms)
    case EntryRead(k, _, v, _) => moved.(data := st.data + [Record(k, v, st.expiry)])
  }

  function ReplayReadings(st: ScanState, rs: seq<Reading>): ScanState
    decreases |rs|
  {
    if |rs| == 0 then st else ReplayReadings(ApplyReading(st, rs[0]), rs[1..])
  }

  // ---------------------------------------------------------------------
  // One step per reading
  // ---------------------------------------------------------------------

  /** A buffer that reads as `rs` starts with the first reading and goes on
      with the rest. */
  lemma {:induction false} FirstReading(buf: seq<byte>, p: nat, rs: seq<Reading>)
    requires |rs| > 0 && ReadsAll(buf, p, rs)
    ensures ReadsAs(buf, p, rs[0]) && ReadsAll(buf, After(p, rs[0]), rs[1..])
  {
  }

  lemma {:induction false} StepOfAuxReading(buf: seq<byte>, st: ScanState, r: Reading)
    requires r.AuxRead? && ReadsAs(buf, st.pointer, r)
    ensures st.pointer < |buf| && Step(buf, st) == Ok(Continue(ApplyReading(st, r)))
  {
    ReadAuxOfStrings(buf, st, Decoded(r.auxKey, r.keyEnd), Decoded(r.auxValue, r.valueEnd));
  }

  lemma {:induction false} StepOfEntryReading(buf: seq<byte>, st: ScanState, r: Reading)
    requires r.EntryRead? && ReadsAs(buf, st.pointer, r)
    ensures st.pointer < |buf| && Step(buf, st) == Ok(Continue(ApplyReading(st, r)))
  {
    ReadEntryOfStrings(buf, st, Decoded(r.key, r.keyEnd), Decoded(r.value, r.valueEnd));
  }

  lemma {:induction false} StepOfResizeDbReading(buf: seq<byte>, st: ScanState, r: Reading)
    requires r.ResizeDbRead? && ReadsAs(buf, st.pointer, r)
    ensures st.pointer < |buf| && Step(buf, st) == Ok(Continue(ApplyReading(st, r)))
  {
    assert ReadResizeDb(buf, st) == Ok(st.(pointer := r.sizeEnd + 1, hashSize := 0, expireHashSize := r.size));
  }

  lemma {:induction false} StepOfExpireSecondsReading(buf: seq<byte>, st: ScanState, r: Reading)
    requires r.ExpireSecondsRead? && ReadsAs(buf, st.pointer, r)
    ensures st.pointer < |buf| && Step(buf, st) == Ok(Continue(ApplyReading(st, r)))
  {
    var p := st.pointer;
    assert ReadExpireTime(buf, st) == Ok(st.(pointer := p + 5, expiry := r.seconds * 1000));
  }

  lemma {:induction false} StepOfExpireMillisReading(buf: seq<byte>, st: ScanState, r: Reading)
    requires r.ExpireMillisRead? && ReadsAs(buf, st.pointer, r)
    ensures st.pointer < |buf| && Step(buf, st) == Ok(Continue(ApplyReading(st, r)))
  {
  }

  lemma {:induction false} StepOfSelectDbReading(buf: seq<byte>, st: ScanState, r: Reading)
    requires r.SelectDbRead? && ReadsAs(buf, st.pointer, r)
    ensures st.pointer < |buf| && Step(buf, st) == Ok(Continue(ApplyReading(st, r)))
  {
  }

  /** The decoder's step over a reading is the reading's reference effect. */
  lemma {:induction false} StepOfReading(buf: seq<byte>, st: ScanState, r: Reading)
    requires ReadsAs(buf, st.pointer, r)
    ensures st.pointer < |buf| && Step(buf, st) == Ok(Continue(ApplyReading(st, r)))
  {
    if r.AuxRead? {
      StepOfAuxReading(buf, st, r);
    } else if r.EntryRead? {
      StepOfEntryReading(buf, st, r);
    } else if r.ResizeDbRead? {
      StepOfResizeDbReading(buf, st, r);
    } else if r.ExpireSecondsRead? {
      StepOfExpireSecondsReading(buf, st, r);
    } else if r.ExpireMillisRead? {
      StepOfExpireMillisReading(buf, st, r);
    } else {
      StepOfSelectDbReading(buf, st, r);
    }
  }

  /** The decoder's step over the first reading is that reading's reference
      effect, and the rest of the buffer reads as the other readings. */
  lemma {:induction false} StepOfFirstReading(buf: seq<byte>, st: ScanState, rs: seq<Reading>)
    requires |rs| > 0 && ReadsAll(buf, st.pointer, rs)
    ensures st.pointer < |buf| && Step(buf, st) == Ok(Continue(ApplyReading(st, rs[0])))
    ensures ReadsAll(buf, ApplyReading(st, rs[0]).pointer, rs[1..])
  {
    FirstReading(buf, st.pointer, rs);
    StepOfReading(buf, st, rs[0]);
  }

  /** A buffer that reads as `rs` and then EOF scans to the replay of `rs`,
      and the scan ends on that EOF. */
  lemma {:induction false} ScanOfReadings(buf: seq<byte>, st: ScanState, rs: seq<Reading>)
    requires ReadsAll(buf, st.pointer, rs)
    ensures Scan(buf, st) == Ok(ReplayReadings(st, rs))
    ensures var fin := ReplayReadings(st, rs); fin.pointer < |buf| && buf[fin.pointer] == EOF
    decreases |rs|
  {
    if |rs| > 0 {
      StepOfFirstReading(buf, st, rs);
      var next := ApplyReading(st, rs[0]);
      assert Scan(buf, st) == Scan(buf, next);
      ScanOfReadings(buf, next, rs[1..]);
    }
  }

  /** Where the loop of `RDB::load` leaves off when `buf` at `p` reads as
      `rs`: on an EOF opcode, or at or past the end of the buffer (the
      loop's other exit); None when `buf` does not read so. */
  function StopAfter(buf: seq<byte>, p: nat, rs: seq<Reading>): (e: Option<nat>)
    ensures e.Some? ==> p <= e.value && (e.value >= |buf| || buf[e.value] == EOF)
    decreases |rs|
  {
    if |rs| == 0 then (if p >= |buf| || buf[p] == EOF then Some(p) else None)
    else if ReadsAs(buf, p, rs[0]) then StopAfter(buf, After(p, rs[0]), rs[1..])
    else None
  }

  /** A buffer that reads as `rs` up to where the loop stops, by EOF or by
      running off its end, scans to the replay of `rs`. */
  lemma {:induction false} ScanOfStoppingReadings(buf: seq<byte>, st: ScanState, rs: seq<Reading>)
    requires StopAfter(buf, st.pointer, rs).Some?
    ensures Scan(buf, st) == Ok(ReplayReadings(st, rs))
    ensures var fin := ReplayReadings(st, rs); fin.pointer >= |buf| || buf[fin.pointer] == EOF
    decreases |rs|
  {
    if |rs| > 0 {
      assert ReadsAs(buf, st.pointer, rs[0]);
      StepOfReading(buf, st, rs[0]);
      var next := ApplyReading(st, rs[0]);
      assert Scan(buf, st) == Scan(buf, next);
      ScanOfStoppingReadings(buf, next, rs[1..]);
    }
  }

  /** The reading that a successful step which does not stop takes at
      `st.pointer`. */
  function ReadingAt(buf: seq<byte>, st: ScanState): (r: Reading)
    requires st.pointer < |buf| && buf[st.pointer] != EOF && Step(buf, st).Ok?
    ensures ReadsAs(buf, st.pointer, r)
    ensures Step(buf, st) == Ok(Continue(ApplyReading(st, r)))
  {
    var p, op := st.pointer, buf[st.pointer];
    var r :=
      if op == SELECTDB then SelectDbRead
      else if op == RESIZEDB then
        var len := LengthEncoding(buf, p + 1).value;
        ResizeDbRead(len.value, len.next)
      else if op == EXPIRETIME then ExpireSecondsRead(U32At(buf, p + 1))
      else if op == EXPIRETIME_MS then ExpireMillisRead(U64At(buf, p + 1))
      else
        var key := StringEncoding(buf, p + 1).value;
        var value := StringEncoding(buf, key.next).value;
        if op == AUX then AuxRead(key.text, key.next, value.text, value.next)
        else EntryRead(key.text, key.next, value.text, value.next);
    StepOfReading(buf, st, r);
    r
  }

  /** The readings a successful scan takes from `st` until it stops. */
  function ReadingsOf(buf: seq<byte>, st: ScanState): (rs: seq<Reading>)
    requires Scan(buf, st).Ok?
    decreases |buf| - st.pointer
  {
    if st.pointer >= |buf| || buf[st.pointer] == EOF then []
    else
      var r := ReadingAt(buf, st);
      [r] + ReadingsOf(buf, ApplyReading(st, r))
  }

  /** Every successful scan is the replay of the readings it takes, and the
      buffer reads as those readings up to where the loop stops. Together
      with `ScanOfStoppingReadings` this describes what the loop computes on
      any buffer. */
  lemma {:induction false} ScanIsReplay(buf: seq<byte>, st: ScanState)
    requires Scan(buf, st).Ok?
    ensures StopAfter(buf, st.pointer, ReadingsOf(buf, st)).Some?
    ensures Scan(buf, st) == Ok(ReplayReadings(st, ReadingsOf(buf, st)))
    decreases |buf| - st.pointer
  {
    if !(st.pointer >= |buf| || buf[st.pointer] == EOF) {
      var r := ReadingAt(buf, st);
      var next := ApplyReading(st, r);
      assert Scan(buf, st) == Scan(buf, next);
      ScanIsReplay(buf, next);
      var rs := ReadingsOf(buf, st);
      assert rs == [r] + ReadingsOf(buf, next);
      assert rs[0] == r && rs[1..] == ReadingsOf(buf, next);
    }
  }

  /** `RDB::load` of a buffer whose header is valid UTF-8 and whose body
      reads as `rs` and then EOF: the version text, and the records and
      table sizes of the replay of `rs` from the initial loop state. */
  lemma {:induction false} LoadOfReadings(buf: seq<byte>, now: int, rs: seq<Reading>)
    requires |buf| >= HEADER_SIZE
    requires DecodeUtf8(buf[..MAGIC_SIZE]).Some? && DecodeUtf8(buf[MAGIC_SIZE..HEADER_SIZE]).Some?
    requires ReadsAll(buf, HEADER_SIZE, rs)
    ensures var fin := ReplayReadings(InitialState(now), rs);
      Load(buf, now) == Ok(Snapshot(DecodeUtf8(buf[MAGIC_SIZE..HEADER_SIZE]).value, fin.data, fin.hashSize, fin.expireHashSize))
  {
    ScanOfReadings(buf, InitialState(now), rs);
  }
}
