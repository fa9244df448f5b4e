/** Well-formed request frames and what `parse_request` makes of them: a
    frame `*n\r\n` followed by one `$d\r\n<token>\r\n` per token, padded
    with NUL bytes up to the buffer size, parses to the command of the first
    token and the other tokens as its arguments, whatever the count `n`
    says. Bulk lengths are single digits, so tokens have at most nine
    characters; tokens are ASCII so that their characters are their bytes. */
module RedisRoundTrip {
  import opened Results
  import opened Text
  import opened RedisMessage

  /** A token a well-formed frame can carry as the parser reads it. */
  predicate Sendable(t: string) {
    IsAscii(t) && |t| <= 9
  }

  predicate AllSendable(ts: seq<string>) {
    forall k :: 0 <= k < |ts| ==> Sendable(ts[k])
  }

  /** `$d\r\n`: the length line of a bulk string of `size` bytes. */
  function LengthLine(size: nat): (r: seq<byte>)
    requires size <= 9
    ensures |r| == 4
  {
    [DOLLAR, '0' as int + size, CR, LF]
  }

  /** `$d\r\n<t>\r\n` with `d` the one-digit length of `t`. */
  function Bulk(t: string): (r: seq<byte>)
    requires Sendable(t)
    ensures |r| == |t| + 6
  {
    LengthLine(|t|) + (AsciiBytes(t) + [CR, LF])
  }

  function Bulks(ts: seq<string>): (r: seq<byte>)
    requires AllSendable(ts)
    ensures |ts| > 0 ==> |r| > 0 && r[0] == DOLLAR
    decreases |ts|
  {
    if |ts| == 0 then [] else Bulk(ts[0]) + Bulks(ts[1..])
  }

  /** The array header `*n\r\n` and the bulk strings of `ts`. */
  function Frame(n: nat, ts: seq<string>): seq<byte>
    requires AllSendable(ts)
  {
    [STAR] + AsciiBytes(NatToString(n)) + [CR, LF] + Bulks(ts)
  }

  predicate AllNul(pad: seq<byte>) {
    forall k :: 0 <= k < |pad| ==> pad[k] == NUL
  }

  /** A held bulk string has its length digit one byte in and its payload
      four bytes in. */
  lemma BulkParts(req: seq<byte>, q: nat, t: string)
    requires Sendable(t) && Encoded(req, q, Bulk(t))
    ensures q + 1 < |req| && req[q + 1] == '0' as int + |t|
    ensures Encoded(req, q + 4, AsciiBytes(t))
  {
    var line := LengthLine(|t|);
    EncodedSplit(req, q, line, AsciiBytes(t) + [CR, LF]);
    assert q + |line| == q + 4;
    EncodedSplit(req, q + 4, AsciiBytes(t), [CR, LF]);
    EncodedSlice(req, q, line);
    assert req[q + 1] == req[q..q + 4][1] == line[1];
  }

  /** A one-digit length byte is read as its value and is no stop byte. */
  lemma DigitRead(b: byte, size: nat)
    requires size <= 9 && b == '0' as int + size
    ensures b != CR && b != NUL && DigitOf(b) == Ok(size)
  {
  }

  /** A held ASCII payload is read back as its text. */
  lemma PayloadRead(req: seq<byte>, start: nat, t: string)
    requires IsAscii(t) && Encoded(req, start, AsciiBytes(t))
    ensures start + |t| <= |req| && TextOf(req[start..start + |t|]) == Ok(t)
  {
    EncodedSlice(req, start, AsciiBytes(t));
    DecodeAscii(t);
  }

  /** One iteration of the bulk loop. */
  lemma ScanBulksStep(req: seq<byte>, i: nat, size: nat, start: nat, token: string, next: nat, rest: seq<string>)
    requires !StopsAt(req, i) && DigitOf(req[i]) == Ok(size)
    requires start == i + 3 && start + size <= |req| && TextOf(req[start..start + size]) == Ok(token)
    requires next == i + 6 + size && ScanBulks(req, next) == Ok(rest)
    ensures ScanBulks(req, i) == Ok([token] + rest)
  {
  }

  /** A held bulk string followed by a run the loop reads as the remaining
      tokens is read as all of the tokens. */
  lemma ScanOfBulkThen(req: seq<byte>, q: nat, ts: seq<string>, next: nat)
    requires |ts| > 0 && Sendable(ts[0]) && Encoded(req, q, Bulk(ts[0]))
    requires next == q + |Bulk(ts[0])| + 1 && ScanBulks(req, next) == Ok(ts[1..])
    ensures ScanBulks(req, q + 1) == Ok(ts)
  {
    var t := ts[0];
    BulkParts(req, q, t);
    DigitRead(req[q + 1], |t|);
    PayloadRead(req, q + 4, t);
    ScanBulksStep(req, q + 1, |t|, q + 4, t, next, ts[1..]);
    assert [t] + ts[1..] == ts;
  }

  /** The bulk loop reads every token of a held run of bulk strings, and
      stops where the run ends. */
  lemma {:induction false} ScanOfBulks(req: seq<byte>, q: nat, ts: seq<string>)
    requires AllSendable(ts) && Encoded(req, q, Bulks(ts))
    requires StopsAt(req, q + |Bulks(ts)| + 1)
    ensures ScanBulks(req, q + 1) == Ok(ts)
    decreases |ts|
  {
    if |ts| > 0 {
      BulksHead(req, q, ts);
      var q' := q + |Bulk(ts[0])|;
      ScanOfBulks(req, q', ts[1..]);
      ScanOfBulkThen(req, q, ts, q' + 1);
    }
  }

  /** A held run of bulk strings is its first bulk string followed by the
      run of the others. */
  lemma BulksHead(req: seq<byte>, q: nat, ts: seq<string>)
    requires |ts| > 0 && AllSendable(ts) && Encoded(req, q, Bulks(ts))
    ensures Sendable(ts[0]) && AllSendable(ts[1..])
    ensures Encoded(req, q, Bulk(ts[0])) && Encoded(req, q + |Bulk(ts[0])|, Bulks(ts[1..]))
    ensures |Bulks(ts)| == |Bulk(ts[0])| + |Bulks(ts[1..])|
  {
    assert Bulks(ts) == Bulk(ts[0]) + Bulks(ts[1..]);
    EncodedSplit(req, q, Bulk(ts[0]), Bulks(ts[1..]));
  }

  /** The header loop stops at the `\r` that ends the count's digits. */
  lemma HeaderOfFrame(req: seq<byte>, n: nat)
    requires Encoded(req, 0, [STAR] + AsciiBytes(NatToString(n)) + [CR, LF])
    ensures LineEnd(req, 1) == 1 + |NatToString(n)|
    ensures HeaderBytes(req) == AsciiBytes(NatToString(n))
  {
    var digits := AsciiBytes(NatToString(n));
    var d := 1 + |digits|;
    EncodedSplit(req, 0, [STAR] + digits, [CR, LF]);
    EncodedHead(req, d, CR, [LF]);
    EncodedSplit(req, 0, [STAR], digits);
    EncodedSlice(req, 1, digits);
    forall j | 1 <= j < d
      ensures req[j] != CR
    {
      assert req[j] == req[1..d][j - 1] == digits[j - 1];
    }
  }

  /** Parsing a NUL-padded well-formed frame gives the first token's command
      and the other tokens, in order. */
  lemma ParseOfFrame(n: nat, ts: seq<string>, pad: seq<byte>)
    requires n < USIZE_LIMIT && |ts| > 0 && AllSendable(ts) && AllNul(pad)
    ensures ParseRequest(Frame(n, ts) + pad) == Ok(RedisCommand(FromStr(ts[0]), ts[1..]))
  {
    var req := Frame(n, ts) + pad;
    var head := [STAR] + AsciiBytes(NatToString(n)) + [CR, LF];
    assert req[0..|Frame(n, ts)|] == Frame(n, ts);
    SliceEncoded(req, 0, Frame(n, ts));
    EncodedSplit(req, 0, head, Bulks(ts));
    HeaderOfFrame(req, n);
    ParseNumberOfDecimal(n);
    var start := |head|;
    assert req[start] == Bulks(ts)[0] == DOLLAR;
    var stop := start + |Bulks(ts)| + 1;
    if stop < |req| {
      assert req[stop] == pad[1];
    }
    ScanOfBulks(req, start, ts);
  }

  /** Without a `$` two bytes after the header's `\r`, or with one that is
      followed at once by a stop byte, no token is collected, and
      `RedisCommand::new` then has no command word. */
  lemma NoBulksNoCommand(req: seq<byte>)
    requires ParseNumber(HeaderBytes(req)).Ok?
    requires var start := LineEnd(req, 1) + 2;
      !(start < |req| && req[start] == DOLLAR) || StopsAt(req, start + 1)
    ensures ParseRequest(req) == Err(NoTokens)
  {
    var start := LineEnd(req, 1) + 2;
    if start < |req| && req[start] == DOLLAR {
      assert ScanBulks(req, start + 1) == Ok([]);
    }
  }
}
