/** The request parser of `src/redis_message.rs`: a cursor over a fixed-size
    frame in the RESP array-of-bulk-strings shape, and the classifier that
    turns the first bulk string into a command.

    The frame is the byte sequence `req`; its length plays the part of
    `BUFFER_SIZE`. Every Rust panic (a slice past the end of the frame,
    `tokens[0]` of an empty list) is an error value. */
module RedisMessage {
  import opened Results
  import opened Text

  const CR: byte := 13      // '\r'
  const LF: byte := 10      // '\n'
  const NUL: byte := 0
  const STAR: byte := 42    // '*'
  const DOLLAR: byte := 36  // '$'

  /** The variants of `COMMANDS`. */
  datatype Commands = Command | Ping | Echo | Get | Set | Invalid

  /** A classified command and its arguments. */
  datatype RedisCommand = RedisCommand(command: Commands, tokens: seq<string>)

  datatype ParseError =
    | BadUtf8      // `String::from_utf8` failed
    | BadNumber    // `str::parse::<usize>` failed
    | Truncated    // a bulk string runs past the end of the frame (a panic)
    | NoTokens     // `tokens[0]` of an empty token list (a panic)

  // ---------------------------------------------------------------------
  // Classification
  // ---------------------------------------------------------------------

  /** The lower-case word of each variant; `Invalid` has none. */
  function Word(c: Commands): string {
    match c
    case Command => "command"
    case Ping => "ping"
    case Echo => "echo"
    case Get => "get"
    case Set => "set"
    case Invalid => ""
  }

  /** ASCII lower-casing of one character. */
  function LowerChar(c: char): char {
    if 'A' <= c <= 'Z' then (c as int + 32) as char else c
  }

  /** `str::to_lowercase`, restricted to ASCII letters: no other character
      lowers to a letter of the five command words, so the classification
      below is the same as with full Unicode lowering. */
  function Lower(s: string): (r: string)
    ensures |r| == |s|
  {
    seq(|s|, i requires 0 <= i < |s| => LowerChar(s[i]))
  }

  /** `a` and `b` differ at most in the case of ASCII letters. */
  predicate SameIgnoringCase(a: string, b: string) {
    |a| == |b| && forall i :: 0 <= i < |a| ==> LowerChar(a[i]) == LowerChar(b[i])
  }

  /** Every character of `w` is its own lower case. */
  predicate IsLowerWord(w: string) {
    forall i :: 0 <= i < |w| ==> LowerChar(w[i]) == w[i]
  }

  lemma LowerMatchesWord(s: string, w: string)
    requires IsLowerWord(w)
    ensures Lower(s) == w <==> SameIgnoringCase(s, w)
  {
    if SameIgnoringCase(s, w) {
      assert forall i :: 0 <= i < |s| ==> Lower(s)[i] == w[i];
    }
  }

  lemma WordsAreLower(c: Commands)
    ensures IsLowerWord(Word(c))
  {
    var w := Word(c);
    forall i | 0 <= i < |w|
      ensures LowerChar(w[i]) == w[i]
    {
      assert 'a' <= w[i] <= 'z';
    }
  }

  /** `COMMANDS::from_str`: a variant exactly when the input is its word in
      any casing, and `Invalid` when it is none of the five words. */
  function FromStr(input: string): (r: Commands)
    ensures forall c: Commands :: c != Invalid ==> (r == c <==> SameIgnoringCase(input, Word(c)))
  {
    var lowered := Lower(input);
    forall c: Commands | c != Invalid
      ensures lowered == Word(c) <==> SameIgnoringCase(input, Word(c))
    {
      WordsAreLower(c);
      LowerMatchesWord(input, Word(c));
    }
    if lowered == "command" then Command
    else if lowered == "ping" then Ping
    else if lowered == "echo" then Echo
    else if lowered == "get" then Get
    else if lowered == "set" then Set
    else Invalid
  }

  /** `Invalid` is what every other word gets. */
  lemma FromStrInvalid(input: string)
    ensures FromStr(input) == Invalid <==>
      forall c: Commands :: c != Invalid ==> !SameIgnoringCase(input, Word(c))
  {
    var r := FromStr(input);
    if r != Invalid {
      assert SameIgnoringCase(input, Word(r));
    }
  }

  /** Every variant's word classifies back to that variant, in lower case
      and in any other casing. */
  lemma {:induction false} FromStrOfWord(c: Commands, s: string)
    requires c != Invalid && SameIgnoringCase(s, Word(c))
    ensures FromStr(Word(c)) == c && FromStr(s) == c
  {
  }

  // ---------------------------------------------------------------------
  // Command and arguments
  // ---------------------------------------------------------------------

  /** `RedisCommand::new`: the first token is the command, the others are
      its arguments in order; an empty token list is a panic. */
  function New(tokens: seq<string>): (r: Result<RedisCommand, ParseError>)
    ensures r.Err? <==> |tokens| == 0
    ensures r.Err? ==> r.error == NoTokens
    ensures r.Ok? ==> [tokens[0]] + r.value.tokens == tokens
    ensures r.Ok? ==> forall c: Commands :: c != Invalid ==>
      (r.value.command == c <==> SameIgnoringCase(tokens[0], Word(c)))
  {
    if |tokens| == 0 then Err(NoTokens)
    else Ok(RedisCommand(FromStr(tokens[0]), tokens[1..]))
  }

  // ---------------------------------------------------------------------
  // The frame cursor
  // ---------------------------------------------------------------------

  /** Where the header loop stops when it starts at `i`: the first `\r` at
      or after `i`, or the end of the frame (`i` itself when `i` is already
      past the end). */
  function LineEnd(req: seq<byte>, i: nat): (e: nat)
    ensures i <= e && (e == i || e <= |req|)
    ensures e < |req| ==> req[e] == CR
    ensures forall j :: i <= j < e ==> j < |req| && req[j] != CR
    decreases |req| - i
  {
    if i < |req| && req[i] != CR then LineEnd(req, i + 1) else i
  }

  /** The bytes the header loop collects: from index 1 up to the first `\r`. */
  function HeaderBytes(req: seq<byte>): (h: seq<byte>)
    ensures |req| > 0 ==> h == req[1..LineEnd(req, 1)]
    ensures CR !in h
  {
    if |req| == 0 then [] else req[1..LineEnd(req, 1)]
  }

  /** Where the bulk loop stops: the end of the frame, a `\r`, or a NUL. */
  predicate StopsAt(req: seq<byte>, i: nat) {
    i >= |req| || req[i] == CR || req[i] == NUL
  }

  function NumberOf(bs: seq<byte>): (r: Result<nat, ParseError>)
    ensures r.Ok? <==> ParseNumber(bs).Ok?
    ensures r.Ok? ==> r.value == ParseNumber(bs).value
  {
    match ParseNumber(bs)
    case Ok(n) => Ok(n)
    case Err(NotUtf8) => Err(BadUtf8)
    case Err(NotANumber) => Err(BadNumber)
  }

  function TextOf(bs: seq<byte>): (r: Result<string, ParseError>)
    ensures r.Ok? <==> DecodeUtf8(bs).Some?
    ensures r.Ok? ==> r.value == DecodeUtf8(bs).value
    ensures r.Err? ==> r.error == BadUtf8
  {
    match DecodeUtf8(bs)
    case Some(s) => Ok(s)
    case None => Err(BadUtf8)
  }

  /** `String::from_utf8(vec![b])?.parse::<usize>()?` for one byte `b`:
      a lone byte from 0x80 up is no UTF-8, and a lone ASCII byte is a
      number exactly when it is a decimal digit (`DigitOfIsNumberOf`). */
  function DigitOf(b: byte): Result<nat, ParseError> {
    if b >= 0x80 then Err(BadUtf8)
    else if '0' as int <= b <= '9' as int then Ok(b - '0' as int)
    else Err(BadNumber)
  }

  lemma DigitOfIsNumberOf(b: byte)
    ensures DigitOf(b) == NumberOf([b])
  {
    ParseOneByte(b);
    var bs: seq<byte> := [b];
    if b >= 0x80 {
      assert SequenceWidth(bs) == 0;
    } else {
      assert bs[1..] == [];
      assert DecodeUtf8(bs[1..]) == Some([]);
      assert DecodeUtf8(bs).Some?;
    }
  }

  /** The bulk loop of `parse_request` from the length digit at `i`: the
      length is that single byte, the payload starts three bytes later, and
      the next length digit is three bytes after the payload (the `$` in
      between is never looked at). */
  function ScanBulks(req: seq<byte>, i: nat): (r: Result<seq<string>, ParseError>)
    ensures StopsAt(req, i) ==> r == Ok([])
    ensures r.Ok? && !StopsAt(req, i) ==> |r.value| > 0 && '0' as int <= req[i] <= '9' as int
    ensures r.Ok? ==> forall k :: 0 <= k < |r.value| ==> |r.value[k]| <= 9
    // the three ways one pass fails
    ensures !StopsAt(req, i) && req[i] >= 0x80 ==> r == Err(BadUtf8)
    ensures !StopsAt(req, i) && req[i] < 0x80 && !('0' as int <= req[i] <= '9' as int) ==> r == Err(BadNumber)
    ensures !StopsAt(req, i) && '0' as int <= req[i] <= '9' as int && i + 3 + (req[i] - '0' as int) > |req| ==> r == Err(Truncated)
    decreases |req| - i
  {
    if StopsAt(req, i) then Ok([])
    else
      var size :- DigitOf(req[i]);
      if i + 3 + size > |req| then Err(Truncated)
      else
        var token :- TextOf(req[i + 3..i + 3 + size]);
        var rest :- ScanBulks(req, i + 6 + size);
        Ok([token] + rest)
  }

  /** A pass that reads a token: the token is the UTF-8 text of the `size`
      bytes three past the digit, and the loop goes on three bytes past that
      payload, where it reads the remaining tokens. */
  lemma ScanBulksToken(req: seq<byte>, i: nat)
    requires ScanBulks(req, i).Ok? && !StopsAt(req, i)
    ensures var size := req[i] - '0' as int;
      && i + 3 + size <= |req|
      && DecodeUtf8(req[i + 3..i + 3 + size]) == Some(ScanBulks(req, i).value[0])
      && ScanBulks(req, i + 6 + size) == Ok(ScanBulks(req, i).value[1..])
  {
    var size := req[i] - '0' as int;
    var token := DecodeUtf8(req[i + 3..i + 3 + size]).value;
    var rest := ScanBulks(req, i + 6 + size).value;
    assert ScanBulks(req, i).value == [token] + rest;
  }

  /** Once a pass has read a digit and its payload fits in the frame, the
      pass fails exactly when the payload is not UTF-8, and otherwise the
      rest of the loop decides: the loop fails with its error or succeeds. */
  lemma ScanBulksAfterChecks(req: seq<byte>, i: nat)
    requires !StopsAt(req, i) && '0' as int <= req[i] <= '9' as int && i + 3 + (req[i] - '0' as int) <= |req|
    ensures var size := req[i] - '0' as int;
      && (DecodeUtf8(req[i + 3..i + 3 + size]).None? ==> ScanBulks(req, i) == Err(BadUtf8))
      && (DecodeUtf8(req[i + 3..i + 3 + size]).Some? ==>
            && (ScanBulks(req, i).Ok? <==> ScanBulks(req, i + 6 + size).Ok?)
            && (ScanBulks(req, i).Err? ==> ScanBulks(req, i) == ScanBulks(req, i + 6 + size)))
  {
    assert DigitOf(req[i]) == Ok(req[i] - '0' as int);
  }

  /** `RedisCommand::parse_request`: the header digits must parse as a
      number, whose value is then ignored; bulk strings are collected only
      when the byte two after the header's `\r` is `$`; the collected
      tokens go to `RedisCommand::new`. */
  function ParseRequest(req: seq<byte>): (r: Result<RedisCommand, ParseError>)
    ensures ParseNumber(HeaderBytes(req)).Err? ==> r.Err? && r.error != Truncated && r.error != NoTokens
    ensures var start := LineEnd(req, 1) + 2;
      r.Ok? ==> ParseNumber(HeaderBytes(req)).Ok? && start < |req| && req[start] == DOLLAR
  {
    var _ :- NumberOf(HeaderBytes(req));
    var start := LineEnd(req, 1) + 2;
    var tokens :- if start < |req| && req[start] == DOLLAR then ScanBulks(req, start + 1) else Ok([]);
    New(tokens)
  }
}
