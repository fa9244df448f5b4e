# A Redis clone's snapshot loader, request parser and key-value store, in Dafny

This project models the core of a small Redis server written in Rust:

- **the RDB snapshot decoder** (`src/rdb.rs`). It covers the length and
  string encodings and the opcode loop of `RDB::load`. The loop turns the
  bytes of a dump file into `(key, value, expiry)` records, the version text
  and the table sizes.
- **the request parser** (`src/redis_message.rs`). It covers the command
  classifier `COMMANDS::from_str`, `RedisCommand::new` and
  `RedisCommand::parse_request`. The parser reads one fixed-size buffer in
  the RESP array-of-bulk-strings shape.
- **the key-value store** (`src/database.rs`). It covers `new`, `get`,
  `set`, `config_get`, `get_key_list`, and `load`, which inserts a decoded
  snapshot.

## How the model is built

Modules:

- `Results`: `Option` and `Result` with failure propagation.
- `Text`: byte and text primitives of the Rust standard library the core
  relies on:
  - `String::from_utf8` is a UTF-8 decoder that follows the well-formed
    byte sequences of the Unicode Standard, Table 3-7.
  - `str::parse::<usize>` accepts an optional `+` and decimal digits below
    2^64.
  - `usize::to_string` and little-endian byte combination are also here.
- `Rdb`: the decoder, one function per branch of the loop.
- `RdbReading`: the reference semantics of the loop. The body of a buffer is
  described as a sequence of readings, one per opcode, and the loop is proved
  to compute their replay.
- `RdbFrame`: the decoder looks at no byte after the EOF opcode that ends
  its scan.
- `RdbRoundTrip`: a writer for the layouts the decoder reads back
  faithfully (00 and 10 lengths, special sub-codes 0 and 2), and the
  round trip. Loading a written snapshot, followed by any bytes, gives
  exactly the records and sizes that a reference replay of the written items
  predicts.
- `RedisMessage`: the parser and the classifier.
- `RedisRoundTrip`: the round trip for well-formed request frames.
- `Database`: the store as an immutable value.
- `Samples`: concrete buffers worked through the general lemmas.

Conventions:

- Every Rust panic becomes an error value. This covers an index past the
  end of a buffer, `todo!()`, and `tokens[0]` of an empty list.
- Times are integer milliseconds.
- The clock reading and the bytes of the dump file are parameters.

Where the published RDB layout and the code differ, the model follows the
code:

- A 14-bit length (prefix `01`) takes the low six bits of the first byte
  and the whole second byte as the high byte, so its value can reach
  0xFF3F (255 * 256 + 63 = 65343), not 2^14 - 1.
- 32-bit lengths and the EXPIRETIME seconds are little-endian.
- The 16-bit special integer (sub-code 1) advances the position by two
  bytes, not three.
- RESIZEDB decodes its first length from the opcode byte itself. That
  byte, 0xFB, has special sub-code 0x3B, which falls into the "any other
  sub-code" branch, so the hash-table size is always 0. The second length
  read is the first real one, and one more byte is then skipped unread.
- RESIZEDB reads no entries of its own, although its table sizes are
  sometimes described as counting entries that follow. Entries are read one
  at a time by the "any other byte" branch of the loop.
- The pending expiry set by an EXPIRETIME opcode is never reset. It
  applies to every later entry.
- `get` still returns a value whose expiry equals the current time.

## Model

| member | source | states |
|---|---|---|
| Text.DecodeUtf8 | src/rdb.rs:172 | `String::from_utf8`: a decoded text is never longer than its bytes, and a non-empty byte string never decodes to an empty text |
| Text.DecodeAscii | src/redis_message.rs:69 | the bytes of an ASCII text decode to that text |
| Text.NatToString | src/rdb.rs:169 | `to_string` of a length: a non-empty string of ASCII digits, with no leading zero unless the value is 0 |
| Text.DigitsValueOfNatToString | src/rdb.rs:169 | the digits written for a number have that number as their decimal value |
| Text.ParseUsize | src/redis_message.rs:52 | `parse::<usize>` accepts only text that starts with a digit or `+`, and yields values below 2^64 |
| Text.ParseUsizeOfNatToString | src/redis_message.rs:52 | parsing gives back every `usize` from its decimal text |
| Text.ParseNumber | src/redis_message.rs:51-52 | the header number succeeds exactly when its bytes are UTF-8 and the text parses as a `usize`, and its value is what `parse::<usize>` gives for that text, below 2^64 |
| Text.ParseOneByte | src/redis_message.rs:60-64 | a one-byte length is a number exactly when the byte is a decimal digit, and its value is that digit |
| Text.ParseNumberOfDecimal | src/redis_message.rs:51-52 | the ASCII decimal text of any `usize` parses back to it |
| Text.U32AtIsLittleEndian | src/rdb.rs:128-134 | the four shifted bytes of a 32-bit length combine to their little-endian value |
| Text.U64AtIsLittleEndian | src/rdb.rs:91-95 | `u64::from_le_bytes` of eight buffer bytes is their little-endian value |
| Text.LittleEndianOfLeBytes | src/rdb.rs:91-95 | writing a number as k little-endian bytes and reading them back gives the number |
| Rdb.LengthEncoding | src/rdb.rs:116-164 | a decoded length ends after its lead byte and within the buffer, covers every byte its layout needs, is special exactly when the top two bits are `11`, and is below 2^32 |
| Rdb.LengthEncodingLayout | src/rdb.rs:116-164 | each layout byte by byte: 00 is the byte, 01 is the low six bits plus 256 times the next byte, 10 is four little-endian bytes; for 11, sub-code 0 is one byte, 1 is two bytes with only two consumed, 2 is four bytes, 3 is a compressed-string failure and any other is zero; the result is truncated exactly when a needed byte is missing |
| Rdb.StringEncoding | src/rdb.rs:166-174 | a decoded string ends after its start and within the buffer |
| Rdb.StringEncodingSpec | src/rdb.rs:166-174 | a special length always succeeds, with exactly `to_string` of its value as the text (which parses back to the value) and no payload; otherwise the text is exactly the UTF-8 decoding of the `l` following bytes, truncated exactly when they run past the end; length failures pass through |
| Rdb.ReadAux | src/rdb.rs:57-63 | AUX succeeds exactly when two strings decode after the opcode, and it only moves the position past them |
| Rdb.ReadSelectDb | src/rdb.rs:64-68 | SELECTDB needs the database-number byte and moves the position by two, changing nothing else |
| Rdb.ReadResizeDb | src/rdb.rs:69-75 | RESIZEDB succeeds exactly when a length decodes after the opcode; the hash size is then 0, the expire-hash size is that length, and one byte after it is skipped |
| Rdb.ReadExpireTime | src/rdb.rs:76-88 | EXPIRETIME needs four bytes after the opcode; the pending expiry becomes 1000 times their little-endian value, and the position moves by five |
| Rdb.ReadExpireTimeMs | src/rdb.rs:89-98 | EXPIRETIME_MS needs eight bytes after the opcode; the pending expiry becomes their little-endian `u64` value in milliseconds, the position moves by nine, and nothing else changes |
| Rdb.ReadEntry | src/rdb.rs:100-107 | any other byte is a value-type tag followed by two strings; exactly one record is appended, with the key, the value and the pending expiry |
| Rdb.Step | src/rdb.rs:55-109 | one loop iteration: it stops exactly at EOF and otherwise advances; only expiry opcodes change the expiry, only RESIZEDB changes the sizes, and only a non-opcode byte appends a record, which carries the pending expiry |
| Rdb.Scan | src/rdb.rs:55-109 | the loop ends at the end of the buffer or on an EOF byte, never moves backwards, and only appends records |
| Rdb.Load | src/rdb.rs:38-114 | a buffer shorter than the nine header bytes fails; on success the magic is UTF-8, the version is the UTF-8 text of bytes 5 to 8, and the records and both table sizes are those of the scan from the initial state; with a UTF-8 header it succeeds exactly when the scan does, and a failing scan's error is the result |
| RdbReading.ScanOfReadings | src/rdb.rs:55-109 | a body that reads as a sequence of readings followed by EOF scans to the reference replay of those readings, and stops on that EOF |
| RdbReading.StepOfReading | src/rdb.rs:56-107 | the decoder's step over any reading is that reading's reference effect: entries take the pending expiry, expiry opcodes replace it (seconds times 1000), RESIZEDB sets the sizes, and AUX and SELECTDB only move on |
| RdbReading.ReadingAt | src/rdb.rs:56-107 | every successful step of the loop over a non-EOF byte is the reference effect of some reading that the bytes there read as |
| RdbReading.ScanOfStoppingReadings | src/rdb.rs:55-109 | a body that reads as a sequence of readings ending at the end of the buffer or at an EOF byte scans to the reference replay of those readings |
| RdbReading.ScanIsReplay | src/rdb.rs:55-109 | conversely, every successful scan, whether it stops on EOF or runs off the end, is the replay of a sequence of readings that the buffer reads as |
| RdbReading.LoadOfReadings | src/rdb.rs:38-114 | loading a buffer with a UTF-8 header and such a body gives the version text and the records and sizes of the replay from the initial state |
| RdbFrame.StepFrame | src/rdb.rs:56-107 | a step that continues to a position below k gives the same result on any buffer that agrees below k |
| RdbFrame.ScanIgnoresBytesAfterEof | src/rdb.rs:55-109 | a scan that stops on an EOF byte gives the same result on any buffer that agrees up to and including that byte |
| RdbFrame.LoadIgnoresBytesAfterEof | src/rdb.rs:38-114 | `RDB::load` is unchanged by any bytes appended after the EOF that ends its scan |
| RdbRoundTrip.LengthRoundTrip | src/rdb.rs:116-136 | every length below 2^32, written in the one-byte or four-byte layout, decodes back to itself over exactly the written bytes |
| RdbRoundTrip.FieldRoundTrip | src/rdb.rs:166-174 | every written string field (raw UTF-8, an 8-bit or a 32-bit special integer) reads back as its text, over exactly its bytes |
| RdbRoundTrip.ItemAnywhere | src/rdb.rs:56-107 | every written opcode item or entry, wherever it is placed, reads as its reference reading and spans exactly its bytes |
| RdbRoundTrip.ChunksRead | src/rdb.rs:55-109 | written items placed one after another and closed by EOF read as the whole sequence of their readings |
| RdbRoundTrip.LoadOfSnapshot | src/rdb.rs:38-114 | loading a written snapshot, followed by any bytes, gives the version text and the records and sizes of the reference replay of the written items |
| RedisMessage.FromStr | src/redis_message.rs:15-25 | the input classifies as a command exactly when it is that command's word in any letter case |
| RedisMessage.FromStrInvalid | src/redis_message.rs:23 | `INVALID` is returned exactly when the input is none of the five words in any case |
| RedisMessage.FromStrOfWord | src/redis_message.rs:18-22 | each word, lower-case or in any other casing, classifies to its own command |
| RedisMessage.New | src/redis_message.rs:35-41 | an empty token list fails; otherwise the first token is the command, classified by its word, and the other tokens are the arguments in order |
| RedisMessage.LineEnd | src/redis_message.rs:44-49 | the header loop stops at the first `\r` at or after its start, or at the end of the buffer, and no byte before that point is `\r` |
| RedisMessage.HeaderBytes | src/redis_message.rs:44-49 | the collected header bytes are the bytes from index 1 up to the stop, and contain no `\r` |
| RedisMessage.DigitOfIsNumberOf | src/redis_message.rs:60-64 | reading the one-byte bulk length directly agrees with decoding it as UTF-8 and parsing it as a `usize` |
| RedisMessage.ScanBulks | src/redis_message.rs:59-72 | the bulk loop yields no token at a stop byte (end, `\r` or NUL); when it yields tokens elsewhere, the byte it started on is a digit; each token has at most nine characters; a non-ASCII length byte is a UTF-8 failure, another non-digit a number failure, and a payload past the end a truncation |
| RedisMessage.ScanBulksToken | src/redis_message.rs:60-71 | a pass that reads a token: the token is the UTF-8 text of the d bytes three after the digit d, and the remaining tokens are what the loop yields six bytes further on |
| RedisMessage.ScanBulksAfterChecks | src/redis_message.rs:59-72 | once the length digit and its payload are in range, a payload that is not UTF-8 fails, and otherwise the loop succeeds exactly when the rest of the buffer does, passing on its error |
| RedisMessage.ParseRequest | src/redis_message.rs:43-76 | a header that is not a number fails with a decoding error; a successful parse has a numeric header and a `$` two bytes after the header's `\r` |
| RedisRoundTrip.ScanOfBulks | src/redis_message.rs:59-72 | the bulk loop reads back every token of a run of `$d\r\n<token>\r\n` bulk strings, in order, and stops where the run ends |
| RedisRoundTrip.HeaderOfFrame | src/redis_message.rs:44-52 | the header loop stops at the `\r` after the count's digits and collects exactly those digits |
| RedisRoundTrip.ParseOfFrame | src/redis_message.rs:43-76 | parsing a NUL-padded well-formed frame of ASCII tokens gives the first token's command and the other tokens as arguments, whatever the count in the header says |
| RedisRoundTrip.NoBulksNoCommand | src/redis_message.rs:56-74 | with a numeric header but no `$` after it, or with nothing readable after the `$`, no token is collected and the request fails with no command |
| Samples.FourteenBitSample | src/rdb.rs:120-125 | the bytes `[0x41, 0x05]` decode as a 14-bit length to 0x0501, with the second byte as the high byte, over two bytes |
| Samples.FourteenBitLargest | src/rdb.rs:120-125 | the bytes `[0x7F, 0xFF]` decode as a 14-bit length to 0xFF3F, above 2^14 - 1 |
| Samples.SnapshotSample | src/rdb.rs:38-114 | a dump with magic `REDIS`, version `0011`, RESIZEDB followed by the bytes 1 and 0, one entry `foo` -> `bar`, and EOF loads as the single record `foo` -> `bar` with the default expiry; its hash size is 0 and its expire-hash size is 1 |
| Samples.GetAfterLoadSample | src/database.rs:70-87 | after that dump is loaded into a new store, `get foo` answers `bar` from the load time until the default expiry, and the empty string after it |
| Samples.RequestSample | src/redis_message.rs:43-76 | the NUL-padded frame `*2\r\n$3\r\nGET\r\n$3\r\nfoo\r\n` parses to `GET` with the single argument `foo` |
| Database.New | src/database.rs:16-22 | a new store has no live key and keeps the configured directory and file name |
| Database.Get | src/database.rs:24-39 | a live key (present and `now <= expiry`) answers its stored value; an expired or absent key answers the empty string |
| Database.Set | src/database.rs:41-51 | the key is bound to the new value and expiry; every other key's entry and the configuration are unchanged |
| Database.GetAfterSet | src/database.rs:24-51 | a read right after a write sees the written value exactly until the written expiry |
| Database.GetAfterSetOther | src/database.rs:24-51 | a write leaves every other key's reads as they were |
| Database.SetOverwrites | src/database.rs:41-51 | a second write of the same key replaces the first altogether |
| Database.ConfigGet | src/database.rs:53-59 | exactly `dir` and `dbfilename` have an answer: the name followed by its configured value |
| Database.GetKeyList | src/database.rs:61-68 | every key of the map, expired ones included, appears exactly once |
| Database.InsertRecords | src/database.rs:82-84 | after the insert loop, the keys are the old keys plus the record keys, keys no record names keep their entries, and the last record of each key decides its value and expiry |
| Database.Load | src/database.rs:70-87 | an empty file name leaves the store unchanged; an unreadable or undecodable file fails; otherwise the decoded records are inserted in order, with the last one per key winning, and the configuration is kept |
| Database.GetRequest | src/database.rs:24-39 | `get` of a command needs a key argument and then answers `get` of its first token |
| Database.SetRequest | src/database.rs:41-51 | `set` of a command needs a key and a value argument, and then binds the first token to the second with the given expiry, keeping every other key and the configuration |

## Left out

- Reading the dump file (`fs::read` of `dir/dbfilename` in `RDB::new`, src/rdb.rs:25-36) is not modelled. The file's bytes are a parameter of `Database.Load`, and `None` stands for a failed read.
- The `RwLock` around the map and its poisoned-lock branches are not modelled. The store is an immutable value, and a lock failure cannot happen in the model.
- `SystemTime::now()` is not modelled. The clock reading is the parameter `now`, in milliseconds. Overflow of `SystemTime` arithmetic is not modelled either.
- The `println!` logging is not modelled. The AUX metadata map is not modelled either: it is built but never read.
- Special sub-code 3 (`todo!()`, src/rdb.rs:158) is the error `CompressedString`. The `_` arm at src/rdb.rs:162 cannot be reached, because `buffer[p] & 192` has only four values, so it has no counterpart.
- `BUFFER_SIZE` is the length of the request sequence. `main.rs` (the accept loop, one thread per connection) and `process.rs` (a handler that reads 30 bytes, logs the CRLF-separated pieces and always answers `+PONG`) are not part of this model: neither calls the parser or the store.
- Database.SetRequest: the expiry is a parameter. `set` reads `redis_cmd.expiry`, but `RedisCommand` as defined in src/redis_message.rs:28-32 has no such field. Where the expiry comes from is not part of this model.
- RedisMessage.FromStr: `to_lowercase` lowers only ASCII letters in the model. Full Unicode lowering changes no classification: apart from `A`-`Z`, no character lowers to text made only of letters of the five command words.
- RedisMessage.ScanBulks: each bulk length is read as a single byte, as the loop does. The proof that this agrees with decoding it as UTF-8 and parsing it is `RedisMessage.DigitOfIsNumberOf`. Its own contract does not state what a read token is or how a non-UTF-8 payload or the rest of the buffer fails; `RedisMessage.ScanBulksToken` and `RedisMessage.ScanBulksAfterChecks` do.
- Database.Get: the store is passed by value. That `get` changes nothing holds by construction and is not stated separately.
- RedisRoundTrip.ParseOfFrame: the round trip covers ASCII tokens of at most nine characters. The parser reads each bulk length as one digit, and a longer token cannot be framed in a way it reads back.
- Text.DecodeUtf8: its own contract states only length bounds. Which byte sequences it accepts is its definition, following Table 3-7 of the Unicode Standard. The only round trip proved for it is the ASCII one, `Text.DecodeAscii`.
- Text.ParseUsize: its own contract states only the leading character and the 64-bit bound. Its partner property is the round trip with `usize::to_string`, `Text.ParseUsizeOfNatToString`.
- Rdb.StringEncoding: its own contract states only where the decoded string ends. Its full behaviour is stated by `Rdb.StringEncodingSpec`.
- Rdb.Scan: its own contract states only how the loop ends and that records are only appended. What the loop computes, on any buffer, is stated by `RdbReading.ScanOfStoppingReadings` and its converse `RdbReading.ScanIsReplay`.
- RedisMessage.ParseRequest: its own contract covers header failures and the `$` a success needs. What a well-formed frame parses to is stated by `RedisRoundTrip.ParseOfFrame`, and the failure without bulk strings by `RedisRoundTrip.NoBulksNoCommand`.
