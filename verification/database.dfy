/** The key-value store of `src/database.rs` with its `RwLock` removed: a
    map from key to `(value, expiry)`, the configured directory and file
    name, upsert, lazily expiring reads, key listing, `CONFIG GET` lookups
    and the bulk load of a decoded snapshot.

    Times are integer milliseconds; the clock reading `now` is a parameter.
    An entry is never removed when it expires: `Get` merely stops returning
    its value. */
module Database {
  import opened Results
  import Text
  import Rdb
  import RedisMessage

  /** A stored value and the last moment at which it is still returned. */
  datatype Entry = Entry(value: string, expiry: int)

  datatype Store = Store(db: map<string, Entry>, dir: string, dbfilename: string)

  /** The value `Get` answers with for `key` at `now`: the stored value while
      `now <= expiry`, and the empty string for an expired or absent key. */
  predicate Live(s: Store, key: string, now: int) {
    key in s.db && now <= s.db[key].expiry
  }

  /** `Database::new`: an empty map and the configured location. */
  function New(dir: string, dbfilename: string): (s: Store)
    ensures forall key, now :: !Live(s, key, now)
    ensures s.dir == dir && s.dbfilename == dbfilename
  {
    Store(map[], dir, dbfilename)
  }

  /** `Database::get`: a missing key reads as an empty string stored with
      expiry `now`, which has not passed; a stored value is returned until
      its expiry has passed, the expiry moment included. */
  function Get(s: Store, key: string, now: int): (r: string)
    ensures Live(s, key, now) ==> r == s.db[key].value
    ensures !Live(s, key, now) ==> r == ""
  {
    var e := if key in s.db then s.db[key] else Entry("", now);
    if now > e.expiry then "" else e.value
  }

  /** `Database::set`: `key` is bound to `(value, expiry)`, replacing any
      earlier binding; every other key and the configuration are unchanged. */
  function Set(s: Store, key: string, value: string, expiry: int): (r: Store)
    ensures key in r.db && r.db[key] == Entry(value, expiry)
    ensures r.db.Keys == s.db.Keys + {key}
    ensures forall k :: k in s.db && k != key ==> r.db[k] == s.db[k]
    ensures r.dir == s.dir && r.dbfilename == s.dbfilename
  {
    s.(db := s.db[key := Entry(value, expiry)])
  }

  /** A read right after a write of `key` sees the written value exactly
      until the written expiry. */
  lemma GetAfterSet(s: Store, key: string, value: string, expiry: int, now: int)
    ensures Get(Set(s, key, value, expiry), key, now) == (if now <= expiry then value else "")
  {
  }

  /** A write of one key leaves every other key's reads as they were. */
  lemma GetAfterSetOther(s: Store, key: string, value: string, expiry: int, other: string, now: int)
    requires other != key
    ensures Get(Set(s, key, value, expiry), other, now) == Get(s, other, now)
  {
  }

  /** A later write of the same key replaces an earlier one altogether. */
  lemma SetOverwrites(s: Store, key: string, v1: string, e1: int, v2: string, e2: int)
    ensures Set(Set(s, key, v1, e1), key, v2, e2) == Set(s, key, v2, e2)
  {
  }

  /** `Database::config_get`: the two configuration names answer with the
      name and its value; any other name has no answer. */
  function ConfigGet(s: Store, name: string): (r: Option<seq<string>>)
    ensures r.Some? <==> name == "dir" || name == "dbfilename"
    ensures r.Some? ==> |r.value| == 2 && r.value[0] == name
    ensures name == "dir" ==> r == Some(["dir", s.dir])
    ensures name == "dbfilename" ==> r == Some(["dbfilename", s.dbfilename])
  {
    if name == "dir" then Some(["dir", s.dir])
    else if name == "dbfilename" then Some(["dbfilename", s.dbfilename])
    else None
  }

  /** `Database::get_key_list`: every key of the map exactly once, expired
      keys included, in whatever order the map yields them. */
  method GetKeyList(s: Store) returns (keys: seq<string>)
    ensures forall k :: k in keys <==> k in s.db
    ensures |keys| == |s.db.Keys|
    ensures forall i, j :: 0 <= i < j < |keys| ==> keys[i] != keys[j]
  {
    keys := [];
    var remaining := s.db.Keys;
    while remaining != {}
      invariant remaining <= s.db.Keys
      invariant forall k :: k in keys <==> k in s.db.Keys - remaining
      invariant |keys| + |remaining| == |s.db.Keys|
      invariant forall i, j :: 0 <= i < j < |keys| ==> keys[i] != keys[j]
      decreases |remaining|
    {
      var k :| k in remaining;
      assert k !in keys;
      keys := keys + [k];
      remaining := remaining - {k};
    }
  }

  // ---------------------------------------------------------------------
  // Bulk load
  // ---------------------------------------------------------------------

  /** `key` occurs in no record after index `i`. */
  predicate LastFor(records: seq<Rdb.Record>, i: nat)
    requires i < |records|
  {
    forall j :: i < j < |records| ==> records[j].key != records[i].key
  }

  /** The insert loop of `Database::load`: records are inserted in order, so
      the last record of each key decides its entry, and keys that no record
      names keep theirs. */
  function InsertRecords(db: map<string, Entry>, records: seq<Rdb.Record>): (r: map<string, Entry>)
    ensures forall k :: k in r <==> k in db || exists i :: 0 <= i < |records| && records[i].key == k
    ensures forall k :: k in db && (forall i :: 0 <= i < |records| ==> records[i].key != k) ==> r[k] == db[k]
    ensures forall i :: 0 <= i < |records| && LastFor(records, i) ==>
      r[records[i].key] == Entry(records[i].value, records[i].expiry)
    decreases |records|
  {
    if |records| == 0 then db
    else
      var first := records[0];
      var r := InsertRecords(db[first.key := Entry(first.value, first.expiry)], records[1..]);
      assert forall i :: 1 <= i < |records| ==> records[i] == records[1..][i - 1];
      r
  }

  datatype LoadError =
    | Unreadable             // the snapshot file could not be read
    | Corrupt(cause: Rdb.RdbError)  // `RDB::load` failed on its bytes

  /** `Database::load`: nothing happens without a file name; otherwise the
      file's bytes (`None` when reading it failed) are decoded as a snapshot
      and its records inserted. The configuration never changes. */
  function Load(s: Store, file: Option<seq<Text.byte>>, now: int): (r: Result<Store, LoadError>)
    ensures s.dbfilename == "" ==> r == Ok(s)
    ensures s.dbfilename != "" && file.None? ==> r == Err(Unreadable)
    ensures s.dbfilename != "" && file.Some? && Rdb.Load(file.value, now).Err? ==>
      r == Err(Corrupt(Rdb.Load(file.value, now).error))
    ensures s.dbfilename != "" && file.Some? && Rdb.Load(file.value, now).Ok? ==>
      var records := Rdb.Load(file.value, now).value.data;
      && r.Ok? && r.value.dir == s.dir && r.value.dbfilename == s.dbfilename
      && r.value.db.Keys == s.db.Keys + (set i | 0 <= i < |records| :: records[i].key)
      && (forall k :: k in s.db && (forall i :: 0 <= i < |records| ==> records[i].key != k) ==> r.value.db[k] == s.db[k])
      && (forall i :: 0 <= i < |records| && LastFor(records, i) ==>
            r.value.db[records[i].key] == Entry(records[i].value, records[i].expiry))
  {
    if s.dbfilename == "" then Ok(s)
    else match file
      case None => Err(Unreadable)
      case Some(bytes) =>
        match Rdb.Load(bytes, now)
        case Err(e) => Err(Corrupt(e))
        case Ok(snap) => Ok(s.(db := InsertRecords(s.db, snap.data)))
  }

  // ---------------------------------------------------------------------
  // Requests
  // ---------------------------------------------------------------------

  datatype RequestError = MissingArgument

  /** `get` on a parsed command: the key is the first argument, and a command
      without one indexes past the end of its tokens. */
  function GetRequest(s: Store, cmd: RedisMessage.RedisCommand, now: int): (r: Result<string, RequestError>)
    ensures r.Ok? <==> |cmd.tokens| >= 1
    ensures r.Ok? && Live(s, cmd.tokens[0], now) ==> r.value == s.db[cmd.tokens[0]].value
    ensures r.Ok? && !Live(s, cmd.tokens[0], now) ==> r.value == ""
  {
    if |cmd.tokens| == 0 then Err(MissingArgument) else Ok(Get(s, cmd.tokens[0], now))
  }

  /** `set` on a parsed command: the first two arguments are key and value;
      the expiry is supplied by the caller. */
  function SetRequest(s: Store, cmd: RedisMessage.RedisCommand, expiry: int): (r: Result<Store, RequestError>)
    ensures r.Ok? <==> |cmd.tokens| >= 2
    ensures r.Ok? ==> var key := cmd.tokens[0];
      && key in r.value.db && r.value.db[key] == Entry(cmd.tokens[1], expiry)
      && r.value.db.Keys == s.db.Keys + {key}
      && (forall k :: k in s.db && k != key ==> r.value.db[k] == s.db[k])
    ensures r.Ok? ==> r.value.dir == s.dir && r.value.dbfilename == s.dbfilename
  {
    if |cmd.tokens| < 2 then Err(MissingArgument) else Ok(Set(s, cmd.tokens[0], cmd.tokens[1], expiry))
  }
}
