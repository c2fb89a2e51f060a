/**
 * The redis client shared by the server: a map from keys to values with a
 * time to live.  Expiry is not simulated; a TTL is a number attached to the
 * key.  Whether a command reaches the server is an input of the model: the
 * client holds the schedule of outcomes of the commands still to come, and
 * a command that does not reach the server throws.
 */
module KeyValue {
  import opened Wrappers

  /** A stored string and the TTL, in seconds, it was written with (SETEX). */
  datatype Entry = Entry(value: string, ttlSeconds: nat)

  type Store = map<string, Entry>

  /** The error every command raises when the server cannot be reached. */
  datatype StoreError = Unreachable

  /** GET on a store value: the string under `key`, or `None` (redis `nil`). */
  function Lookup(s: Store, key: string): (r: Option<string>)
    ensures r.Some? <==> key in s
    ensures r.Some? ==> r.value == s[key].value
  {
    if key in s then Some(s[key].value) else None
  }

  /** Whether the next command reaches the server; once the schedule has run out, every command does. */
  predicate Reaches(schedule: seq<bool>)
  {
    schedule == [] || schedule[0]
  }

  /** The schedule once the next command has been sent. */
  function After(schedule: seq<bool>): (r: seq<bool>)
    ensures |r| == if schedule == [] then 0 else |schedule| - 1
  {
    if schedule == [] then [] else schedule[1..]
  }

  class RedisClient {
    var entries: Store
    /** For each command still to come, in order, whether it reaches the server. */
    var schedule: seq<bool>

    constructor (entries: Store, schedule: seq<bool>)
      ensures this.entries == entries && this.schedule == schedule
    {
      this.entries := entries;
      this.schedule := schedule;
    }

    /** GET key. */
    method Get(key: string) returns (r: Result<Option<string>, StoreError>)
      modifies this`schedule
      ensures r.Err? <==> !Reaches(old(schedule))
      ensures r.Ok? ==> r.value == Lookup(entries, key)
      ensures schedule == After(old(schedule))
    {
      var up := Reaches(schedule);
      schedule := After(schedule);
      if !up {
        return Err(Unreachable);
      }
      r := Ok(Lookup(entries, key));
    }

    /** SETEX key ttl value: overwrites whatever `key` held. */
    method SetEx(key: string, ttlSeconds: nat, value: string) returns (ok: bool)
      modifies this`entries, this`schedule
      ensures ok == Reaches(old(schedule))
      ensures entries == if ok then old(entries)[key := Entry(value, ttlSeconds)] else old(entries)
      ensures schedule == After(old(schedule))
    {
      ok := Reaches(schedule);
      schedule := After(schedule);
      if ok {
        entries := entries[key := Entry(value, ttlSeconds)];
      }
    }

    /** DEL key. */
    method Del(key: string) returns (ok: bool)
      modifies this`entries, this`schedule
      ensures ok == Reaches(old(schedule))
      ensures entries == if ok then old(entries) - {key} else old(entries)
      ensures schedule == After(old(schedule))
    {
      ok := Reaches(schedule);
      schedule := After(schedule);
      if ok {
        entries := entries - {key};
      }
    }
  }
}
