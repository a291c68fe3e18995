/**
 The two compare-and-swap registers that everything else is built on: the object store, in
 its in-memory form, and the durable watermark file.
 */
module Registers {
  import opened Basics
  import opened ConsumerProtocol

  type Data = seq<bv8>

  const MAX_OBJECT_BYTES: nat := 64 * 1024 * 1024 + 52

  /** A stored object. Its ETag is a digest of its bytes, its number that of the write. */
  datatype Record = Record(data: Data, etag: string, number: nat)

  function Versions(history: map<string, seq<Record>>, key: string): seq<Record> {
    if key in history then history[key] else []
  }

  function Lookup(objects: map<string, Record>, key: string): Option<Record> {
    if key in objects then Some(objects[key]) else None
  }

  /** The digest tells contents apart, and no digest is the empty string. */
  ghost predicate Injective(digest: Data -> string) {
    && (forall a, b :: digest(a) == digest(b) ==> a == b)
    && (forall a :: digest(a) != "")
  }

  /** Every record of a key carries the digest of its bytes, and numbers go up. */
  ghost predicate Genuine(digest: Data -> string, records: seq<Record>, serial: nat) {
    && (forall i | 0 <= i < |records| :: records[i].etag == digest(records[i].data) && records[i].number <= serial)
    && (forall i, j | 0 <= i < j < |records| :: records[i].number < records[j].number)
  }

  /** A key's current value, when it has one, is the last that was written. */
  ghost predicate Tracked(digest: Data -> string, current: Option<Record>, records: seq<Record>, serial: nat) {
    && Genuine(digest, records, serial)
    && (current.Some? ==> records != [] && current.value == records[|records| - 1])
  }

  lemma TrackedWrite(digest: Data -> string, records: seq<Record>, serial: nat, data: Data)
    requires Genuine(digest, records, serial)
    ensures var record := Record(data, digest(data), serial + 1);
            Tracked(digest, Some(record), records + [record], serial + 1)
  {
  }

  /** A key's condition: absent, or present with this ETag. */
  predicate Holds(current: Option<Record>, expected: Option<string>) {
    if expected.None? then current.None? else current.Some? && current.value.etag == expected.value
  }

  /** Numbers tell the writes of a key apart, ETags exactly its contents. */
  lemma RecordsAreTold(digest: Data -> string, records: seq<Record>, serial: nat, i: nat, j: nat)
    requires Injective(digest) && Genuine(digest, records, serial) && i < |records| && j < |records|
    ensures records[i].number == records[j].number <==> i == j
    ensures records[i].etag == records[j].etag <==> records[i].data == records[j].data
  {
    assert i < j ==> records[i].number < records[j].number;
    assert j < i ==> records[j].number < records[i].number;
  }

  class MemoryStore {
    const digest: Data -> string
    var objects: map<string, Record>
    var serial: nat
    /** Every value each key was ever given, oldest first. */
    ghost var history: map<string, seq<Record>>

    ghost predicate Valid()
      reads this
    {
      Injective(digest) && forall key :: Tracked(digest, Lookup(objects, key), Versions(history, key), serial)
    }

    constructor (digest: Data -> string)
      requires Injective(digest)
      ensures Valid() && this.digest == digest
      ensures forall key :: Lookup(objects, key) == None && Versions(history, key) == []
    {
      this.digest := digest;
      objects, serial, history := map[], 0, map[];
    }

    /** A conditional, size-limited read of the current value. */
    method Get(key: string, ifNoneMatch: string, maxBytes: int) returns (r: Result<Record>)
      requires Valid()
      ensures match Lookup(objects, key)
              case None => r == Err(NotFound)
              case Some(record) =>
                && (r == Err(NotModified) <==> ifNoneMatch == digest(record.data))
                && (r.Ok? <==> ifNoneMatch != digest(record.data) && 0 <= maxBytes
                               && (maxBytes == 0 || |record.data| <= maxBytes))
                && (r.Ok? ==> r.value == record)
                && (r.Err? ==> r.error in {NotModified, ResourceLimit})
    {
      assert Tracked(digest, Lookup(objects, key), Versions(history, key), serial);
      if key !in objects {
        return Err(NotFound);
      }
      var record := objects[key];
      if ifNoneMatch != "" && ifNoneMatch == record.etag {
        return Err(NotModified);
      }
      if maxBytes < 0 {
        return Err(ResourceLimit);
      }
      if maxBytes > 0 && |record.data| > maxBytes {
        return Err(ResourceLimit);
      }
      return Ok(record);
    }

    method Put(key: string, data: Data) returns (record: Record)
      requires Valid()
      modifies this
      ensures Valid() && record == Record(data, digest(data), old(serial) + 1)
      ensures Lookup(objects, key) == Some(record)
      ensures Versions(history, key) == Versions(old(history), key) + [record]
      ensures forall other | other != key ::
                Lookup(objects, other) == Lookup(old(objects), other)
                && Versions(history, other) == Versions(old(history), other)
    {
      assert Tracked(digest, Lookup(objects, key), Versions(history, key), serial);
      TrackedWrite(digest, Versions(history, key), serial, data);
      serial := serial + 1;
      record := Record(data, digest(data), serial);
      ghost var before, was := objects, history;
      objects := objects[key := record];
      history := history[key := Versions(history, key) + [record]];
      forall other ensures Tracked(digest, Lookup(objects, other), Versions(history, other), serial) {
        if other != key {
          assert Tracked(digest, Lookup(before, other), Versions(was, other), serial - 1);
          assert Lookup(objects, other) == Lookup(before, other) && Versions(history, other) == Versions(was, other);
        }
      }
    }

    /**
     Replaces exactly the expected value. Because ETags are digests, a success replaced the
     very bytes of every version the caller could have seen under that ETag, even when the
     key had other values in between; a failure changes nothing.
     */
    method CompareAndSwap(key: string, expected: Option<string>, data: Data) returns (r: Result<Record>)
      requires Valid()
      modifies this
      ensures Valid()
      ensures r.Ok? <==> |data| <= MAX_OBJECT_BYTES && expected != Some("")
                         && Holds(Lookup(old(objects), key), expected)
      ensures r.Err? ==> objects == old(objects) && history == old(history) && serial == old(serial)
      ensures r.Ok? ==> Wrote(old(objects), old(history), key, data, r.value)
      ensures r.Ok? && expected.Some? ==>
                forall i | 0 <= i < |Versions(old(history), key)|
                           && Versions(old(history), key)[i].etag == expected.value ::
                  Versions(old(history), key)[i].data == old(objects)[key].data
    {
      if |data| > MAX_OBJECT_BYTES {
        return Err(ResourceLimit);
      }
      if expected.None? {
        if key in objects {
          return Err(Error.Precondition);
        }
      } else {
        if expected.value == "" {
          return Err(Incompatible);
        }
        if key !in objects || objects[key].etag != expected.value {
          return Err(Error.Precondition);
        }
      }
      assert Tracked(digest, Lookup(objects, key), Versions(history, key), serial);
      var record := Put(key, data);
      return Ok(record);
    }

    /** Writes once: while the key stays, its first value is its only value. */
    method PutIfAbsent(key: string, data: Data) returns (r: Result<Record>)
      requires Valid()
      modifies this
      ensures Valid()
      ensures r.Ok? <==> |data| <= MAX_OBJECT_BYTES && key !in old(objects)
      ensures r.Err? ==> objects == old(objects) && history == old(history) && serial == old(serial)
      ensures r.Ok? ==> Wrote(old(objects), old(history), key, data, r.value)
    {
      if |data| > MAX_OBJECT_BYTES {
        return Err(ResourceLimit);
      }
      if key in objects {
        return Err(Error.Precondition);
      }
      var record := Put(key, data);
      return Ok(record);
    }

    method Delete(key: string)
      requires Valid()
      modifies this
      ensures Valid() && objects == old(objects) - {key} && history == old(history) && serial == old(serial)
    {
      ghost var before := objects;
      objects := objects - {key};
      forall other ensures Tracked(digest, Lookup(objects, other), Versions(history, other), serial) {
        assert Tracked(digest, Lookup(before, other), Versions(history, other), serial);
      }
    }

    /** One more version of this key with these bytes; every other key as before. */
    ghost predicate Wrote(before: map<string, Record>, was: map<string, seq<Record>>, key: string, data: Data,
                          record: Record)
      reads this
    {
      && record.data == data && Lookup(objects, key) == Some(record)
      && Versions(history, key) == Versions(was, key) + [record]
      && forall other | other != key ::
           Lookup(objects, other) == Lookup(before, other) && Versions(history, other) == Versions(was, other)
    }
  }

  // ------------------------------------------------------------ the watermark file

  /** Why the watermark file refuses a replacement. */
  function ReplaceError(current: Option<Watermark>, expected: Option<Watermark>, next: Watermark): Option<Error> {
    if next.generation == 0 || next.commit.IsZero() then Some(CorruptObject)
    else if current != expected then Some(Error.Precondition)
    else if current.None? then None
    else if next.repository != current.value.repository then Some(Untrusted)
    else if next.generation < current.value.generation then Some(Rollback)
    else if next.generation == current.value.generation && next.commit != current.value.commit then Some(SplitBrain)
    else None
  }

  /** The file accepts exactly the replacements of the register rule over the expected value. */
  lemma ReplaceExact(current: Option<Watermark>, expected: Option<Watermark>, next: Watermark)
    ensures ReplaceError(current, expected, next).None? <==> current == expected && RegisterAccepts(current, next)
  {
  }

  /** One repository, generations that never go down, one commit per generation. */
  ghost predicate Monotone(values: seq<Watermark>) {
    forall i, j | 0 <= i <= j < |values| ::
      && values[i].repository == values[j].repository && values[i].generation <= values[j].generation
      && (values[i].generation == values[j].generation ==> values[i].commit == values[j].commit)
  }

  class WatermarkFile {
    var value: Option<Watermark>
    /** Every value the file ever had, oldest first. */
    ghost var values: seq<Watermark>

    ghost predicate Valid()
      reads this
    {
      value == ConsumerProtocol.Current(values) && Monotone(values)
    }

    constructor ()
      ensures Valid() && value.None?
    {
      value, values := None, [];
    }

    /**
     Whoever calls it with whatever arguments, the file never goes back and never forks. An
     equal replacement is a success that only repeats the durability barrier.
     */
    method CompareAndSwap(expected: Option<Watermark>, next: Watermark) returns (r: Result<()>)
      requires Valid()
      modifies this
      ensures Valid() && old(values) <= values
      ensures r == match ReplaceError(old(value), expected, next) case None => Ok(()) case Some(error) => Err(error)
      ensures r.Ok? ==> value == Some(next)
      ensures r.Err? || old(value) == Some(next) ==> value == old(value) && values == old(values)
    {
      if next.generation == 0 || next.commit.IsZero() {
        return Err(CorruptObject);
      }
      if expected.None? {
        if value.Some? {
          return Err(Error.Precondition);
        }
      } else if value.None? || value.value != expected.value {
        return Err(Error.Precondition);
      }
      if value.Some? {
        var current := value.value;
        if next.repository != current.repository {
          return Err(Untrusted);
        } else if next.generation < current.generation {
          return Err(Rollback);
        } else if next.generation == current.generation && next.commit != current.commit {
          return Err(SplitBrain);
        } else if next == current {
          return Ok(());
        }
      }
      value, values := Some(next), values + [next];
      return Ok(());
    }
  }
}
