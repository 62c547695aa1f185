/** Private object storage: files under keys, with the time of their last write. */
module ObjectStore {
  import opened Wrappers
  import opened Csv

  datatype StoredObject = StoredObject(bytes: seq<Byte>, modifiedAt: int)
  datatype ObjectRef = ObjectRef(key: string, modifiedAt: int)
  datatype StorageError = NotFound

  type Objects = map<string, StoredObject>

  predicate HasPrefix(key: string, prefix: string) { prefix + "/" <= key }

  /** Appends to an object that is being written. */
  function Appended(objects: Objects, key: string, chunk: seq<Byte>, now: int): Objects
    requires key in objects
  {
    objects[key := StoredObject(objects[key].bytes + chunk, now)]
  }

  ghost predicate NewestFirst(refs: seq<ObjectRef>) {
    forall i, j :: 0 <= i < j < |refs| ==> refs[i].modifiedAt >= refs[j].modifiedAt
  }

  /** The references of the stored objects under a prefix. */
  ghost predicate ListsExactly(refs: seq<ObjectRef>, objects: Objects, prefix: string) {
    && (forall r :: r in refs ==> r.key in objects && HasPrefix(r.key, prefix) && r.modifiedAt == objects[r.key].modifiedAt)
    && (forall k :: k in objects && HasPrefix(k, prefix) ==> ObjectRef(k, objects[k].modifiedAt) in refs)
  }

  /** No key is listed twice. */
  ghost predicate DistinctRefs(refs: seq<ObjectRef>) {
    forall i, j :: 0 <= i < j < |refs| ==> refs[i].key != refs[j].key
  }

  function KeysUnder(objects: Objects, prefix: string): set<string> {
    set k | k in objects && HasPrefix(k, prefix)
  }

  function InsertRef(r: ObjectRef, refs: seq<ObjectRef>): (result: seq<ObjectRef>)
    ensures |result| == |refs| + 1 && forall x :: x in result <==> x == r || x in refs
  {
    if refs == [] || r.modifiedAt >= refs[0].modifiedAt then [r] + refs
    else
      var rest := InsertRef(r, refs[1..]);
      assert refs == [refs[0]] + refs[1..];
      [refs[0]] + rest
  }

  lemma {:induction false} InsertRefKeepsOrder(r: ObjectRef, refs: seq<ObjectRef>)
    requires NewestFirst(refs)
    ensures NewestFirst(InsertRef(r, refs))
  {
    if refs != [] && r.modifiedAt < refs[0].modifiedAt {
      InsertRefKeepsOrder(r, refs[1..]);
      var rest := InsertRef(r, refs[1..]);
      forall i | 0 <= i < |rest| ensures refs[0].modifiedAt >= rest[i].modifiedAt {
        assert rest[i] in rest;
      }
    }
  }

  lemma {:induction false} InsertRefKeepsDistinct(r: ObjectRef, refs: seq<ObjectRef>)
    requires DistinctRefs(refs) && forall x :: x in refs ==> x.key != r.key
    ensures DistinctRefs(InsertRef(r, refs))
  {
    if refs != [] && r.modifiedAt < refs[0].modifiedAt {
      InsertRefKeepsDistinct(r, refs[1..]);
      var rest := InsertRef(r, refs[1..]);
      forall i | 0 <= i < |rest| ensures refs[0].key != rest[i].key {
        assert rest[i] in rest;
      }
    }
  }

  lemma {:induction false} DistinctRefsCount(refs: seq<ObjectRef>)
    requires DistinctRefs(refs)
    ensures |set r | r in refs :: r.key| == |refs|
  {
    var keys := set r | r in refs :: r.key;
    if refs == [] {
      assert keys == {};
    } else {
      var before := refs[..|refs| - 1];
      DistinctRefsCount(before);
      var last := refs[|refs| - 1];
      assert refs == before + [last];
      assert keys == (set r | r in before :: r.key) + {last.key};
    }
  }

  class PrivateStorage {
    var objects: Objects

    constructor ()
      ensures objects == map[]
    {
      objects := map[];
    }

    /** Writes a whole object, replacing whatever the key held. */
    method Put(key: string, content: seq<Byte>, now: int)
      modifies this
      ensures objects == old(objects)[key := StoredObject(content, now)]
    {
      objects := objects[key := StoredObject(content, now)];
    }

    /** Opens a key for writing: the object is empty until chunks are written. */
    method Open(key: string, now: int)
      modifies this
      ensures objects == old(objects)[key := StoredObject([], now)]
    {
      objects := objects[key := StoredObject([], now)];
    }

    method WriteChunk(key: string, chunk: seq<Byte>, now: int)
      requires key in objects
      modifies this
      ensures objects == Appended(old(objects), key, chunk, now)
    {
      objects := Appended(objects, key, chunk, now);
    }

    /** Streams chunks to an object, skipping empty ones, and counts the bytes. */
    method PutChunks(key: string, chunks: seq<seq<Byte>>, now: int) returns (size: nat)
      modifies this
      ensures objects == old(objects)[key := StoredObject(Flatten(chunks), now)]
      ensures size == |Flatten(chunks)|
    {
      hide Flatten;
      Open(key, now);
      size := 0;
      NoChunks();
      for i := 0 to |chunks|
        invariant objects == old(objects)[key := StoredObject(Flatten(chunks[..i]), now)]
        invariant size == |Flatten(chunks[..i])|
      {
        assert chunks[..i + 1] == chunks[..i] + [chunks[i]];
        FlattenSnoc(chunks[..i], chunks[i]);
        if |chunks[i]| == 0 {
          assert Flatten(chunks[..i]) + chunks[i] == Flatten(chunks[..i]);
          continue;
        }
        WriteChunk(key, chunks[i], now);
        size := size + |chunks[i]|;
      }
      assert chunks[..|chunks|] == chunks;
    }

    method Get(key: string) returns (result: Result<seq<Byte>, StorageError>)
      ensures result == if key in objects then Ok(objects[key].bytes) else Err(NotFound)
    {
      result := if key in objects then Ok(objects[key].bytes) else Err(NotFound);
    }

    method Delete(key: string) returns (result: Result<(), StorageError>)
      modifies this
      ensures objects == old(objects) - {key}
      ensures result.Ok? <==> key in old(objects)
    {
      result := if key in objects then Ok(()) else Err(NotFound);
      objects := objects - {key};
    }

    /** The objects under a prefix, newest first. */
    method List(prefix: string) returns (refs: seq<ObjectRef>)
      ensures ListsExactly(refs, objects, prefix) && NewestFirst(refs) && DistinctRefs(refs)
    {
      refs := [];
      var pending := objects.Keys;
      while pending != {}
        invariant pending <= objects.Keys
        invariant NewestFirst(refs) && DistinctRefs(refs)
        invariant forall r :: r in refs ==>
          r.key !in pending && r.key in objects && HasPrefix(r.key, prefix) && r.modifiedAt == objects[r.key].modifiedAt
        invariant forall k :: k in objects && k !in pending && HasPrefix(k, prefix) ==>
          ObjectRef(k, objects[k].modifiedAt) in refs
        decreases pending
      {
        var k :| k in pending;
        pending := pending - {k};
        if HasPrefix(k, prefix) {
          var r := ObjectRef(k, objects[k].modifiedAt);
          InsertRefKeepsOrder(r, refs);
          InsertRefKeepsDistinct(r, refs);
          refs := InsertRef(r, refs);
        }
      }
    }
  }
}
