/**
  The part of a bolt bucket the registry relies on, as an abstract value: the
  set of its keys (every value the registry stores is empty). A read-write
  transaction works on its own copy and replaces the bucket only when its
  closure returns no error; a read-only transaction changes nothing.
 */
module Bolt {
  import opened Results
  import opened Bytes

  /** `bolt.MaxKeySize`: the longest key a bucket accepts, in bytes. */
  const MaxKeySize: nat := 32768

  /** The errors `Bucket.Put` can return inside a read-write transaction. */
  datatype BoltError = KeyRequired | KeyTooLarge

  /**
    `Bucket.Put(key, nil)` in a read-write transaction: refuses an empty key
    (`ErrKeyRequired`) and one longer than `MaxKeySize` (`ErrKeyTooLarge`);
    otherwise the key is present afterwards and nothing else changed.
   */
  function Put(bucket: set<seq<byte>>, key: seq<byte>): (r: Result<set<seq<byte>>, BoltError>)
    ensures r.Success? <==> 0 < |key| <= MaxKeySize
    ensures r.Success? ==> key in r.value && forall k :: k in r.value && k != key ==> k in bucket
    ensures r.Success? ==> bucket <= r.value
    ensures r.Failure? ==> r.error == (if key == [] then KeyRequired else KeyTooLarge)
  {
    if |key| == 0 then Failure(KeyRequired)
    else if |key| > MaxKeySize then Failure(KeyTooLarge)
    else Success(bucket + {key})
  }

  /**
    `Bucket.Delete(key)` in a read-write transaction: the key is absent
    afterwards and every other key is kept. Deleting a key that is not there
    is not an error, so it never fails here.
   */
  function Delete(bucket: set<seq<byte>>, key: seq<byte>): (r: set<seq<byte>>)
    ensures key !in r && r <= bucket
    ensures forall k :: k in bucket && k != key ==> k in r
  {
    bucket - {key}
  }

  /**
    Where a cursor walk over `bucket` stands: `visited` holds the keys returned
    so far, in the order returned, and `unvisited` the rest. The keys returned
    are ascending, distinct, and all below every key still to come.
   */
  predicate CursorState(visited: seq<seq<byte>>, unvisited: set<seq<byte>>, bucket: set<seq<byte>>)
  {
    && unvisited <= bucket
    && StrictlySorted(visited)
    && Elements(visited) == bucket - unvisited
    && (forall i, k :: 0 <= i < |visited| && k in unvisited ==> Less(visited[i], k))
    && |visited| + |unvisited| == |bucket|
  }

  /** `c.First()` on a fresh walk: nothing returned yet. */
  lemma CursorStart(bucket: set<seq<byte>>)
    ensures CursorState([], bucket, bucket)
  {
  }

  /** `c.Next()`: returning the least key not yet returned keeps the walk ordered. */
  lemma CursorStep(visited: seq<seq<byte>>, unvisited: set<seq<byte>>, bucket: set<seq<byte>>, k: seq<byte>)
    requires CursorState(visited, unvisited, bucket) && IsLeast(k, unvisited)
    ensures CursorState(visited + [k], unvisited - {k}, bucket)
  {
    ElementsAppend(visited, k);
    var v := visited + [k];
    forall i, j | 0 <= i < j < |v|
      ensures Less(v[i], v[j])
    {
      if j < |visited| {
        assert v[i] == visited[i] && v[j] == visited[j];
      } else {
        assert v[i] == visited[i] && v[j] == k;
      }
    }
  }

  /** When the cursor returns nil every key has been returned once, in ascending order. */
  lemma CursorDone(visited: seq<seq<byte>>, bucket: set<seq<byte>>)
    requires CursorState(visited, {}, bucket)
    ensures StrictlySorted(visited) && Elements(visited) == bucket && |visited| == |bucket|
  {
  }
}
