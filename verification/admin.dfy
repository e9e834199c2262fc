/**
  `AdminHandler` of admin_handler.go: the registry's four operations on the
  hooks bucket of its bolt database. The bucket is a field; each `db.Update`
  is one method that either commits all it did or leaves the field as it was,
  and each `db.View` is a method that changes nothing.
 */
module Admin {
  import opened Results
  import opened Bytes
  import opened Names
  import opened Hooks
  import Bolt

  class AdminHandler {
    /** The keys of the `BucketHooks` bucket of `db`; every value stored under them is empty. */
    var bucket: set<Name>

    /** Every stored name satisfies the hook-name rule. */
    ghost predicate Valid()
      reads this
    {
      Registered(bucket)
    }

    /** A handler over an empty hooks bucket. */
    constructor ()
      ensures Valid() && bucket == {}
    {
      bucket := {};
    }

    /**
      createHook, corrected: the two name checks, then one read-write
      transaction that looks the name up and stores it only if it is absent.
      Here Put's error is returned and aborts the transaction; the code as
      written drops it (see `Hooks.CreateAsWritten`).
     */
    method CreateHook(name: Name) returns (err: Option<HookError>)
      requires Valid()
      modifies this
      ensures Valid()
      ensures Update(err, bucket) == Create(old(bucket), name)
    {
      err := CheckName(name);
      if err.Some? {
        return;
      }
      // the closure works on the transaction's view of the bucket
      var tx := bucket;
      if name in tx {
        err := Some(AlreadyExists);
      } else {
        var put := Bolt.Put(tx, name);
        match put
        case Failure(e) =>
          err := Some(Store(e));
        case Success(b) =>
          tx := b;
      }
      // a nil return commits; any error rolls back
      if err.None? {
        bucket := tx;
      }
      CreatePreservesRegistered(old(bucket), name);
    }

    /** findHook: one read-only transaction and a `Get`. */
    method FindHook(name: Name) returns (r: Result<Hook, HookError>)
      ensures r == Find(bucket, name)
    {
      if name !in bucket {
        return Failure(DoesNotExist);
      }
      r := Success(Hook(name));
    }

    /** deleteHook: one read-write transaction whose `Delete` never fails. */
    method DeleteHook(name: Name) returns (err: Option<HookError>)
      requires Valid()
      modifies this
      ensures Valid()
      ensures Update(err, bucket) == Delete(old(bucket), name)
    {
      var tx := Bolt.Delete(bucket, name);
      err := None;
      bucket := tx;
    }

    /**
      listHooks: a cursor over the bucket in one read-only transaction, one
      `Hook` appended per key. The cursor visits keys in ascending byte order,
      each once, so the result lists every key exactly once, sorted.
     */
    method ListHooks() returns (hooks: seq<Hook>)
      ensures IsListing(hooks, bucket)
      ensures |hooks| == |bucket|
      ensures Valid() ==> forall i :: 0 <= i < |hooks| ==> ValidName(hooks[i].id)
    {
      hooks := [];
      var unvisited := bucket;
      Bolt.CursorStart(bucket);
      while unvisited != {}
        invariant Bolt.CursorState(Ids(hooks), unvisited, bucket)
        decreases unvisited
      {
        // c.First() / c.Next(): the least key not yet visited
        LeastExists(unvisited);
        var k :| IsLeast(k, unvisited);
        Bolt.CursorStep(Ids(hooks), unvisited, bucket, k);
        assert Ids(hooks + [Hook(k)]) == Ids(hooks) + [k];
        hooks := hooks + [Hook(k)];
        unvisited := unvisited - {k};
      }
      Bolt.CursorDone(Ids(hooks), bucket);
      assert forall i :: 0 <= i < |hooks| ==> hooks[i].id == Ids(hooks)[i] && Ids(hooks)[i] in Elements(Ids(hooks));
    }
  }

  /**
    Creating "stripe-events" succeeds and finding it returns the hook of that
    name; a second create fails as a duplicate; after deleting it, twice, it
    is not found.
   */
  method CreateFindDelete() returns (created: Option<HookError>, again: Option<HookError>,
                                     found: Result<Hook, HookError>, gone: Result<Hook, HookError>)
    ensures created == None && again == Some(AlreadyExists)
    ensures found == Success(Hook(FromAscii("stripe-events")))
    ensures gone == Failure(DoesNotExist)
  {
    var name := FromAscii("stripe-events");
    assert ValidName(name);
    var h := new AdminHandler();
    created := h.CreateHook(name);
    again := h.CreateHook(name);
    found := h.FindHook(name);
    var e := h.DeleteHook(name);
    e := h.DeleteHook(name);
    gone := h.FindHook(name);
  }
}
