/**
  The hook registry of admin_handler.go as functions of the hooks bucket.

  Each function gives what one registry call returns and what the bucket holds
  afterwards; `Admin.AdminHandler` runs the same steps on its own state and is
  proved against these functions. A hook has no data beyond its name, so the
  bucket is the set of registered names.
 */
module Hooks {
  import opened Results
  import opened Bytes
  import opened Names
  import Bolt

  /** A hook name, also the key it is stored under (`[]byte(name)`). */
  type Name = seq<byte>

  /** `Hook{ID: name}`: a hook is its name and nothing else. */
  datatype Hook = Hook(id: Name)

  /** The errors a registry call returns. */
  datatype HookError =
    | NameRequired             // "hook name is required"
    | InvalidCharacters        // "name contains invalid characters"
    | AlreadyExists            // "a hook with that name already exists"
    | DoesNotExist             // "hook does not exist"
    | Store(cause: Bolt.BoltError)  // an error Bucket.Put returned

  /**
    What one `db.Update` leaves behind: the error it returned (`None` when the
    closure returned nil and the transaction committed) and the bucket afterwards.
   */
  datatype Update = Update(err: Option<HookError>, bucket: set<Name>)

  /**
    Every key in the bucket satisfies the hook-name rule and fits bolt's key
    limit. Only createHook adds keys, so this holds of every bucket the
    registry can reach.
   */
  predicate Registered(bucket: set<Name>)
  {
    forall k :: k in bucket ==> ValidName(k) && |k| <= Bolt.MaxKeySize
  }

  // ---------------------------------------------------------------------------
  // createHook
  // ---------------------------------------------------------------------------

  /**
    The two checks before the transaction (lines 101-110): a name that is empty
    or only white space is refused as missing; otherwise anything the pattern
    does not match is refused as invalid. A name passes only when the regexp
    call returns no error and matches, so the check fails closed.
   */
  function CheckName(name: Name): (r: Option<HookError>)
    ensures r.None? <==> ValidName(name)
    ensures r == Some(NameRequired) <==> SpaceRunes(name)
    ensures r == Some(InvalidCharacters) <==> !SpaceRunes(name) && !ValidName(name)
  {
    TrimSpaceBlank(name);
    MatchStringIsValidName(name);
    if TrimSpace(name) == [] then
      assert !ValidName(name) by {
        if ValidName(name) {
          ValidNameIsTrimmed(name);
        }
      }
      Some(NameRequired)
    else if !MatchString(name) then Some(InvalidCharacters)
    else None
  }

  /**
    createHook with the error of `b.Put` returned from the closure, so that a
    key bolt refuses aborts the transaction and is reported. Every call either
    adds exactly `name` and reports success, or reports why and changes nothing.
   */
  function Create(bucket: set<Name>, name: Name): (u: Update)
    ensures u.err.None? <==> ValidName(name) && |name| <= Bolt.MaxKeySize && name !in bucket
    ensures u.err.None? ==> u.bucket == bucket + {name}
    ensures u.err.Some? ==> u.bucket == bucket
    ensures u.err == Some(NameRequired) <==> SpaceRunes(name)
    ensures u.err == Some(InvalidCharacters) <==> !SpaceRunes(name) && !ValidName(name)
    ensures u.err == Some(AlreadyExists) <==> ValidName(name) && name in bucket
    ensures u.err == Some(Store(Bolt.KeyTooLarge)) <==>
              ValidName(name) && name !in bucket && Bolt.MaxKeySize < |name|
    ensures u.err != Some(Store(Bolt.KeyRequired))
  {
    match CheckName(name)
    case Some(e) => Update(Some(e), bucket)
    case None =>
      if name in bucket then Update(Some(AlreadyExists), bucket)
      else
        match Bolt.Put(bucket, name)
        case Failure(e) => Update(Some(Store(e)), bucket)
        case Success(b) => Update(None, b)
  }

  /**
    createHook as written: the error `b.Put` returns is dropped (line 117) and
    the closure returns nil, so the call reports success even when bolt
    refused the key and nothing was stored.
   */
  function CreateAsWritten(bucket: set<Name>, name: Name): (u: Update)
    ensures u.err.None? <==> ValidName(name) && name !in bucket
    ensures u.err.None? && |name| <= Bolt.MaxKeySize ==> u.bucket == bucket + {name}
    ensures u.err.Some? || Bolt.MaxKeySize < |name| ==> u.bucket == bucket
    ensures u.err.Some? ==> u.err == Create(bucket, name).err
  {
    match CheckName(name)
    case Some(e) => Update(Some(e), bucket)
    case None =>
      if name in bucket then Update(Some(AlreadyExists), bucket)
      else
        match Bolt.Put(bucket, name)
        case Failure(_) => Update(None, bucket)
        case Success(b) => Update(None, b)
  }

  /** A name of MaxKeySize + 1 bytes, each the letter 'a'. */
  function OversizedName(): (name: Name)
    ensures ValidName(name) && |name| == Bolt.MaxKeySize + 1
  {
    seq(Bolt.MaxKeySize + 1, _ => 'a' as byte)
  }

  /**
    The discrepancy, concretely: on an empty bucket, createHook as written
    accepts a valid name one byte over bolt's key limit, reports success, and
    the hook it reported created cannot be found.
   */
  lemma OversizedNameReportedButLost()
    ensures CreateAsWritten({}, OversizedName()) == Update(None, {})
    ensures Find(CreateAsWritten({}, OversizedName()).bucket, OversizedName()) == Failure(DoesNotExist)
  {
  }

  /** With the error propagated, a reported success always leaves the hook in the bucket. */
  lemma CreateSuccessIsStored(bucket: set<Name>, name: Name)
    requires Create(bucket, name).err.None?
    ensures Find(Create(bucket, name).bucket, name) == Success(Hook(name))
  {
  }

  /** The two agree on every name within bolt's key limit: the correction changes nothing else. */
  lemma AsWrittenAgreesWithinKeyLimit(bucket: set<Name>, name: Name)
    requires |name| <= Bolt.MaxKeySize
    ensures CreateAsWritten(bucket, name) == Create(bucket, name)
  {
  }

  /**
    A second createHook of the same name fails and changes nothing, whatever
    the first one did; after a successful first call it fails as a duplicate.
    bolt runs read-write transactions one at a time, so of two concurrent
    createHook calls for one name at most one succeeds.
   */
  lemma CreateTwiceFails(bucket: set<Name>, name: Name)
    ensures Create(Create(bucket, name).bucket, name).err.Some?
    ensures Create(Create(bucket, name).bucket, name).bucket == Create(bucket, name).bucket
    ensures Create(bucket, name).err.None? ==>
              Create(Create(bucket, name).bucket, name).err == Some(AlreadyExists)
  {
  }

  /** A valid name within bolt's limit is findable after createHook, whether it was new or already there. */
  lemma CreateThenFind(bucket: set<Name>, name: Name)
    requires ValidName(name) && |name| <= Bolt.MaxKeySize
    ensures Find(Create(bucket, name).bucket, name) == Success(Hook(name))
  {
  }

  // ---------------------------------------------------------------------------
  // findHook
  // ---------------------------------------------------------------------------

  /**
    findHook: `Get` returns nil exactly for an absent key (a stored hook has an
    empty, non-nil value), so the lookup succeeds exactly for a key in the
    bucket and returns the hook named by the argument.
   */
  function Find(bucket: set<Name>, name: Name): (r: Result<Hook, HookError>)
    ensures r.Success? <==> name in bucket
    ensures r.Success? ==> r.value.id == name
    ensures r.Failure? ==> r.error == DoesNotExist
  {
    if name in bucket then Success(Hook(name)) else Failure(DoesNotExist)
  }

  // ---------------------------------------------------------------------------
  // deleteHook
  // ---------------------------------------------------------------------------

  /** deleteHook: always succeeds; afterwards `name` is absent and every other key is kept. */
  function Delete(bucket: set<Name>, name: Name): (u: Update)
    ensures u.err.None?
    ensures name !in u.bucket && u.bucket <= bucket
    ensures forall k :: k in bucket && k != name ==> k in u.bucket
  {
    Update(None, Bolt.Delete(bucket, name))
  }

  /** Deleting twice leaves the same bucket and result as deleting once. */
  lemma DeleteIdempotent(bucket: set<Name>, name: Name)
    ensures Delete(Delete(bucket, name).bucket, name) == Delete(bucket, name)
  {
  }

  /** After deleteHook the name is not found, and every other lookup answers as before. */
  lemma DeleteThenFind(bucket: set<Name>, name: Name, other: Name)
    requires other != name
    ensures Find(Delete(bucket, name).bucket, name) == Failure(DoesNotExist)
    ensures Find(Delete(bucket, name).bucket, other) == Find(bucket, other)
  {
  }

  // ---------------------------------------------------------------------------
  // The registry invariant
  // ---------------------------------------------------------------------------

  /** The bucket starts empty. */
  lemma RegisteredInitially()
    ensures Registered({})
  {
  }

  /** createHook keeps every stored name valid: it adds only names that passed both checks and Put. */
  lemma CreatePreservesRegistered(bucket: set<Name>, name: Name)
    requires Registered(bucket)
    ensures Registered(Create(bucket, name).bucket)
  {
  }

  /** deleteHook only removes keys, so every remaining name stays valid. */
  lemma DeletePreservesRegistered(bucket: set<Name>, name: Name)
    requires Registered(bucket)
    ensures Registered(Delete(bucket, name).bucket)
  {
  }

  // ---------------------------------------------------------------------------
  // listHooks
  // ---------------------------------------------------------------------------

  /** The IDs of a list of hooks, in order. */
  function Ids(hooks: seq<Hook>): (ids: seq<Name>)
    ensures |ids| == |hooks|
    ensures forall i :: 0 <= i < |hooks| ==> ids[i] == hooks[i].id
  {
    seq(|hooks|, i requires 0 <= i < |hooks| => hooks[i].id)
  }

  /** `hooks` holds one hook per key of `bucket`, in ascending byte order. */
  predicate IsListing(hooks: seq<Hook>, bucket: set<Name>)
  {
    StrictlySorted(Ids(hooks)) && Elements(Ids(hooks)) == bucket
  }

  /** A bucket has exactly one listing: listHooks' result is fixed by the bucket alone. */
  lemma {:induction false} ListingUnique(a: seq<Hook>, b: seq<Hook>, bucket: set<Name>)
    requires IsListing(a, bucket) && IsListing(b, bucket)
    ensures a == b
  {
    SortedUnique(Ids(a), Ids(b));
    assert forall i :: 0 <= i < |a| ==> a[i] == Hook(Ids(a)[i]) == b[i];
  }

  /** Over a registered bucket every listed ID satisfies the hook-name rule. */
  lemma ListingIdsValid(hooks: seq<Hook>, bucket: set<Name>, i: nat)
    requires IsListing(hooks, bucket) && Registered(bucket) && i < |hooks|
    ensures ValidName(hooks[i].id)
  {
    assert Ids(hooks)[i] in Elements(Ids(hooks));
  }

  // ---------------------------------------------------------------------------
  // Scenarios
  // ---------------------------------------------------------------------------

  /** Creating a new valid name within bolt's limit adds exactly that name. */
  lemma CreateNew(bucket: set<Name>, name: Name)
    requires ValidName(name) && |name| <= Bolt.MaxKeySize && name !in bucket
    ensures Create(bucket, name) == Update(None, bucket + {name})
  {
  }

  /** Creating three different new names on an empty bucket stores exactly those three. */
  lemma CreateThree(a: Name, b: Name, c: Name)
    requires ValidName(a) && ValidName(b) && ValidName(c)
    requires |a| <= Bolt.MaxKeySize && |b| <= Bolt.MaxKeySize && |c| <= Bolt.MaxKeySize
    requires a != b && b != c && a != c
    ensures Create(Create(Create({}, b).bucket, a).bucket, c).bucket == {a, b, c}
  {
    CreateNew({}, b);
    var b1 := Create({}, b).bucket;
    assert b1 == {b};
    CreateNew(b1, a);
    var b2 := Create(b1, a).bucket;
    assert b2 == {a, b};
    CreateNew(b2, c);
  }

  /** Three hooks in ascending order of name are a listing of those three names. */
  lemma ListingOfThree(a: Name, b: Name, c: Name)
    requires Less(a, b) && Less(b, c)
    ensures IsListing([Hook(a), Hook(b), Hook(c)], {a, b, c})
  {
    LessTransitive(a, b, c);
    var ids := Ids([Hook(a), Hook(b), Hook(c)]);
    assert ids == [a, b, c];
    assert Elements(ids) == {a, b, c};
  }

  /**
    Creating three valid names on an empty bucket, the middle one first, leaves
    a bucket whose listing is the three in ascending order (and, by
    `ListingUnique`, no other): the listing follows the byte order of the
    names, not the order they were created in.
   */
  lemma ListAfterCreatingThree(a: Name, b: Name, c: Name)
    requires ValidName(a) && ValidName(b) && ValidName(c)
    requires |a| <= Bolt.MaxKeySize && |b| <= Bolt.MaxKeySize && |c| <= Bolt.MaxKeySize
    requires Less(a, b) && Less(b, c)
    ensures IsListing([Hook(a), Hook(b), Hook(c)], Create(Create(Create({}, b).bucket, a).bucket, c).bucket)
  {
    LessTransitive(a, b, c);
    LessIrreflexive(a);
    LessIrreflexive(b);
    CreateThree(a, b, c);
    ListingOfThree(a, b, c);
  }

  /** " \t ": a space, a tab and a space. */
  const Blank: Name := [0x20, 0x09, 0x20]
  /** "Stripe Events": a capital letter and a space. */
  const Capitalised: Name := [0x53, 0x74, 0x72, 0x69, 0x70, 0x65, 0x20, 0x45, 0x76, 0x65, 0x6e, 0x74, 0x73]

  /** A blank name and one with capitals and a space are refused, and the bucket is left as it was. */
  lemma CreateRejects(bucket: set<Name>)
    ensures Create(bucket, Blank) == Update(Some(NameRequired), bucket)
    ensures Create(bucket, Capitalised) == Update(Some(InvalidCharacters), bucket)
  {
    assert SpaceBetween(Blank, 2, 3) by {
      assert RuneAt(Blank, 2, 3) == 1 && SpaceBetween(Blank, 3, 3);
    }
    assert SpaceBetween(Blank, 1, 3) by {
      assert RuneAt(Blank, 1, 3) == 1;
    }
    assert SpaceRunes(Blank) by {
      assert RuneAt(Blank, 0, 3) == 1;
    }
    assert !IsNameByte(Capitalised[0]);
    assert LeadingSpace(Capitalised) == 0;
  }
}
