# Hook registry of rehook's admin handler

rehook keeps a registry of named hooks in one bolt bucket (`BucketHooks`). Each
hook name is a key, and every value is empty. `AdminHandler` has four operations
on that bucket:

- `createHook` checks the name and then, in one read-write transaction, stores
  it unless it is already there;
- `findHook` looks a name up in a read-only transaction;
- `deleteHook` removes a name in a read-write transaction and succeeds whether
  or not the name was there;
- `listHooks` walks the bucket with a cursor and returns one `Hook{ID}` per key,
  in bolt's key order.

The model has six modules:

- `Bytes`: Go strings as byte sequences. `Less` is `bytes.Compare(a, b) < 0`.
  The module proves that this is a strict total order, that every non-empty key
  set has a least key, and that a set of keys has exactly one strictly ascending
  enumeration.
- `Names`: the two name checks, written over bytes. `TrimSpace` is
  `strings.TrimSpace`, which strips UTF-8 encoded `unicode.IsSpace` runes from
  both ends. `MatchString` is the anchored pattern `^[a-z0-9-]+$`. `ValidName`
  is the declarative hook-name rule.
- `Bolt`: the bucket as a set of keys, with `Put`, `Delete` and the cursor walk.
  It includes bolt's key-length errors.
- `Hooks`: each registry call as a function from the bucket to the error it
  returns and the bucket it leaves behind. It also holds the registry invariant
  and the lemmas that relate the calls to one another.
- `Admin`: the class `AdminHandler`, whose `bucket` field the read-write methods
  reassign. Each method is proved against the matching `Hooks` function.
  `ListHooks` is the cursor loop.
- `Results`: `Option` and `Result`.

Two places where the model and the code's error handling need a word:

- The code returns two different errors for a bad name: "hook name is
  required" (`NameRequired`) and "name contains invalid characters"
  (`InvalidCharacters`). The model keeps them apart instead of merging them
  into one invalid-name error.
- The code drops the error returned by `b.Put`, so store failures inside
  `createHook` are not surfaced. `Hooks.CreateAsWritten` models this behaviour
  as written. The corrected `Hooks.Create` returns that error, and the class
  uses the corrected version (see Findings). `Admin.AdminHandler.CreateHook`
  therefore differs from the code on a valid, absent name over 32768 bytes.

## Model

| member | source | states |
|---|---|---|
| Bytes.Less | admin_handler.go:80 | The order bolt's cursor visits keys in, `bytes.Compare(a, b) < 0`: the first differing byte decides, and a proper prefix comes first. |
| Bytes.LessIrreflexive | admin_handler.go:80 | No key sorts before itself in the cursor order. |
| Bytes.LessAsymmetric | admin_handler.go:80 | The cursor order never puts a before b and also b before a. |
| Bytes.LessTransitive | admin_handler.go:80 | The cursor order is transitive. |
| Bytes.LessTotal | admin_handler.go:80 | Any two different keys are ordered one way or the other, so the cursor order is total. |
| Bytes.LeastExists | admin_handler.go:80 | Every non-empty key set has a least key, so `c.First()` and `c.Next()` always have a key to return while keys remain. |
| Bytes.SortedUnique | admin_handler.go:80-81 | Two strictly ascending sequences with the same elements are equal: a key set has exactly one ordered enumeration. |
| Bytes.ElementsAppend | admin_handler.go:81 | Appending a key to the listing adds exactly that key to its element set. |
| Names.IsSpaceRune | admin_handler.go:101 | The UTF-8 encodings of the runes `unicode.IsSpace` accepts: the six ASCII spaces, U+0085, U+00A0, U+1680, U+2000 to U+200A, U+2028, U+2029, U+202F, U+205F and U+3000. |
| Names.RuneAt | admin_handler.go:101 | The width of the white-space rune that `utf8.DecodeRuneInString` and `unicode.IsSpace` find at index `i` of the window `[i, j)`, or 0. It is at most 3 and never runs past the window. |
| Names.RuneBefore | admin_handler.go:101 | The width of the white-space rune that `utf8.DecodeLastRuneInString` and `unicode.IsSpace` find ending at index `j` of the window `[i, j)`, or 0. It is at most 3 and never runs past the window. |
| Names.LeadingSpace | admin_handler.go:101 | The width of the white-space rune the name starts with, or 0. `Names.LeadingSpaceIsRune` proves it agrees with `IsSpaceRune`. |
| Names.TrailingSpace | admin_handler.go:101 | The width of the white-space rune the name ends with, or 0. `Names.TrailingSpaceIsRune` proves it agrees with `IsSpaceRune`. |
| Names.RuneBeforeAt | admin_handler.go:101 | A white-space rune found by reading backwards from the end of a window is the same rune read forwards from where it starts, so the two scans of `strings.TrimSpace` agree on what a rune is. |
| Names.SpaceBetweenJoin | admin_handler.go:101 | Two adjacent stretches of whole white-space runes make one. |
| Names.SpaceBetweenShift | admin_handler.go:101 | Whether a window of the name is white space does not depend on whether it is read in place or through a slice of the name. |
| Names.LeadingEnd | admin_handler.go:101 | The forward scan of `strings.TrimSpace`: it stops inside the window, what it passed over is whole white-space runes, and no white-space rune starts where it stopped. |
| Names.TrailingStart | admin_handler.go:101 | The backward scan over what the forward scan left: it stops inside the window, what it passed over is whole white-space runes, and no white-space rune ends where it stopped. |
| Names.LeadingSpaceIsRune | admin_handler.go:101 | The front test finds a white-space rune exactly when the name starts with one. A non-zero answer is the width of that rune, and a zero answer means no prefix is a white-space rune. |
| Names.TrailingSpaceIsRune | admin_handler.go:101 | The end test finds a white-space rune exactly when the name ends with one. A non-zero answer is the width of that rune, and a zero answer means no suffix is a white-space rune. |
| Names.SpaceBetweenLeadingEnd | admin_handler.go:101 | On a name that is white space to the end, the forward scan consumes all of it. |
| Names.TrimSpace | admin_handler.go:101 | `strings.TrimSpace`: the result is no longer than the input, and when non-empty it neither starts nor ends with a white-space rune. |
| Names.TrimSpaceEnds | admin_handler.go:101 | No prefix and no suffix of the trimmed name is a white-space rune. |
| Names.TrimSpaceUnchanged | admin_handler.go:101 | A non-empty name with no white space at either end is returned unchanged. |
| Names.TrimSpaceIdempotent | admin_handler.go:101 | Trimming twice gives the same result as trimming once. |
| Names.TrimSpaceStrips | admin_handler.go:101 | The trimmed name is a contiguous slice of the input, and what lies before and after it is white space only. |
| Names.TrimSpaceBlank | admin_handler.go:101-103 | Trimming yields "" exactly when the name is empty or consists only of white-space runes (both directions). |
| Names.ValidName | admin_handler.go:105 | The hook-name rule: non-empty, with every byte in `a`-`z`, `0`-`9` or `-`. |
| Names.MatchString | admin_handler.go:105 | `regexp.MatchString("^[a-z0-9-]+$", name)`: one byte of the class, then either the end of the name or a match of the rest. It never returns an error, because the pattern is a constant that compiles. |
| Names.MatchStringIsValidName | admin_handler.go:105 | The anchored pattern `^[a-z0-9-]+$` matches exactly the non-empty names whose every byte is in `a`-`z`, `0`-`9` or `-` (both directions). |
| Names.ValidNameIsTrimmed | admin_handler.go:101-110 | A name that passes the character check is unchanged by trimming and is not blank, so the check at line 105 subsumes the one at line 101. |
| Bolt.Put | admin_handler.go:117 | `Bucket.Put` succeeds exactly for a key of 1 to MaxKeySize bytes. On success the key is added and nothing else changes. It fails with KeyRequired on an empty key and with KeyTooLarge on a longer one. |
| Bolt.Delete | admin_handler.go:124 | `Bucket.Delete` leaves the key absent, keeps every other key and adds none. |
| Bolt.CursorStart | admin_handler.go:80 | Before the first key, nothing has been visited and the whole bucket remains. |
| Bolt.CursorStep | admin_handler.go:80-81 | Visiting the least remaining key keeps the visited keys strictly ascending and below all remaining keys. The visited and remaining keys together are still the bucket. |
| Bolt.CursorDone | admin_handler.go:80-83 | When no key remains, the visited keys are the whole bucket, each once, in ascending order. |
| Hooks.Hook | admin_handler.go:73-75 | `type Hook struct{ID string}`: a hook is its name and nothing else. |
| Hooks.CheckName | admin_handler.go:101-110 | No error exactly for a valid name. `NameRequired` exactly for an empty or all-white-space name. `InvalidCharacters` exactly for the other invalid names. |
| Hooks.Create | admin_handler.go:100-120 | createHook with Put's error propagated. It succeeds exactly for a valid, absent name within bolt's limit, and then the bucket gains exactly that name. Every error leaves the bucket unchanged. Each error is matched to its cause in both directions: blank, bad characters, duplicate, too long. KeyRequired never occurs. |
| Hooks.CreateAsWritten | admin_handler.go:112-119 | createHook as written. It reports success exactly for a valid, absent name. The name is stored when it fits bolt's limit. Otherwise, and on every error, the bucket is unchanged. |
| Hooks.OversizedNameReportedButLost | admin_handler.go:117 | As written, a valid name of MaxKeySize + 1 bytes is reported created on an empty bucket, yet the bucket stays empty and findHook then fails. |
| Hooks.CreateSuccessIsStored | admin_handler.go:112-119 | With the error propagated, a reported success is always followed by a successful find of that name. |
| Hooks.AsWrittenAgreesWithinKeyLimit | admin_handler.go:112-119 | For every name within bolt's key limit, the code as written and the corrected createHook give the same result. |
| Hooks.CreateTwiceFails | admin_handler.go:112-116 | A second createHook of the same name always fails and changes nothing. After a successful first call it fails with AlreadyExists. |
| Hooks.CreateThenFind | admin_handler.go:88-119 | A valid name within the limit can be found after createHook, whether it was new or already present. |
| Hooks.CreateNew | admin_handler.go:112-119 | A valid, absent name within the limit is stored and reported as success. |
| Hooks.Find | admin_handler.go:88-98 | findHook succeeds exactly when the name is a key, and then returns the hook whose ID is that name. Otherwise it fails with DoesNotExist. |
| Hooks.Delete | admin_handler.go:122-126 | deleteHook always succeeds. Afterwards the name is absent, every other key is kept and none is added. |
| Hooks.DeleteIdempotent | admin_handler.go:122-126 | Deleting twice has the same result and leaves the same bucket as deleting once. |
| Hooks.DeleteThenFind | admin_handler.go:88-126 | After deleteHook, findHook of that name fails, and findHook of any other name answers as before. |
| Hooks.RegisteredInitially | admin_handler.go:100-126 | The registry invariant (every key valid and within bolt's limit) holds of the empty bucket. |
| Hooks.CreatePreservesRegistered | admin_handler.go:100-120 | createHook preserves the registry invariant. |
| Hooks.DeletePreservesRegistered | admin_handler.go:122-126 | deleteHook preserves the registry invariant. |
| Hooks.ListingUnique | admin_handler.go:77-86 | A bucket has exactly one listing, so listHooks' result depends on the bucket alone. |
| Hooks.ListingIdsValid | admin_handler.go:77-86 | Over a bucket that satisfies the invariant, every listed ID satisfies the hook-name rule. |
| Hooks.CreateThree | admin_handler.go:112-119 | Creating three different valid names on an empty bucket stores exactly those three. |
| Hooks.ListingOfThree | admin_handler.go:77-86 | Three hooks whose names are in ascending order form a listing of those three names. |
| Hooks.ListAfterCreatingThree | admin_handler.go:77-119 | After creating b, then a, then c with a < b < c, [a, b, c] is a listing of the bucket, and by `ListingUnique` the only one: ordered by bytes, not by creation order. |
| Hooks.CreateRejects | admin_handler.go:101-110 | " \t " is refused with NameRequired and "Stripe Events" with InvalidCharacters. In both cases the bucket is unchanged. |
| Admin.AdminHandler.constructor | admin_handler.go:15-17 | A handler over an empty bucket satisfies the invariant. |
| Admin.AdminHandler.CreateHook | admin_handler.go:100-120 | The two checks, then one transaction that looks the name up and puts it. The error and the new bucket are exactly those of `Hooks.Create`, and the invariant is kept. The transaction's copy is committed only when no error occurred. |
| Admin.AdminHandler.FindHook | admin_handler.go:88-98 | A read-only lookup whose result is `Hooks.Find` of the current bucket. The state is unchanged. |
| Admin.AdminHandler.DeleteHook | admin_handler.go:122-126 | The error and the new bucket are exactly those of `Hooks.Delete`, and the invariant is kept. |
| Admin.AdminHandler.ListHooks | admin_handler.go:77-86 | The cursor loop returns every key exactly once, in strictly ascending byte order, one hook per key. The state is unchanged. Under the invariant, every ID satisfies the hook-name rule. |
| Admin.CreateFindDelete | admin_handler.go:88-126 | For "stripe-events": create succeeds, a second create reports AlreadyExists, find returns the hook, and after deleting it twice find reports DoesNotExist. |

## Left out

- The HTTP handlers `Index`, `NewHook`, `CreateHook`, `EditHook` and `DeleteHook` (admin_handler.go:19-71): template rendering, form and route parameters, redirects and logging.
- hook_handler.go is not part of this model. Its logic is file creation, writing the request out, the wall clock and `crypto/rand`.
- `log.Printf` calls and the `Hook` value as template data.
- Failures of the database itself: beginning or committing a transaction, and disk I/O. `db.View` and `db.Update` are modelled as always completing, so `listHooks` and `findHook` never return a store error of their own.
- Concurrency. bolt runs read-write transactions one at a time, so the operations are modelled in sequence. Of two createHook calls for the same name, run one after the other, the second fails (`Hooks.CreateTwiceFails`).
- bolt's internals: pages, nodes and the cursor's stack. The bucket is the set of its keys. The cursor is modelled by what it returns: the least key not yet visited.
- The regexp engine. The pattern is a constant that compiles, so `regexp.MatchString` cannot return an error here. The guard rejects anything but a positive match, and the model keeps that fail-closed shape through `CheckName`. The matcher is written out for this one pattern.
- bolt's `ErrValueTooLarge` and the checks for a bucket that is read-only or a key that names a nested bucket. The registry stores nil values in a writable transaction of a bucket without nested buckets, so none of these can arise.
- Creating the hooks bucket. `tx.Bucket(BucketHooks)` (admin_handler.go:79, 90, 113, 124) is assumed to find it, because it is created elsewhere at startup. The model starts from that bucket, empty. Were it missing, `tx.Bucket` would return nil and the call after it would panic.

## Findings

| source | as written | input that shows it | evidently intended | confidence | as-written member | corrected member |
|---|---|---|---|---|---|---|
| admin_handler.go:117 | `b.Put([]byte(name), nil)` has its error discarded, and the closure returns nil. | A valid name of 32769 bytes (`MaxKeySize` + 1), all `a`. createHook reports success, Put refuses the key with KeyTooLarge, and findHook of that name then fails. | Return Put's error from the closure, so the transaction aborts and the caller is told the hook was not created. | not executed | Hooks.CreateAsWritten, Hooks.OversizedNameReportedButLost | Hooks.Create, Hooks.CreateSuccessIsStored |
