# FlatHashMapImpl and the star decisions of StarManager, in Dafny

This project models two pieces of TDLib.

1. `FlatHashMapImpl` from `tdutils/td/utils/FlatHashMap.h`. This is an open-addressing hash map.
   - Buckets live in one vector.
   - The default key (`KeyT()`, here the integer 0) marks an empty bucket.
   - Lookup and insertion probe linearly from the key's home bucket `hash(key) % capacity`, wrapping at the end.
   - Deletion shifts later keys back into the hole instead of leaving tombstones.
   - The vector grows to `max(capacity, n) * 2 + 1` buckets before one more key would push the load factor above 0.6.

2. The pure decisions in `td/telegram/StarManager.cpp`:
   - which direction flags a `payments.getStarsTransactions` request carries;
   - how each returned transaction is classified: its source, the state of a Fragment withdrawal, and whether it has product information;
   - the ordered cascade of checks that `get_star_withdrawal_url` runs before it asks for a withdrawal URL.

## Layout

- `wrappers.dfy`: `Option`, `Result` and `Outcome`.
- `hash_table.dfy`: the bucket vector (`Node`, `Table`). It also holds the invariant `Valid`: keys are distinct, each key is reachable from its home bucket without crossing an empty bucket, `used` counts the occupied buckets, and `used * 10 <= capacity * 6`. Finally it defines `Contents`, the key-to-value map the buckets represent.
- `probe.dfy`: `find_bucket_for_insert`, and placing a new key into the empty bucket that probing stopped at.
- `backward_shift.dfy`: `erase(Iterator)`, written with the source's own unwrapped indices `empty_i`, `test_i` and `want_i`.
- `flat_hash_map.dfy`: `find`, `count`, `emplace`, `operator[]` with a write through its reference, `erase(key)`, `clear`, `size`, `should_resize` and `resize`.
- `dialogs.dfy`, `star_transactions.dfy`, `star_withdrawal.dfy`: the StarManager decisions.

The map is a value. Each operation takes a `Table` and returns the new `Table`. The table carries the two template parameters the code consults:
- `hash`: an arbitrary function from keys to naturals, so every proof holds for any hash function;
- `defaultValue`: the value `ValueT()` that `operator[]` inserts.

An iterator is modelled as a bucket index, and `end()` as `None`.

## Model

| member | source | states |
|---|---|---|
| `HashTable.Home` | tdutils/td/utils/FlatHashMap.h:345-347 | `calc_bucket` always names a bucket of the vector |
| `HashTable.EmptyKeyAbsent` | tdutils/td/utils/FlatHashMap.h:336-338 | the default key marks emptiness, so it is never a stored key |
| `HashTable.ContentsIndex` | tdutils/td/utils/FlatHashMap.h:336-339 | the abstraction from `nodes_` to a map: every key of the map sits in a bucket whose key is not empty and whose value is the key's value |
| `HashTable.ReplaceValue` | tdutils/td/utils/FlatHashMap.h:271-284 | overwriting an occupied bucket's value keeps the layout probeable and the count, and changes only that key's entry |
| `HashTable.CountIsCardinality` | tdutils/td/utils/FlatHashMap.h:339-340 | `used_nodes_`, the count of occupied buckets, is the number of keys in the map |
| `HashTable.LoadFactorLeavesEmptyBucket` | tdutils/td/utils/FlatHashMap.h:342-344 | with the load factor at most 0.6, an allocated table has fewer keys than buckets, so some bucket is empty |
| `Probe.ProbeStopsAtKey` | tdutils/td/utils/FlatHashMap.h:348-357 | if a probe stops at a bucket holding the key or empty, having passed only other keys, then the key is stored exactly when that bucket is occupied |
| `Probe.FindBucketForInsert` | tdutils/td/utils/FlatHashMap.h:348-357 | the probe terminates at the bucket holding the key when it is stored, otherwise at an empty bucket; every bucket before it on the path is occupied |
| `Probe.PlaceInEmpty` | tdutils/td/utils/FlatHashMap.h:262-266 | filling the empty bucket found for an absent key keeps every key reachable, adds exactly that entry, and occupies one more bucket |
| `BackwardShift.Wrap` | tdutils/td/utils/FlatHashMap.h:313-316 | reducing `test_i` once by the capacity yields a bucket of the vector |
| `BackwardShift.MoveDecision` | tdutils/td/utils/FlatHashMap.h:322-327 | the unwrapped test "`want_i <= empty_i` or `want_i > test_i`" holds exactly when the key's probe path crosses the hole |
| `BackwardShift.ClearBucket` | tdutils/td/utils/FlatHashMap.h:306-310 | emptying the erased bucket removes exactly that key; every other key stays reachable if the hole is treated as occupied |
| `BackwardShift.MoveKeepsEntries` | tdutils/td/utils/FlatHashMap.h:327-331 | moving an occupied bucket's node into an empty bucket and emptying its old bucket keeps every entry and the number of occupied buckets |
| `BackwardShift.MoveIntoHole` | tdutils/td/utils/FlatHashMap.h:327-331 | moving a key whose path crosses the hole into the hole keeps all entries and makes its old bucket the new hole |
| `BackwardShift.ScanFinished` | tdutils/td/utils/FlatHashMap.h:318-320 | once the scan meets an empty bucket, no key's path crosses the hole, so every key is reachable again |
| `BackwardShift.ScanStart` | tdutils/td/utils/FlatHashMap.h:306-312 | the scan starts with the hole at the erased bucket and the erased key gone |
| `BackwardShift.TestBucket` | tdutils/td/utils/FlatHashMap.h:312-318 | the bucket under test lies `test_i - empty_i` steps after the hole; if it is occupied, the scan has not yet reached the free bucket that bounds it |
| `BackwardShift.ScanKeep` | tdutils/td/utils/FlatHashMap.h:322-327 | a key whose home lies after the hole stays put and joins the scanned range |
| `BackwardShift.ScanMove` | tdutils/td/utils/FlatHashMap.h:327-331 | a moved key keeps the scan state, with its old bucket as the hole |
| `BackwardShift.EraseAt` | tdutils/td/utils/FlatHashMap.h:303-333 | `erase(Iterator)` removes exactly the key at that bucket, decrements `used_nodes_`, and leaves every other key reachable with its value |
| `FlatHashMap.New` | tdutils/td/utils/FlatHashMap.h:175 | a default-constructed map is valid and empty |
| `FlatHashMap.Size` | tdutils/td/utils/FlatHashMap.h:224-226 | `size()` is the number of stored keys |
| `FlatHashMap.Resize` | tdutils/td/utils/FlatHashMap.h:368-378 | `resize(n)` sets the capacity to `max(old, n) * 2 + 1` and keeps the key-to-value map and the count exactly |
| `FlatHashMap.Find` | tdutils/td/utils/FlatHashMap.h:204-213 | an empty map answers `end()`; otherwise the result is `end()` exactly when the key is absent, and else the bucket holding the key and its value |
| `FlatHashMap.Count` | tdutils/td/utils/FlatHashMap.h:294-296 | `count(k)` is 1 exactly when `k` is stored, else 0 |
| `FlatHashMap.ShouldResize` | tdutils/td/utils/FlatHashMap.h:342-344 | an unallocated table always needs to grow, and when no growth is needed one more key still leaves an empty bucket for probing |
| `FlatHashMap.Prepare` | tdutils/td/utils/FlatHashMap.h:259-262 | the table grows exactly when `should_resize` holds, after which one more key fits within the load factor; the probe then finds the key's bucket |
| `FlatHashMap.Emplace` | tdutils/td/utils/FlatHashMap.h:257-269 | a present key leaves value and size unchanged and returns `false`; an absent key is stored with the given value, size grows by one, and the result is `true`; the load factor stays at most 0.6 |
| `FlatHashMap.Index` | tdutils/td/utils/FlatHashMap.h:271-284 | `operator[]` grows the table exactly when `should_resize` holds, even for a present key; a present key keeps contents and size and yields its stored value; an absent key gets `ValueT()` and the size grows by one; either way it returns the bucket holding the key, which is what the returned reference designates |
| `FlatHashMap.WriteAt` | tdutils/td/utils/FlatHashMap.h:271-284 | assigning through the reference `operator[]` returns changes only that key's value: keys, layout and size stay and the map stays valid |
| `FlatHashMap.EraseKey` | tdutils/td/utils/FlatHashMap.h:286-293 | `erase(k)` returns 0 and leaves the buckets untouched when `k` is absent; otherwise it returns 1, removes `k`, and shrinks the size by one |
| `FlatHashMap.Clear` | tdutils/td/utils/FlatHashMap.h:298-301 | after `clear()` the map is valid, empty, and of size 0 |
| `StarTransactions.DirectionFlags` | td/telegram/StarManager.cpp:67-80 | incoming sets only the inbound bit, outgoing only the outbound bit, and no direction leaves the flags 0 |
| `StarTransactions.TransactionsQuery` | td/telegram/StarManager.cpp:67-83 | the request's flags read back as the requested direction, never both bits; it carries the offset and the limit 100 |
| `StarTransactions.ProductInfoOf` | td/telegram/StarManager.cpp:98-102 | product information exists exactly when the title or the description is non-empty or a photo is present |
| `StarTransactions.FragmentWithdrawalState` | td/telegram/StarManager.cpp:114-129 | a positive transaction date gives Completed with that date and URL; otherwise pending gives Pending, then failed gives Failed; otherwise there is no state |
| `StarTransactions.CompletedIgnoresFlags` | td/telegram/StarManager.cpp:115-118 | once the transaction date is positive, the pending and failed flags do not change the state |
| `StarTransactions.TransactionSource` | td/telegram/StarManager.cpp:103-145 | each peer constructor maps to its source; a `starsTransactionPeer` is a User source exactly when its dialog is a user, and is Unsupported otherwise |
| `StarTransactions.ConvertHistory` | td/telegram/StarManager.cpp:96-148 | the history is converted in order, one entry per transaction, keeping identifier, amount, refund flag and date |
| `StarWithdrawal.DialogCheck` | td/telegram/StarManager.cpp:251-271 | a non-bot user fails with "User is not a bot"; a channel fails with "Chat is not a channel" unless it is a broadcast, then with "Not enough rights to withdraw stars" unless the caller is its creator; any other dialog fails with "Unallowed chat specified"; it passes exactly for a bot or a broadcast channel owned by the caller |
| `StarWithdrawal.DialogCheckReadsOnlyItsFacts` | td/telegram/StarManager.cpp:251-271 | a user dialog is judged only by the bot flag, and a channel only by its broadcast and creator flags |
| `StarWithdrawal.ValidateWithdrawal` | td/telegram/StarManager.cpp:249-274 | an access error is returned first and unchanged; then the dialog checks apply; an empty password is rejected with "PASSWORD_HASH_INVALID" only after they pass |
| `StarWithdrawal.EmptyPasswordCheckedLast` | td/telegram/StarManager.cpp:272-274 | an empty password changes the outcome only of a request that would otherwise pass |
| `StarWithdrawal.WithdrawalUrlRequestFor` | td/telegram/StarManager.cpp:247-294 | a request is sent exactly when validation passes, the password proof is computed, the client is not closing, and a writable input peer exists; otherwise the first failing stage's error is returned; the last stage, "Have no access to the chat", is raised when the query is sent (lines 199-202) |

## Left out

- The group-call participant logic declared in `td/telegram/GroupCallManager.h` and the declarations in `td/telegram/BusinessInfo.h`: their implementations are not part of this model.
- The `Node` union, placement new, explicit destructor calls and move semantics of `FlatHashMapImpl`: a bucket is a plain (key, value) pair. An emptied bucket keeps its old value, which is never read.
- The `Iterator`/`ConstIterator` classes, `begin()`/`end()` and iteration order: an iterator is a bucket index and `end()` is `None`.
- Copy and move construction and assignment (`FlatHashMap.h` lines 176-198) are not modelled. Moving takes over `nodes_` and zeroes the source's count. Copy assignment merges into a non-empty map through `assign`.
- The `std::unordered_map` alias that the public `FlatHashMap` name resolves to: it is a standard container.
- `std::hash` and `EqualT`: the hash is an arbitrary function, and key equality is integer equality.
- `size_t` wrap-around in `(used_nodes_ + 1) * 10` and `nodes_.size() * 6`: integers are unbounded, because overflow needs more than 2^60 buckets.
- `FlatHashMap.Emplace` and `FlatHashMap.Index` require a non-empty key. For the empty key the source stops on `CHECK(!empty())` (line 66) or `DCHECK(!is_key_empty(key))` (line 272).
- The values of `INBOUND_MASK` and `OUTBOUND_MASK` are taken from flag bits 0 and 1 of `payments.getStarsTransactions`. The generated header that defines them is not part of this model.
- RPC and runtime machinery: `send_query` and `fetch_result`, promises, `send_closure`, `on_get_users`/`on_get_chats`, `on_error` with `on_get_dialog_error`, and `G()->close_status()`. The close status, the access check, the password proof and input-peer availability become parameters of `WithdrawalUrlRequestFor`.
- The `LOG(ERROR)` for a Fragment transaction with no state and no refund (lines 125-127): it is logging only.
- `get_web_document_photo`, `get_product_info_object` and `get_user_id_object` are treated as the identity on the photo and the user identifier. Their conversions (the photo goes through the file manager) are not modelled.
- The wrapping of the converted history with the balance and next offset (lines 150-151): these are copied without any decision.
- `get_star_payment_options`, `GetStarsTopupOptionsQuery`, `refund_star_payment` and `RefundStarsChargeQuery`: they only forward requests and answers.
