# Multi-generational LRU cache, modelled in Dafny

This project models the Go implementation of a multi-generational LRU cache (MGLRU). It has three layers:

- **The doubly linked list** (`go-impl/dll/dll.go`). Its nodes hold key/value `Pair`s. It can push and pop at both ends, remove the first node whose data equals a pair, and move a node to the front.
- **The single-generation LRU cache** (`go-impl/main.go`). It has a capacity, a map from key to list node, and one list. The front of the list is the most recently used pair and the tail the least recently used. `Put` of a new key into a full cache evicts the tail and returns it. `Get` moves the key's node to the front.
- **The MGLRU cache** (`go-impl/mglru/mglru.go`). It is a row of `length` LRU caches, each of capacity `capacity`, youngest first. A map records which generation holds each key.
  - A new pair enters the youngest generation. A pair evicted from generation `i` is put at the front of generation `i + 1`, and its key is re-indexed. A pair evicted from the oldest generation leaves the cache and is returned.
  - `Get` and `Put` of a key already present promote it: its pair is removed from its generation and inserted again through the same cascade.

## How the model is built

Each file of the model has the form of the source it models:

- **`dll.dfy` (module `DLL`).** The list is a class over an arena.
  - Slot `n` of the sequence fields `data`, `next` and `prev` is the `n`-th node ever allocated, and a node handle (the source's `*Node`) is a slot index, with `Nil` = -1 for nil.
  - A detached node keeps its slot and its data, as a detached Go node does. So a stale handle behaves as it does in Go, as long as the operations it goes through never remove a list's head node. In that case the source leaves the removed node linked (Findings row 1), and the model's corrected `Remove` does not.
  - Ghost fields `nodes` (the slots reachable from `head`, in order) and `Contents` (their pairs) state what each method does to the list.
  - `Remove` keeps the source's scan loop.
- **`lru.dfy` (module `LRU`).** `LRUCache` is a class that owns a `DoublyLinkedList` and a `map<int, int>` from key to handle.
  - Its methods are proved equal to the value-level functions `GetSpec`, `PutSpec` and `RemoveSpec` on the list contents.
  - Lemmas state what those functions promise.
- **`mglru_spec.dfy` (module `MGLRUSpec`).** The MGLRU on values: the generations' lists and the key index (`Gens`).
  - `Cascade` is the loop of `insertElement`. `Inserted`, `Promoted`, `AfterPut` and `AfterGet` are the operations.
  - `Inv` is the invariant:
    - each generation holds at most `capacity` pairs with distinct keys;
    - no key is in two generations;
    - the index maps exactly the resident keys, each to its generation.
- **`mglru.dfy` (modules `GenerationRow` and `MGLRU`).** `MGLRUCache` is a class over a sequence of `LRUCache` objects, with the index as a mutable map.
  - Its methods run the source's loops and calls.
  - Each method is proved to produce exactly the state the `MGLRUSpec` function gives, and to keep `Inv`.
- **`dll_scenarios.dfy`, `lru_scenarios.dfy` and `mglru_scenarios.dfy`.** These state the outcomes the repository's tests in `go-impl/test/` expect, as ensures clauses of methods that perform the same call sequences. They also hold the two scenarios behind the findings below.

The model follows the code, with two exceptions: the two defects recorded under Findings. For each, the code as written is modelled by its own member, and the corrected behaviour is what the rest of the model builds on.

- **`Remove` on the head node.** `RemoveAsWritten` is the code as written; `Remove` is the corrected version. Every cache operation that removes a node goes through the corrected `Remove`, and the defect does reach the caches on ordinary input (see Findings row 1 and Left out).
- **LRU `Put` of a present key.** `Put` is the corrected version (Findings row 2). `PutAsWritten` is the code as written for a key whose node is not the list's head. For a key at the head it, too, moves the node through the corrected `Remove` (see Left out).

MGLRU `Put` of a present key (`go-impl/mglru/mglru.go:65-69`) does not refresh the stored value. The key's old pair is promoted to the youngest generation and returned, and the value passed in is dropped. The model does the same.

## Model

| member | source | states |
|---|---|---|
| DLL.FirstIndex | go-impl/dll/dll.go:115-139 | the head-first scan stops at the first index holding the pair, and before the end exactly when the pair is in the list |
| DLL.RemoveFirst | go-impl/dll/dll.go:110-142 | removing a present pair shortens the list by one and takes out exactly one copy of it (multiset); an absent pair leaves the list unchanged |
| DLL.RemoveFirstCuts | go-impl/dll/dll.go:116-136 | when the first match is at index k, removal is cutting the list at k |
| DLL.DoublyLinkedList.Init | go-impl/dll/dll.go:28-34 | a new list is empty and well linked |
| DLL.DoublyLinkedList.Size | go-impl/dll/dll.go:144-146 | the stored length is the number of pairs in the list |
| DLL.DoublyLinkedList.Head | go-impl/dll/dll.go:148-150 | head is nil exactly for an empty list, and otherwise names a node holding the first pair |
| DLL.DoublyLinkedList.Tail | go-impl/dll/dll.go:152-154 | tail is nil exactly for an empty list, and otherwise names a node holding the last pair |
| DLL.DoublyLinkedList.PushFront | go-impl/dll/dll.go:36-55 | the pair is prepended in a fresh node that becomes head, the links stay consistent, and the returned handle names that node |
| DLL.DoublyLinkedList.PushBack | go-impl/dll/dll.go:57-76 | the pair is appended in a fresh node that becomes tail, and the returned handle names that node |
| DLL.DoublyLinkedList.PopFront | go-impl/dll/dll.go:78-87 | an empty list is unchanged; otherwise the first pair is dropped and the links stay consistent |
| DLL.DoublyLinkedList.PopBack | go-impl/dll/dll.go:89-108 | an empty list gives None and is unchanged; otherwise the last pair is returned and dropped, and a list that becomes empty has nil head and tail |
| DLL.DoublyLinkedList.Remove | go-impl/dll/dll.go:110-142 | the first node equal to the pair is unlinked, and head or tail move off it; the pair is returned exactly when it was present; nothing else changes |
| DLL.DoublyLinkedList.RemoveAsWritten | go-impl/dll/dll.go:110-142 | the source's Remove: it returns and counts the removal like Remove, but head never moves |
| DLL.DoublyLinkedList.Unlink | go-impl/dll/dll.go:118-133 | unlinking the node at position k removes exactly position k from the list and keeps it well linked |
| DLL.DoublyLinkedList.SetData | go-impl/main.go:41 | writing a pair through a handle changes the list only at the position of that node, and not at all when the node is detached |
| DLL.DoublyLinkedList.MoveNodeToFront | go-impl/dll/dll.go:156-166 | when the node's data is in the list, its first occurrence moves to the front in a fresh head node; otherwise the list is unchanged and NoNodeWithGivenData is reported (over the corrected `Remove`; when the first occurrence is the head, see Findings row 1 for what the source does) |
| DLLScenarios.PushScenario | go-impl/test/dll_test.go:10-49 | PushFront makes each new pair the head; PushBack keeps the first pair as head |
| DLLScenarios.PopBackScenario | go-impl/test/dll_test.go:51-101 | PopBack of two pairs leaves the first as head and tail; PopBack of one leaves nil head and tail |
| DLLScenarios.PopFrontScenario | go-impl/test/dll_test.go:103-125 | PopFront of two pairs leaves the second as head and tail |
| DLLScenarios.RemoveScenario | go-impl/test/dll_test.go:127-155 | removing the middle of three pairs leaves size 2 with the outer pairs at head and tail |
| DLLScenarios.RemoveSoleElement | go-impl/test/dll_test.go:157-173 | removing the only pair leaves size 0 and nil head and tail |
| DLLScenarios.RemoveSoleElementAsWritten | go-impl/dll/dll.go:121-124 | with the source's Remove, removing the only pair leaves size 0 but a non-nil head |
| DLLScenarios.MoveNodeToFrontScenario | go-impl/test/dll_test.go:175-207 | moving the tail of [1, 2, 3] to the front succeeds and gives head 3 and tail 2 |
| DLLScenarios.MixedScenario | go-impl/test/dll_test.go:209-247 | the sizes, heads and tails after pushes at both ends, PopBack and PopFront |
| LRU.Lookup | go-impl/main.go:22-25 | a key is found exactly when some pair of the list has it, and what is found is such a pair |
| LRU.LookupUnique | go-impl/main.go:21-29 | with distinct keys, the pair found for a key is the only pair with that key |
| LRU.GetSpec | go-impl/main.go:21-29 | Get's effect on the list and its result: an absent key gives -1 and no change; a present key's pair comes to the front with the same pairs as before, and its value is returned |
| LRU.PutSpec | go-impl/main.go:33-63 | Put's effect on the list and the pair it evicts: the new pair is at the front; a pair is evicted exactly when the key is new and the list full, and it is the old tail |
| LRU.RemoveSpec | go-impl/main.go:65-74 | Remove's effect on the list and its result: None and no change exactly when the key is absent; otherwise the key's pair is returned and exactly one copy of it leaves the list |
| LRU.GetSpecFacts | go-impl/main.go:21-29 | Get of an absent key returns -1 and changes nothing; of a present key it returns that pair's value and moves the pair to the front, keeping the same pairs |
| LRU.PutSpecFacts | go-impl/main.go:33-63 | Put keeps at most cap pairs with distinct keys and puts the pair at the front; it evicts exactly when the key is new and the list is full, and then evicts the old tail, whose key alone leaves |
| LRU.RemoveSpecFacts | go-impl/main.go:65-74 | Remove of a present key takes exactly its pair out and returns it; of an absent key it returns None and changes nothing |
| LRU.LRUCache.Init | go-impl/main.go:13-19 | a new cache has the given capacity, an empty map and an empty list |
| LRU.LRUCache.Get | go-impl/main.go:21-29 | the list and result are those of GetSpec, and the cache invariant is kept |
| LRU.LRUCache.Put | go-impl/main.go:33-63 | the list and evicted pair are those of PutSpec, and the cache invariant is kept |
| LRU.LRUCache.Insert | go-impl/main.go:45-62 | for a new key, a full list loses its tail, which is returned, and the pair is pushed at the front |
| LRU.LRUCache.Refresh | go-impl/main.go:36-43 | for a present key, the old pair leaves its place and the new pair is at the front |
| LRU.LRUCache.PutAsWritten | go-impl/main.go:36-43 | the source's present-key branch: the front keeps the old pair, and the map's handle names a detached node holding the new pair (for a key not at the head; at the head the move goes through the corrected `Remove`, see Findings row 1) |
| LRU.LRUCache.Remove | go-impl/main.go:65-74 | the list and result are those of RemoveSpec, and the cache invariant is kept |
| LRU.LRUCache.GetFirstElement | go-impl/main.go:77-79 | the front node is nil exactly for an empty cache, and otherwise holds the most recently used pair |
| LRUScenarios.BasicPutGet | go-impl/test/lru_test.go:11-25 | a put into an empty cache evicts nothing, and the value is then read |
| LRUScenarios.PutSameDataTwice | go-impl/test/lru_test.go:27-52 | putting the same pair twice into a one-pair cache evicts nothing |
| LRUScenarios.PutDifferentData | go-impl/test/lru_test.go:54-79 | a second key in a one-pair cache evicts the first pair (over the corrected `Remove`; see Findings row 1 for what the source does) |
| LRUScenarios.TwoPairFill | go-impl/test/lru_test.go:82-109 | two puts into an empty two-pair cache evict nothing and leave [2, 1] |
| LRUScenarios.TwoPairGetOlder | go-impl/test/lru_test.go:112 | a get of key 1 returns 10 and makes it most recently used |
| LRUScenarios.TwoPairPutThird | go-impl/test/lru_test.go:114-117 | key 3 evicts pair 2, which is then absent |
| LRUScenarios.TwoPairPutFourth | go-impl/test/lru_test.go:119-122 | key 4 evicts pair 1, which is then absent |
| LRUScenarios.TwoPairGetLast | go-impl/test/lru_test.go:124 | key 3 is still found with value 30 |
| LRUScenarios.TwoPairCache | go-impl/test/lru_test.go:81-125 | the whole two-pair test: the evictions and the values read |
| LRUScenarios.StaleHandleAsWritten | go-impl/main.go:36-43 | with the source's Put, updating key 1 while it sits behind key 2 leaves the old pair at the front, and a later promotion through the map's handle fails |
| LRUScenarios.UpdatePresentKey | go-impl/main.go:36-43 | with the corrected Put, the updated pair is at the front and Get reads the new value |
| MGLRUSpec.Cascade | go-impl/mglru/mglru.go:81-96 | the loop of insertElement from generation i on, as a value; its contract keeps the number of generations, and CascadeShape, CascadeOut, CascadeBag, CascadeKeys, CascadeKeepsFirst and CascadeTracked state what it does |
| MGLRUSpec.Inserted | go-impl/mglru/mglru.go:75-109 | insertElement as a value: the number of generations is kept; when nothing is evicted the pair's key is indexed to generation 0; an evicted pair's key leaves the index |
| MGLRUSpec.Promoted | go-impl/mglru/mglru.go:111-133 | moveNodeToFront as a value: the number of generations is kept; a key not in the index changes nothing and gives None; a returned pair is the key's, and the key is then indexed to generation 0 |
| MGLRUSpec.AfterPut | go-impl/mglru/mglru.go:54-73 | Put as a value: the number of generations is kept, and Put of a present key returns nothing or that key's own pair, never another |
| MGLRUSpec.AfterGet | go-impl/mglru/mglru.go:38-52 | Get as a value: the number of generations is kept, and a key not in the index gives -1 with no change |
| MGLRUSpec.Empty | go-impl/mglru/mglru.go:21-36 | the state Init builds: length generations holding no pair, and an empty index |
| MGLRUSpec.TotalSizeBound | go-impl/mglru/mglru.go:21-36 | a cache of length generations of capacity cap never holds more than length * cap pairs |
| MGLRUSpec.PutNew | go-impl/main.go:45-62 | a new key enters a generation at the front, and it evicts exactly when the generation was full, then the old tail; no pair is lost or duplicated |
| MGLRUSpec.StepShape | go-impl/mglru/mglru.go:87-96 | one cascade step keeps the generations well shaped and disjoint, and the carried key out of all of them |
| MGLRUSpec.CascadeShape | go-impl/mglru/mglru.go:87-96 | the cascade leaves earlier generations untouched, keeps all well shaped and disjoint, puts the carried pair at the front, and any pair that comes out is held by no generation |
| MGLRUSpec.CascadeOut | go-impl/mglru/mglru.go:87-96 | a pair comes out exactly when every generation from i on was full, and it is then the oldest generation's old tail |
| MGLRUSpec.CascadeBag | go-impl/mglru/mglru.go:87-96 | the generations after the cascade, with the pair that comes out, hold exactly the old pairs plus the inserted one |
| MGLRUSpec.CascadeKeys | go-impl/mglru/mglru.go:87-96 | the cascade keeps the index's domain, and the key of a pair leaving the oldest generation is indexed one past it |
| MGLRUSpec.CascadeKeepsFirst | go-impl/mglru/mglru.go:87-100 | the inserted pair stays in the youngest generation and never comes out, unless there are no generations |
| MGLRUSpec.CascadeTracked | go-impl/mglru/mglru.go:87-96 | after the cascade every key other than the inserted and the evicted ones is indexed to the generation that holds it |
| MGLRUSpec.StepStay | go-impl/mglru/mglru.go:88-91 | a step that evicts nothing keeps every other key indexed to its generation |
| MGLRUSpec.StepPass | go-impl/mglru/mglru.go:88-93 | a step that evicts a pair re-indexes its key to the next generation and keeps every other key indexed |
| MGLRUSpec.InsertedInv | go-impl/mglru/mglru.go:75-109 | insertElement keeps the invariant, leaves the pair at the front of the youngest generation indexed to it, and drops the evicted key from the index |
| MGLRUSpec.InsertedOut | go-impl/mglru/mglru.go:75-109 | insertElement evicts exactly when every generation was full, and then evicts the oldest generation's tail |
| MGLRUSpec.InsertedBag | go-impl/mglru/mglru.go:75-109 | insertElement loses and duplicates no pair: the generations plus the evicted pair are the old pairs plus the new one |
| MGLRUSpec.Indexed | go-impl/mglru/mglru.go:98-106 | indexing the new key to generation 0 and dropping the evicted key leaves the index exact |
| MGLRUSpec.PromotedInv | go-impl/mglru/mglru.go:111-133 | moveNodeToFront keeps the invariant and the indexed keys; an indexed key's stored pair is returned and becomes the youngest; an unindexed key changes nothing |
| MGLRUSpec.PromotedKeepsInv | go-impl/mglru/mglru.go:111-133 | moveNodeToFront keeps the invariant |
| MGLRUSpec.PromotedBag | go-impl/mglru/mglru.go:111-133 | moveNodeToFront never evicts: the generations hold the same pairs after it |
| MGLRUSpec.RemovedPair | go-impl/mglru/mglru.go:121-122 | removal takes out of the key's generation the pair it holds for the key, so that generation is no longer full |
| MGLRUSpec.RemovedShape | go-impl/mglru/mglru.go:121-124 | after the removal the state is ready for insertElement of the removed pair |
| MGLRUSpec.PutKeeps | go-impl/mglru/mglru.go:54-73 | Put keeps the invariant and leaves the key youngest; a present key returns its stored pair with the pairs unchanged; a new key evicts exactly when all generations were full, and the pairs become the old ones plus the new less the evicted |
| MGLRUSpec.NewInsertable | go-impl/mglru/mglru.go:65-72 | a key not in the index is held by no generation, so insertElement's precondition holds |
| MGLRUSpec.GetFront | go-impl/mglru/mglru.go:38-52 | Get's state is the promotion's, and its value is the indexed pair's value, or -1 for an unindexed key |
| MGLRUSpec.GetKeeps | go-impl/mglru/mglru.go:38-52 | Get keeps the invariant and the pairs; an indexed key becomes the front of the youngest generation; any other key changes nothing |
| MGLRUSpec.EmptyInv | go-impl/mglru/mglru.go:21-36 | the state Init builds satisfies the invariant and holds no pair |
| MGLRU.MGLRUCache.Init | go-impl/mglru/mglru.go:21-36 | the cache has length fresh, distinct, empty generations of the given capacity and an empty index |
| MGLRU.MGLRUCache.PutAt | go-impl/mglru/mglru.go:88 | a put into generation i changes that generation as PutSpec says, and no other |
| MGLRU.MGLRUCache.RemoveAt | go-impl/mglru/mglru.go:122 | a removal from generation i changes that generation as RemoveSpec says, and no other |
| MGLRU.MGLRUCache.GetAt | go-impl/mglru/mglru.go:46-49 | a get from generation i changes that generation as GetSpec says, and no other |
| MGLRU.MGLRUCache.InsertElement | go-impl/mglru/mglru.go:75-109 | the loop over the generations produces exactly the state and evicted pair of Inserted |
| MGLRU.MGLRUCache.MoveNodeToFront | go-impl/mglru/mglru.go:111-133 | the state and result are those of Promoted, and the invariant is kept |
| MGLRU.MGLRUCache.Put | go-impl/mglru/mglru.go:54-73 | the state and result are those of AfterPut, and the invariant is kept |
| MGLRU.MGLRUCache.Get | go-impl/mglru/mglru.go:38-52 | the state and value are those of AfterGet, and the invariant is kept |
| MGLRU.MGLRUCache.GetFirstElement | go-impl/mglru/mglru.go:139-141 | the result is the front pair of the youngest generation |
| MGLRUScenarios.TwoByOnePutFirstSpec | go-impl/test/mglru_test.go:24-27 | with two one-pair generations, the first put lands in the youngest generation and evicts nothing |
| MGLRUScenarios.TwoByOneGetFirstSpec | go-impl/test/mglru_test.go:29 | a get of key 1 returns 10 and leaves the state unchanged (over the corrected `Remove`; see Findings row 1 for what the source does) |
| MGLRUScenarios.TwoByOnePutSecondSpec | go-impl/test/mglru_test.go:31-33 | key 2 pushes pair 1 into the older generation and evicts nothing (over the corrected `Remove`; see Findings row 1 for what the source does) |
| MGLRUScenarios.TwoByOneGetSecondSpec | go-impl/test/mglru_test.go:35 | a get of key 2 returns 20 (over the corrected `Remove`; see Findings row 1 for what the source does) |
| MGLRUScenarios.TwoByOne | go-impl/test/mglru_test.go:11-36 | the whole test on the cache class: no evictions, and the values 10 and 20 (over the corrected `Remove`; see Findings row 1 for what the source does) |
| MGLRUScenarios.OneByOnePutFirstSpec | go-impl/test/mglru_test.go:51-54 | with one one-pair generation, the first put evicts nothing |
| MGLRUScenarios.OneByOneGetFirstSpec | go-impl/test/mglru_test.go:56 | a get of key 1 returns 10 and leaves the state unchanged (over the corrected `Remove`; see Findings row 1 for what the source does) |
| MGLRUScenarios.OneByOnePutSecondSpec | go-impl/test/mglru_test.go:58-61 | key 2 evicts pair 1 from the cache (over the corrected `Remove`; see Findings row 1 for what the source does) |
| MGLRUScenarios.OneByOneGetSecondSpec | go-impl/test/mglru_test.go:63 | a get of key 2 returns 20 (over the corrected `Remove`; see Findings row 1 for what the source does) |
| MGLRUScenarios.OneByOne | go-impl/test/mglru_test.go:38-64 | the whole test on the cache class: pair 1 is evicted by the second put, and the values 10 and 20 are read (over the corrected `Remove`; see Findings row 1 for what the source does) |
| MGLRUScenarios.TwoByTwoPut1Spec | go-impl/test/mglru_test.go:82-85 | with two two-pair generations, the first put evicts nothing |
| MGLRUScenarios.TwoByTwoPut2Spec | go-impl/test/mglru_test.go:87-89 | the second put still fits the youngest generation |
| MGLRUScenarios.TwoByTwoGet1Spec | go-impl/test/mglru_test.go:90-91 | a get of key 1 returns 10 and makes pair 1 the youngest (over the corrected `Remove`; see Findings row 1 for what the source does) |
| MGLRUScenarios.TwoByTwoPut3Spec | go-impl/test/mglru_test.go:93-96 | key 3 moves pair 2 into the older generation, evicts nothing, and is at the front (over the corrected `Remove`; see Findings row 1 for what the source does) |
| MGLRUScenarios.TwoByTwoPut4Spec | go-impl/test/mglru_test.go:98-101 | key 4 moves pair 1 to the front of the older generation and evicts nothing (over the corrected `Remove`; see Findings row 1 for what the source does) |
| MGLRUScenarios.TwoByTwoPut5Spec | go-impl/test/mglru_test.go:103-105 | key 5 cascades through both full generations and evicts pair 2 (over the corrected `Remove`; see Findings row 1 for what the source does) |
| MGLRUScenarios.TwoByTwoGet2Spec | go-impl/test/mglru_test.go:106 | a get of the evicted key 2 returns -1 and changes nothing (over the corrected `Remove`; see Findings row 1 for what the source does) |
| MGLRUScenarios.TwoByTwoGet3Spec | go-impl/test/mglru_test.go:108 | a get of key 3 in the older generation returns 30 (over the corrected `Remove`; see Findings row 1 for what the source does) |
| MGLRUScenarios.TwoByTwo | go-impl/test/mglru_test.go:66-110 | the whole test on the cache class: the evictions, the values read, and the front key after each step (over the corrected `Remove`; see Findings row 1 for what the source does) |

## Left out

- Printing and logging are not modelled: `PrintList` (`go-impl/dll/dll.go:168-184`, `go-impl/main.go:82-84`), `PrintAllLRUs` and `PrintState` (`go-impl/mglru/mglru.go:143-157`), and the `log.Println` calls in `Put` and `insertElement`. They have no effect on the state.
- The Rust implementation (`src/`) is not part of this model.
- Go node references (`*Node`) are arena slot indices. Node identity, nil and detached nodes are modelled; garbage collection is not.
- `DLL.DoublyLinkedList.PopFront` requires a list that does not hold exactly one element. The source dereferences the nil successor of a sole head and panics there.
- `LRU.LRUCache.Init` requires a capacity of at least 1.
  - With capacity 0 the source's first `Put` finds the empty list full, and dereferences the nil pair `PopBack` returns (`go-impl/main.go:49-51`).
  - With a negative capacity the source runs without a panic: Go's `make` treats a negative map size hint as 0, and the list's size never equals the capacity at `go-impl/main.go:49`, so the cache never evicts and grows without bound. The model leaves this degenerate configuration out, because its invariant bounds every list by the capacity.
- `MGLRU.MGLRUCache.Init` requires `length >= 0`, and a capacity of at least 1 when there is any generation.
  - With `length < 0` the loop at `go-impl/mglru/mglru.go:24-28` builds no generation, and the negative size hint `length*capacity` at `go-impl/mglru/mglru.go:34` is treated by Go's `make` as 0 (a map hint does not panic). The source then behaves exactly as with `length == 0`, which the model covers: `insertElement` returns the pair it is given. The model leaves negative lengths out because it stores the length as the number of generations.
  - With capacity 0 and at least one generation, the first `Put` panics in the youngest generation as above.
  - With a negative capacity and at least one generation, every generation is a never-evicting LRU cache as above, so every pair stays in the youngest generation. The model leaves this out for the same reason as for `LRU.LRUCache.Init`.
- Removal returns an `Option<Pair>` instead of Go's `(*Pair, bool)` pair. The two carry the same information.
- In Go, `lrus` is a slice of `LRUCache` values, and `Get` copies one. Each copy shares the original's map and list (both are references), so an update through it is seen by the cache. The model uses one `LRUCache` object per generation, which has the same effect.
- `LRU.LRUCache.Put` models the corrected present-key branch (see Findings). Inside the MGLRU that branch never runs: a key is put into a generation only when no generation holds it.
- `LRU.LRUCache.Get`, `LRU.LRUCache.Remove` and the present-key branch of `LRU.LRUCache.Put` are built on the corrected `DLL.DoublyLinkedList.Remove`. When the key's node is the list's head, the source leaves it linked behind the new head, and the list's tail can become nil while its length stays positive. The model does not capture that state (Findings row 1).
- `DLL.DoublyLinkedList.MoveNodeToFront` and `LRU.LRUCache.PutAsWritten` also go through the corrected `Remove`. When the node to move is the list's head, the source's `Remove` leaves that node linked behind the new head node, so the list reads the pair twice while its length counts it once. After `Put(1,10)`, `Put(1,11)` in the source, the map's handle names that still-linked node, now holding `(1, 11)`, and the list reads `(1, 10)`, `(1, 11)` with a nil tail. The model's `PutAsWritten` instead leaves the list as `[(1, 10)]` and the handle detached. Its contract and Findings row 2 describe the source only for a key whose node is not the head.
- `MGLRU.MGLRUCache.MoveNodeToFront`, `MGLRU.MGLRUCache.Get` and `MGLRU.MGLRUCache.Put` are built on the corrected `Remove` through the LRU operations above. `Get` always reads a key at the front of the youngest generation, so the source reaches the head case on every hit. The model does not capture the pairs the source then loses or misplaces (Findings row 1).
- `MGLRU.MGLRUCache.GetFirstElement` requires at least one generation and a non-empty youngest generation. With no generation the source's `l.lrus[0]` (`go-impl/mglru/mglru.go:140`) panics on an out-of-range index. With an empty youngest generation it dereferences the nil node that `GetFirstElement` of that generation returns.
- The `length*capacity` size hint of the key map (`go-impl/mglru/mglru.go:34`) has no effect on behaviour. It is modelled only by the bound `MGLRUSpec.TotalSizeBound`.
- Go's `int` is 64 bits wide; the model uses unbounded integers. No operation does arithmetic on keys or values. The source's other arithmetic cannot overflow in practice:
  - the list length counter (`len++` and `len--` at `go-impl/dll/dll.go:53`, `74`, `86`, `106` and `133`) counts nodes;
  - the generation index `i + 1` (`go-impl/mglru/mglru.go:93`) never exceeds `length`;
  - the product `length*capacity` (`go-impl/mglru/mglru.go:34`) is only a size hint for the key map.

## Findings

| source | as written | input that shows it | evidently intended | confidence | as-written member | corrected member |
|---|---|---|---|---|---|---|
| go-impl/dll/dll.go:121-124 | when the removed node is the head, `head` is left pointing at it, because only `Prev.Next` is relinked | push one pair, then `Remove` it: size is 0 but `Head()` is not nil. The caches reach this on ordinary input. In an LRU cache of capacity 1, `Put(1,10)`, `Get(1)`, `Put(2,20)`: `Get` removes and re-pushes the head node, which leaves `tail` nil, so the `Put` gets nil from `PopBack` and dereferences it (`go-impl/main.go:50-51`; `go-impl/test/lru_test.go:74`). The MGLRU tests of one-pair generations fail the same way at `go-impl/test/mglru_test.go:31` and `:58`, because MGLRU `Get` reads a key it has just put at the front (`go-impl/mglru/mglru.go:43`, `:49`). In two generations of two pairs, `Put(1)`, `Put(2)`, `Get(1)`, `Put(3)` loses pair 1 from the youngest generation while the index still names it, so `Put(4)` moves pair 3 rather than pair 1 to the older generation; the test's assertions still hold | head moves to the removed node's successor, so a list emptied by `Remove` has nil head and tail | not executed | DLLScenarios.RemoveSoleElementAsWritten | DLL.DoublyLinkedList.Remove |
| go-impl/main.go:36-43 | `Put` of a present key first moves its node to the front, which creates a new node, and then writes the new pair into the old, now detached, node | in a cache of capacity 2, `Put(Pair(1, 10))`, `Put(Pair(2, 20))`, `Put(Pair(1, 11))`: the front holds `(1, 10)`, and a later `Get(1)` cannot move the stale node (`NoNodeWithGivenData`, which `Get` ignores) and returns 11 while the list keeps `(1, 10)` | the new pair replaces the old one at the front, and the map points at the front node | not executed | LRUScenarios.StaleHandleAsWritten | LRU.LRUCache.Put |
