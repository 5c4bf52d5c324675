# consistent-hashring in Dafny

A model of the consistent-hash ring of `consistent-hashring` and of the
bisection helpers it is built on, with proofs of what they do.

- `wrappers.dfy`, module `Wrappers`: `Option`, `Result` and `Outcome`. `Outcome` is a
  result that carries no value. These types stand for JavaScript's `undefined` and its
  thrown exceptions.
- `bisect.dfy`, module `Bisect`: `bisectRight`, `bisectLeft`, `insortRight` and
  `insortLeft` from `lib/bisect.js`.
  - The two searches are methods whose `while` loops keep the search window
    `[low, high)`.
  - Each search is proved equal to a linear-scan reference definition of the
    insertion point whenever the sequence is sorted. The reference definitions are
    `RightInsertionPoint` and `LeftInsertionPoint`.
  - The partition properties of the reference definitions are proved, and so is the
    fact that each partition point is unique.
  - `insort*` return the spliced sequence. They are proved to add exactly `x` and to
    keep a sorted sequence sorted, with `x` placed after (right) or before (left) the
    elements equal to it.
  - JavaScript's `splice` clamps an out-of-range start. `SpliceInsert` and
    `SpliceRemove` model that clamping.
- `ring_spec.dfy`, module `RingSpec`: the ring as a value, `RingState`.
  - Its fields are the sorted positions `keys`, the position → node map
    `nodeHashToNode` and the node → recorded positions map `nodeToHashes`.
  - The ring invariant is `ValidState`. It says three things:
    - the positions are strictly ascending and are exactly the keys of the owner map;
    - each node's record lists distinct positions, all owned by that node;
    - each owned position appears in its owner's record.
  - `replicaHashes` is a function.
  - The bodies of the loops in `addNode` and `removeNode` are functions, `AddOne` and
    `RemoveOne`. The loops themselves are `AddHashes` and `RemoveHashes`.
  - `getNode`'s choice of position is `Lookup`.
  - The lemmas say what these compute and that they keep the invariant.
- `hashring.dfy`, module `Hashring`: class `ConsistentHashring`.
  - Its fields are the three fields of the source class and the hash function.
  - `AddNode` and `RemoveNode` run the source's loops over the fields. Each loop is
    proved step by step against `AddHashes` or `RemoveHashes`.
  - `GetNode` is `bisectRight` followed by the wrap to index 0.

The hash function is a parameter of the constructor: any total function from
strings to unsigned 32-bit integers.

## Model

| member | source | states |
|---|---|---|
| `Bisect.RightInsertionPoint` | lib/bisect.js:11-19 | the reference insertion point lies in `[lo, hi]` |
| `Bisect.LeftInsertionPoint` | lib/bisect.js:48-57 | the reference left insertion point lies in `[lo, hi]` |
| `Bisect.RightInsertionPointPartitions` | lib/bisect.js:12-15 | for sorted `a` and `lo <= hi <= len`: everything in `a[lo..i)` is `<= x` and everything in `a[i..hi)` is `> x` |
| `Bisect.LeftInsertionPointPartitions` | lib/bisect.js:50-53 | for sorted `a`: everything in `a[lo..i)` is `< x` and everything in `a[i..hi)` is `>= x` |
| `Bisect.RightPartitionIsInsertionPoint` | lib/bisect.js:12-15 | any index that splits `a[lo..hi)` into `<= x` and `> x` is the reference point, so the partition point is unique |
| `Bisect.LeftPartitionIsInsertionPoint` | lib/bisect.js:50-53 | any index that splits `a[lo..hi)` into `< x` and `>= x` is the reference left point |
| `Bisect.LeftPointAtMostRightPoint` | lib/bisect.js:20-72 | with the same arguments, the left insertion point is at most the right one |
| `Bisect.EffectiveHi` | lib/bisect.js:24 | the bound `hi \|\| a.length` (also lib/bisect.js:62): an omitted `hi` or `hi == 0` means the length, any other `hi` is used as given |
| `Bisect.BisectRight` | lib/bisect.js:20-34 | throws on `lo < 0`; with `hi` omitted or 0 the bound is the length; the result is in `[lo, hi]`; for sorted `a` it is the reference right point and partitions `a[lo..hi)`; the loop terminates on `high - low` |
| `Bisect.BisectLeft` | lib/bisect.js:58-72 | the same for the left point: throws on `lo < 0`, `hi || length` as the bound, result in `[lo, hi]`, for sorted `a` the reference left point and its partition |
| `Bisect.SpliceInsert` | lib/bisect.js:45 | `splice(i, 0, x)` gives a sequence one longer whose multiset is the old one plus `x` |
| `Bisect.SpliceRemove` | lib/consistent-hashring.js:59 | `splice(i, 1)` removes the element at `i`: length one less and multiset minus that element; an index at or past the end changes nothing |
| `Bisect.SpliceInsertAt` | lib/bisect.js:45 | after `splice(i, 0, x)`, `x` is at `i`, the earlier elements keep their index, the later ones shift by one, and the values are the old ones plus `x` |
| `Bisect.InsertAtRightPoint` | lib/bisect.js:37-46 | inserting at the right point keeps a sorted sequence sorted; `x` comes after every element `<= x` and before every larger one |
| `Bisect.InsertAtLeftPoint` | lib/bisect.js:74-84 | inserting at the left point keeps a sorted sequence sorted; `x` comes after every smaller element and before every element `>= x` |
| `Bisect.InsortRight` | lib/bisect.js:44-46 | throws on `lo < 0`; otherwise adds exactly one `x` (multiset); for sorted `a` it splices at the right insertion point and, over the whole sequence, the result is sorted |
| `Bisect.InsortLeft` | lib/bisect.js:82-84 | the same with the left insertion point |
| `Bisect.InsertKeepsStrictlySorted` | lib/consistent-hashring.js:44-45 | inserting a new position at its right point keeps the ring strictly ascending and adds exactly that value |
| `Bisect.SpliceRemoveKeepsSorted` | lib/consistent-hashring.js:58-59 | removing any one element keeps a sorted sequence sorted |
| `Bisect.SpliceRemoveAt` | lib/consistent-hashring.js:59 | removing index `i` of a strictly ascending sequence removes exactly the value `a[i]` and keeps it strictly ascending |
| `Bisect.RemoveAtLeftPoint` | lib/consistent-hashring.js:58-59 | on a strictly ascending ring that holds `x`, `bisectLeft` finds `x`'s own index, so the splice removes exactly `x` |
| `RingSpec.DecimalDigits` | lib/consistent-hashring.js:29 | `'' + i` for a replica index: at least one character, all decimal digits, with a leading `0` exactly when the number is 0 |
| `RingSpec.DecimalDigitsRoundTrip` | lib/consistent-hashring.js:29 | reading the digits back gives the number, so distinct indices are spelled differently |
| `RingSpec.ReplicaLabel` | lib/consistent-hashring.js:29 | the label `node + '_' + i` starts with the node's name followed by `_` and is longer than both |
| `RingSpec.ReplicaLabelsDistinct` | lib/consistent-hashring.js:28-30 | the labels of two different replicas of one node differ, so only the hash function can make replicas collide |
| `RingSpec.FreshHashes` | lib/consistent-hashring.js:28-30 | the computed replica positions are `hash(node + "_" + i)` for `i` in `0 .. replicaCount-1`, in that order |
| `RingSpec.ReplicaHashes` | lib/consistent-hashring.js:22-32 | yields the node's record when it is tracked with a non-empty record, otherwise the computed replica positions |
| `RingSpec.AddOne` | lib/consistent-hashring.js:41-47 | one addNode iteration: afterwards the position is owned and the node tracked; a colliding position leaves the ring as it was; a new one is owned by the node, appended to its record and adds one ring position |
| `RingSpec.AddHashes` | lib/consistent-hashring.js:40-48 | the addNode loop over a sequence of positions, one `AddOne` per position in order; the node stays tracked |
| `RingSpec.AddReplicas` | lib/consistent-hashring.js:39-48 | addNode after its duplicate check: track the node with an empty record, then run the loop over `replicaHashes`; the node ends up tracked |
| `RingSpec.AddOneKeepsValid` | lib/consistent-hashring.js:41-47 | registering a position nobody owns (owner, ring insert, record push) keeps the ring invariant |
| `RingSpec.AddHashesRecords` | lib/consistent-hashring.js:39-47 | the loop appends to the node's record exactly the positions not owned when reached, in order (`Fresh`); other records are unchanged |
| `RingSpec.AddHashesOwners` | lib/consistent-hashring.js:40-47 | after the loop, the owned positions are the old ones plus the iterated ones; old positions keep their owner; new ones belong to the node |
| `RingSpec.AddHashesKeepsValid` | lib/consistent-hashring.js:40-48 | the addNode loop keeps the ring invariant |
| `RingSpec.TrackNodeKeepsValid` | lib/consistent-hashring.js:39 | tracking a new node with an empty record keeps the invariant |
| `RingSpec.AddReplicasKeepsValid` | lib/consistent-hashring.js:34-49 | addNode on an untracked node keeps the invariant |
| `RingSpec.AddReplicasSpec` | lib/consistent-hashring.js:39-47 | addNode records exactly the computed replica positions that were not on the ring, in generation order; each maps to the node; colliding positions keep their owner; other nodes' records are unchanged |
| `RingSpec.RemoveOne` | lib/consistent-hashring.js:57-59 | one removeNode iteration: the position loses its owner entry, no owner entry is added, the records are untouched, and the ring loses at most one position |
| `RingSpec.RemoveHashes` | lib/consistent-hashring.js:56-60 | the removeNode loop over a sequence of positions, one `RemoveOne` per position in order; records untouched, owner entries only removed, the ring shrinks by at most one per position |
| `RingSpec.RemoveNodeAsWritten` | lib/consistent-hashring.js:51-62 | removeNode as written after its check: the loop over `replicaHashes(node)`, then the record is deleted; other records are untouched and the ring and owner map only shrink |
| `RingSpec.RemoveRecorded` | lib/consistent-hashring.js:56-61 | removeNode as intended: the loop over the node's recorded positions only, then the record is deleted; other records are untouched and the ring and owner map only shrink |
| `RingSpec.RemoveHashesOwners` | lib/consistent-hashring.js:56-57 | the removal loop deletes the owner entry of every position it is given and touches no other entry, whatever the ring holds |
| `RingSpec.RemoveHashesKeys` | lib/consistent-hashring.js:56-60 | given distinct positions all on a strictly ascending ring, the loop removes exactly them from the ring and keeps it strictly ascending |
| `RingSpec.RemoveRecordedEffect` | lib/consistent-hashring.js:56-61 | removing a record that is distinct and on the ring removes exactly those positions from ring and owner map and deletes the record |
| `RingSpec.RemoveRecordedSpec` | lib/consistent-hashring.js:51-62 | on a valid ring, removing a node's recorded positions removes exactly the positions it owns from `keys` and `nodeHashToNode`; the record is deleted; everything else is unchanged |
| `RingSpec.RemoveRecordedKeepsValid` | lib/consistent-hashring.js:51-62 | removing a tracked node's recorded positions keeps the invariant (corrected removeNode) |
| `RingSpec.RemoveAsWrittenWhenRecorded` | lib/consistent-hashring.js:23-26 | with a non-empty record, removeNode as written is exactly the removal of the recorded positions |
| `RingSpec.RemoveAtOrBelowFromSingleton` | lib/consistent-hashring.js:56-60 | splicing the ring `[k]` at the left insertion point of positions all at or below `k` empties it, whether or not `k` is among them |
| `RingSpec.CollidedRingIsValid` | lib/consistent-hashring.js:39-48 | the ring where `a` owns the one position `k` and `b` is tracked with an empty record (addNode's result when all of `b`'s replicas collide) is valid |
| `RingSpec.CollidedReplicaHashes` | lib/consistent-hashring.js:27-30 | on that ring `replicaHashes('b')` recomputes `b`'s positions: when each label of `b` hashes to `x`, it yields `replicaCount` copies of `x` |
| `RingSpec.RecordOffRingIsInvalid` | lib/consistent-hashring.js:44-46 | a ring where some node records a position that is not on the ring violates the invariant |
| `RingSpec.TotalCollisionRemoveEffect` | lib/consistent-hashring.js:56-61 | removing `b` from that ring, with each replica label of `b` hashing to the same `x <= k`, splices out `a`'s position `k`: the ring becomes empty, `a` keeps its record `[k]`, and the owner entry of `k` goes only when `x == k` |
| `RingSpec.TotalCollisionRemoveBreaksRing` | lib/consistent-hashring.js:22-32 | that valid ring becomes invalid after removeNode as written |
| `RingSpec.TotalCollisionRemoveMovesLookup` | lib/consistent-hashring.js:51-62 | on that ring every hash is routed to `a`, none to `b`; after removeNode as written of `b`, every hash gets `None` |
| `RingSpec.SuccessorIndex` | lib/consistent-hashring.js:66-69 | on a non-empty ring the wrapped `bisectRight` index is a valid index |
| `RingSpec.Lookup` | lib/consistent-hashring.js:70 | on an empty ring getNode gives `None` (undefined) |
| `RingSpec.SuccessorIndexIsSuccessor` | lib/consistent-hashring.js:66-69 | on a sorted non-empty ring the index is the least position strictly above the hash, or the least position when none is above |
| `RingSpec.SuccessorUnique` | lib/consistent-hashring.js:66-69 | every hash has at most one such successor position |
| `RingSpec.LookupRoutesToSuccessor` | lib/consistent-hashring.js:64-71 | on a valid ring the lookup returns the owner of the successor position |
| `RingSpec.LookupUnchangedByRemove` | test/test.js:58-72 | removing node X leaves the lookup of every hash not routed to X unchanged |
| `Hashring.ConsistentHashring.constructor` | lib/consistent-hashring.js:15-20 | a new ring has no positions, no owners and no records, uses the given hash function, and satisfies the invariant |
| `Hashring.ConsistentHashring.AddNode` | lib/consistent-hashring.js:34-49 | throws `DuplicateNode` on a tracked node with the state unchanged; otherwise the new state is the loop over `replicaHashes` (`AddReplicas`); the record, owner and collision guarantees of `AddReplicasSpec` hold; `keys` stays sorted; a valid ring stays valid |
| `Hashring.ConsistentHashring.AddPosition` | lib/consistent-hashring.js:44-46 | one non-colliding iteration: set the owner, `insortRight` into `keys`, push onto the record; `keys` stays sorted |
| `Hashring.ConsistentHashring.RemoveNode` | lib/consistent-hashring.js:51-62 | throws `UnknownNode` on an untracked node with the state unchanged; otherwise the state is the loop over `replicaHashes` followed by deleting the record. With a non-empty record this is exactly the removal of its recorded positions, and on a valid ring those are its owned positions, the invariant is kept, and no lookup that did not go to the node changes. `keys` stays sorted in every case |
| `Hashring.ConsistentHashring.RemovePosition` | lib/consistent-hashring.js:57-59 | one iteration: delete the owner entry, splice `keys` at the `bisectLeft` index; `keys` stays sorted |
| `Hashring.ConsistentHashring.GetNode` | lib/consistent-hashring.js:64-71 | returns the owner of the least position strictly above `hash(key)`, wrapping to the least position; `None` on an empty ring; on a non-empty valid ring always a tracked node, the owner of the successor position |

## Left out

- The default hash function (`murmurhash3_32_gc` with a fixed seed) is not part of
  this model. Any hash function into unsigned 32-bit integers is taken as a parameter.
  The constructor therefore always receives one, so the `hashFunction || default`
  fallback is not modelled.
- The `console.log` on a colliding replica is output only. The model skips the
  replica and logs nothing.
- The "distributes evenly" test relies on random keys and a floating-point standard
  deviation. It is a statistical claim, not a property of every input.
- JavaScript turns numeric positions into property-name strings and treats names such
  as `__proto__` specially. The model uses `map<int, string>` and
  `map<string, seq<int>>` directly.
- `replicaHashes` is a generator. It is modelled as the finite sequence it yields.
  Neither loop that consumes it changes the record being iterated, so laziness is not
  observable here.
- In the source, `keys` and the records are mutated in place by `splice` and `push`.
  Here they are sequence values that the class reassigns. Aliasing of these arrays by
  callers is not modelled.
- `replicaCount`: the default of 100 is a constant of the ring, set by the
  constructor. `replicaHashes`' optional second argument is never passed by the class,
  so it is not modelled.
- `Bisect.BisectRight`, `Bisect.BisectLeft`, `Bisect.InsortRight` and
  `Bisect.InsortLeft` require the effective `hi` to be at most the length.
  - Past the end, JavaScript reads `undefined`, and every comparison with it is
    false. The search then no longer looks at a sorted array.
  - No caller in the repository passes `hi`.
- `Hashring.ConsistentHashring.AddNode`, `Hashring.ConsistentHashring.RemoveNode` and
  `Hashring.ConsistentHashring.GetNode` require only that `keys` is sorted, and each
  keeps it sorted.
  - Their guarantees about owners, records and the lookup's successor are stated for
    a ring that satisfies the invariant.
  - A removeNode of a node whose replicas all collided can break the invariant (see
    Findings). Every later call on such a ring still has its as-written result stated.
- An empty ring makes `getNode` return `undefined`. The code does not throw there,
  and the model follows the code: `None`.

## Findings

| source | as written | input that shows it | evidently intended | confidence | as-written member | corrected member |
|---|---|---|---|---|---|---|
| lib/consistent-hashring.js:22-32 | `removeNode` iterates `replicaHashes(node)`, which for an empty record recomputes the node's hashes. It deletes those positions from the owner map and splices `keys` at each one's `bisectLeft` index. That removes the position if it is on the ring, and otherwise the next larger position, which another node owns. So `keys` and the owner map can fall out of lockstep with the records, and the invariant can break | a ring where `a` owns the one position `k`, `b` records `[]`, and every replica label of `b` hashes to one `x <= k`. With a constant hash `x`: `addNode('a')` takes `x`, then `addNode('b')` collides on every replica. With `a`'s labels hashing to 20 and those of `b` and `c` to 10: `addNode('c')`, `addNode('a')`, `addNode('b')` (all collide with `c`), `removeNode('c')`. In both cases `removeNode('b')` empties `keys` while `a` still records `[k]`; in the second, 20 also stays in `nodeHashToNode` | removing a node deletes only the positions it recorded (owns); with an empty record nothing on the ring changes, and the invariant is kept | not executed | `RingSpec.TotalCollisionRemoveBreaksRing` | `RingSpec.RemoveRecordedKeepsValid` |
| lib/consistent-hashring.js:56-60 | the same removal changes lookups that never went to the removed node | the same rings: before, every key is routed to `a`; after `removeNode('b')`, every key gets `undefined` | removing a node changes only the lookups that were routed to it | not executed | `RingSpec.TotalCollisionRemoveMovesLookup` | `RingSpec.LookupUnchangedByRemove` |
