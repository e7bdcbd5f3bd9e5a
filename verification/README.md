# Consistent-hashing ring, modelled in Dafny

This project models the consistent-hashing ring in `consistent.go`. It also
proves what the ring's operations preserve and how its lookups resolve.

The ring (`Consistent.Ring`) holds three fields:

- `nodes`: a map from slot to node name.
- `keys`: the slice of occupied slots. It gets one entry per `Add` and is
  sorted after every insertion.
- `maxSlot`: the size of the slot space.

A name is placed at `hash(name) % maxSlot`. The hash is 32-bit FNV-1a over the
name's bytes, widened to an `int`. The Go methods mutate the ring through a
pointer. Here the ring is an immutable value, and each operation returns the
new value:

- `NewConsistent(slots)` builds an empty ring.
- `Add(ring, node)` writes the map entry, appends the slot and sorts the slice.
- `Remove(ring, node)` returns the new ring and a found flag. The flag stands
  in for the "no existing node" message.
- `Get(ring, key)` returns `Lookup(hash, slot, name)`, which the Go code
  prints. `Get` returns no ring, so it cannot change `nodes`, `keys` or
  `maxSlot`.

Files and modules:

- `goint.dfy` (`GoInt`): Go's truncating `/` and `%`.
- `fnv.dfy` (`Fnv`): the FNV-1a recurrence and the byte loop of the hash
  object's `Write`.
- `intseq.dfy` (`IntSeq`): the slot slice and the library calls made on it.
  `SortInts` stands for `sort.Ints`. `Bisect`, `Search` and the loop
  `SortSearch` stand for `sort.Search`. `RemoveFirst` is the splice in
  `Remove`. Linear-scan references (`FirstAbove`, `Max`, `MaxAtMost`) give
  the search an independent meaning.
- `consistent.dfy` (`Consistent`): the ring, its operations and the
  invariants they are checked against.
- `ring_properties.dfy` (`RingProperties`): preservation of those
  invariants, round trips, lookup resolution and minimal disruption. It also
  defines runs of `Add`/`Remove` calls.

Behaviour of the code worth knowing:

- **Get resolves to the predecessor.** It takes the largest occupied slot at
  or below the key's slot. When every slot is above the key's slot, it wraps
  to the largest occupied slot. The comment at `consistent.go:48` speaks of
  the "clockwise closest node", but the code does not take the next slot
  clockwise. See `RingProperties.GetIsPredecessor`
  and `RingProperties.ResolveExamples`. For instance, with slots 0, 5, 12, 18
  and 19, a key on slot 14 goes to slot 12, not 18.
- **Add does not deduplicate.** Adding the same name twice leaves its slot in
  the slice twice. So the slice is sorted but not necessarily strictly
  ascending, and `Add` is not idempotent. See `RingProperties.AddNotIdempotent`
  and `RingProperties.AddOccupiedBreaksStrict`.
- **Remove can leave a stale slot.** `Remove` splices out only one copy of the
  slot. After a double `Add`, the slot stays listed with no map entry. `Get`
  then returns the empty string for it. See
  `RingProperties.DoubleAddThenRemoveLeavesStale`.
- **Get on an empty slice panics.** In the model this is a precondition of
  `Get`, not a reported error.
- **`maxSlot` is not validated.** A zero modulus makes the `%` in `Add`,
  `Remove` and `Get` panic, so a non-zero modulus is a precondition of each. A negative modulus works in Go
  and gives slots in `[0, |maxSlot|)`, and the model follows Go here.

Two invariants are proved:

- `Consistent.WellFormed` holds of every ring reached from a new ring through
  any sequence of calls. It says the slice is sorted, every map slot is
  listed, every slot is in range, and every name sits at its own hash's slot.
- `Consistent.Exact` says the slice is strictly ascending and lists exactly
  the map's slots. `Remove` preserves it. `Add` preserves it only when the
  name's slot is free.

## Model

| member | source | states |
|---|---|---|
| `GoInt.Rem` | consistent.go:43 | Go's `%`: the remainder is smaller than the divisor in magnitude, has the dividend's sign, and completes Go's truncating division identity. |
| `Fnv.Sum32` | consistent.go:93-97 | The hash, defined last byte last, equals the state reached by streaming the bytes front first into a fresh FNV-1a state (the offset basis), as `Write` feeds them. |
| `Fnv.Write` | consistent.go:94-96 | Feeding every byte of the input in order to a fresh FNV-1a state ends in the FNV-1a hash of the whole input. |
| `Fnv.Sum32Concat` | consistent.go:93-97 | The hash of a concatenation continues from the hash of its first part. |
| `Fnv.TestVectors` | consistent.go:93-97 | The 32-bit FNV-1a constants give the published hashes of "", "a" and "foobar". |
| `Consistent.Hash` | consistent.go:93-97 | The widened hash is never negative and is below 2^32. |
| `Consistent.SlotOf` | consistent.go:43 | With a non-zero modulus, the slot of every name or key lies between 0 inclusive and the absolute value of `maxSlot` exclusive. |
| `Consistent.NewConsistent` | consistent.go:32-39 | A new ring has the given modulus, an empty map and an empty slice. It is strictly consistent, and well-formed when the modulus is non-zero. |
| `Consistent.Add` | consistent.go:42-50 | The name is stored at its slot. Every other map entry is unchanged. The slice is sorted and holds the old slots plus exactly one more copy of the name's slot. The modulus is unchanged. |
| `Consistent.Remove` | consistent.go:53-71 | Found exactly when the name's slot has a map entry. Not found leaves the ring unchanged. Found deletes exactly that entry, removes exactly one copy of the slot from the slice, and keeps every other entry. A sorted slice stays sorted. |
| `Consistent.Resolve` | consistent.go:79-87 | The slot chosen after the binary search is always a listed slot. |
| `Consistent.Get` | consistent.go:74-90 | The lookup reports the key's own slot and a listed slot. The name is that slot's map entry, or the empty string when the slot has none. |
| `IntSeq.SortInts` | consistent.go:49 | Sorting gives an ordered slice with exactly the input's elements, each as often as in the input. |
| `IntSeq.Insert` | consistent.go:46-49 | Placing a value into a sorted slice keeps it sorted and adds exactly that value. |
| `IntSeq.SortedPermutationUnique` | consistent.go:49 | Two sorted slices with the same elements are equal, so every correct sort gives the same slice. |
| `IntSeq.SortAppendIsInsert` | consistent.go:46-49 | Appending to a sorted slice and then sorting is an ordered insertion. |
| `IntSeq.InsertKeepsStrict` | consistent.go:46-49 | Inserting an absent slot keeps a strictly ascending slice strictly ascending. |
| `IntSeq.IndexOf` | consistent.go:65-66 | The scan stops at the first index holding the slot, or at the end when no index holds it. |
| `IntSeq.RemoveFirst` | consistent.go:65-70 | The splice removes one copy of the slot when it is present, and leaves the slice as it is otherwise. |
| `IntSeq.RemoveFirstSkipsFirstOccurrence` | consistent.go:65-70 | The splice drops exactly the first occurrence. Elements before it keep their places, and elements after it move down by one. |
| `IntSeq.RemoveFirstKeepsSorted` | consistent.go:65-70 | Splicing keeps a sorted slice sorted. |
| `IntSeq.RemoveFirstKeepsStrict` | consistent.go:65-70 | Splicing keeps a strictly ascending slice strictly ascending and leaves no copy of the removed slot. |
| `IntSeq.FirstAbove` | consistent.go:79-81 | The reference meaning of the search: every element before the result is at most the point, and the element at the result, if any, is above it. |
| `IntSeq.Bisect` | consistent.go:79-81 | The bisection of `sort.Search` stays within the range it is given. |
| `IntSeq.BisectFindsFirstAbove` | consistent.go:79-81 | On a sorted slice, the bisection finds the index the linear scan finds. |
| `IntSeq.Search` | consistent.go:79-81 | `sort.Search` with "slot above the point" returns an index no larger than the length; on a sorted slice it is the smallest index whose slot is above the point, or the length when there is none. |
| `IntSeq.SortSearch` | consistent.go:79-81 | The loop form of the search computes the bisection. On a sorted slice, that is the first index above the point. |
| `RingProperties.AddKeepsWellFormed` | consistent.go:42-50 | `Add` keeps the slice sorted, every map slot listed, every slot in range and every name at its own slot. |
| `RingProperties.AddKeepsExactWhenFree` | consistent.go:42-50 | When the name's slot is free, `Add` keeps the slice strictly ascending and equal to the map's slots. |
| `RingProperties.AddOccupiedBreaksStrict` | consistent.go:46-49 | Adding a name whose slot is already listed makes the slice hold that slot twice. |
| `RingProperties.AddNotIdempotent` | consistent.go:46-49 | Adding a name twice differs from adding it once. |
| `RingProperties.RemoveKeepsWellFormed` | consistent.go:53-71 | `Remove` keeps the slice sorted, every remaining map slot listed, every slot in range and every name at its own slot. |
| `RingProperties.RemoveKeepsExact` | consistent.go:53-71 | `Remove` keeps the slice strictly ascending and equal to the map's slots. |
| `RingProperties.DoubleAddThenRemoveLeavesStale` | consistent.go:62-70 | After a name is added twice and removed once, its slot is still listed but has no map entry. |
| `RingProperties.RemoveUndoesAdd` | consistent.go:42-71 | Removing a name right after adding it to a free slot restores the ring exactly, and the removal reports found. |
| `RingProperties.AddUndoesRemove` | consistent.go:42-71 | Re-adding the name that a removal evicted restores the ring exactly. |
| `RingProperties.CollisionsAreSlotKeyed` | consistent.go:45-62 | Of two names with the same slot, the later add wins the slot. Removing either name frees that slot. |
| `RingProperties.LinearOwner` | consistent.go:79-87 | The linear-scan reference for lookups always picks a listed slot. |
| `RingProperties.ResolveMatchesLinearScan` | consistent.go:79-87 | On a sorted slice, the binary-search resolution equals the linear scan: the largest slot at or below the point, or else the largest slot. |
| `RingProperties.GetMatchesLinearScan` | consistent.go:74-90 | On a sorted slice, a lookup resolves to the slot the linear scan picks. |
| `RingProperties.GetIsPredecessor` | consistent.go:79-87 | A lookup takes the largest listed slot at or below the key's slot. When every slot is above it, the lookup wraps to the largest listed slot. |
| `RingProperties.ResolveExamples` | consistent.go:79-87 | With slots 0, 5, 12, 18 and 19, point 14 goes to 12 and point 25 goes to 19. Without slot 0, point 3 wraps to 19. |
| `RingProperties.OwnerSurvivesRemoval` | consistent.go:65-70 | Splicing out a slot that did not own a point leaves that point's owner unchanged. |
| `RingProperties.RemoveKeepsOtherLookups` | consistent.go:53-90 | Removing a node changes no lookup that resolved to another slot, neither the slot nor the name. |
| `RingProperties.GetAfterRemoveAvoidsNode` | consistent.go:53-90 | Take a ring whose slice and map agree and whose names sit at their own slots. After a name is removed, no lookup returns that name. |
| `RingProperties.GetAfterRemoveNeverReturnsNode` | consistent.go:53-90 | On any well-formed ring, including one where a repeated `Add` left a stale slot, no lookup after removing a non-empty name returns that name. |
| `RingProperties.Run` | consistent.go:42-71 | A sequence of add and remove calls never changes the modulus. |
| `RingProperties.RunKeepsWellFormed` | consistent.go:32-71 | Every ring reached from a well-formed ring through any sequence of calls is well-formed. |

## Left out

- `main` (the driver with hardcoded nodes and keys) is not modelled. It
  exercises the ring and is not part of it.
- Console output is not modelled. `Remove` returns a found flag instead of
  printing, and `Get` returns its lookup instead of printing it. The name in
  the not-found message is a shadowed variable that is always empty, so it
  only affects the message text.
- The FNV object plumbing (`New32a`, `Write`, `Sum32`) is reduced to the
  FNV-1a recurrence and its byte loop.
- `sort.Ints` is modelled by a functional insertion sort, not by Go's sorting
  algorithm. Only its contract matters. `IntSeq.SortedPermutationUnique`
  shows that every algorithm meeting that contract returns the same slice.
- `sort.Search` is modelled as its bisection with the midpoint `(i + j) / 2`.
  Go's `int(uint(i+j) >> 1)` computes the same value for these non-negative
  indices.
- Go's 64-bit `int` is modelled as an unbounded integer. A 32-bit platform,
  where the widened hash could be negative, is not modelled.
- Pointer mutation is modelled by returning a new ring. The Go struct has no
  synchronisation, and concurrency is not modelled.
- Consistent.Get: its contract states the predecessor meaning only for sorted
  slices, through `RingProperties.GetIsPredecessor`. Every ring the operations
  build has a sorted slice (`RingProperties.RunKeepsWellFormed`). On an
  unsorted slice, the bisection's answer is only known to be a listed slot.
