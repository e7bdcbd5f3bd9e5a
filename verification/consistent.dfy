/** The consistent-hashing ring: a map from slot to node name, the slice of
    occupied slots kept sorted for binary search, and the slot modulus. */
module Consistent {
  import opened IntSeq
  import Fnv
  import GoInt

  /** A Go string: a sequence of bytes. Its zero value is the empty string. */
  type GoString = seq<bv8>

  /** The ring. `nodes` maps a slot to the name placed there, `keys` lists
      the occupied slots (one entry per insertion), `maxSlot` is the size
      of the slot space. */
  datatype Ring = Ring(nodes: map<int, GoString>, maxSlot: int, keys: seq<int>)

  /** What a lookup resolves: the key's own slot, the occupied slot it is
      assigned to, and the name stored there. */
  datatype Lookup = Lookup(hash: int, slot: int, name: GoString)

  /** The ring after a removal, and whether the name's slot was occupied. */
  datatype Removal = Removal(ring: Ring, found: bool)

  // ------------------------------------------------------------ invariants

  /** Every slot in the map is listed in the slice. Adding and removing
      keep this, whatever names collide. */
  predicate Covered(ring: Ring) {
    forall k :: k in ring.nodes ==> k in ring.keys
  }

  /** The slice is strictly ascending and lists exactly the slots of the
      map: one entry per occupied slot, no stale or repeated ones. */
  predicate Exact(ring: Ring) {
    && StrictlySorted(ring.keys)
    && (forall k :: k in ring.keys ==> k in ring.nodes)
    && (forall k :: k in ring.nodes ==> k in ring.keys)
  }

  /** Every listed slot lies in the slot space `[0, |maxSlot|)`. */
  predicate InRange(ring: Ring) {
    forall k :: k in ring.keys ==> 0 <= k < GoInt.Abs(ring.maxSlot)
  }

  /** Every name sits at the slot its own hash selects. */
  predicate Placed(ring: Ring)
    requires ring.maxSlot != 0
  {
    forall k :: k in ring.nodes ==> SlotOf(ring.nodes[k], ring.maxSlot) == k
  }

  /** What every ring built by the operations satisfies. */
  predicate WellFormed(ring: Ring) {
    && ring.maxSlot != 0
    && Sorted(ring.keys)
    && Covered(ring)
    && InRange(ring)
    && Placed(ring)
  }

  // ------------------------------------------------------------ operations

  /** An empty ring over `slots` slots. */
  function NewConsistent(slots: int): (r: Ring)
    ensures r.maxSlot == slots
    ensures |r.nodes| == 0 && |r.keys| == 0
    ensures Exact(r)
    ensures slots != 0 ==> WellFormed(r)
  {
    Ring(map[], slots, [])
  }

  /** The 32-bit FNV-1a hash of a string's bytes, widened to a
      non-negative int. */
  function Hash(s: GoString): (h: int)
    ensures 0 <= h < 0x1_0000_0000
  {
    Fnv.Sum32(s) as int
  }

  /** The slot a name or key falls on. Go's remainder of a non-negative
      hash lies in `[0, |maxSlot|)`; a zero modulus makes Go panic. */
  function SlotOf(name: GoString, maxSlot: int): (slot: int)
    requires maxSlot != 0
    ensures 0 <= slot < GoInt.Abs(maxSlot)
  {
    GoInt.Rem(Hash(name), maxSlot)
  }

  /** Places `node` at its slot, overwriting any name already there, and
      records the slot once more in the slice, which is then sorted. */
  function Add(ring: Ring, node: GoString): (r: Ring)
    requires ring.maxSlot != 0
    ensures r.maxSlot == ring.maxSlot
    ensures var slot := SlotOf(node, ring.maxSlot);
      && slot in r.nodes && r.nodes[slot] == node
      && (forall k :: k != slot ==> (k in r.nodes <==> k in ring.nodes))
      && (forall k :: k != slot && k in ring.nodes ==> r.nodes[k] == ring.nodes[k])
    ensures Sorted(r.keys)
    ensures multiset(r.keys) == multiset(ring.keys) + multiset{SlotOf(node, ring.maxSlot)}
  {
    var slot := SlotOf(node, ring.maxSlot);
    ring.(nodes := ring.nodes[slot := node], keys := SortInts(ring.keys + [slot]))
  }

  /** Frees the slot `node` hashes to. An unoccupied slot leaves the ring
      as it is and reports not found; otherwise the map entry goes and the
      first copy of the slot is spliced out of the slice. The check is by
      slot, so a different name that collided into it is the one removed. */
  function Remove(ring: Ring, node: GoString): (r: Removal)
    requires ring.maxSlot != 0
    ensures var slot := SlotOf(node, ring.maxSlot);
      && (r.found <==> slot in ring.nodes)
      && (!r.found ==> r.ring == ring)
      && r.ring.nodes.Keys == ring.nodes.Keys - {slot}
      && (forall k :: k in r.ring.nodes ==> r.ring.nodes[k] == ring.nodes[k])
      && (r.found ==> multiset(r.ring.keys) == multiset(ring.keys) - multiset{slot})
    ensures r.ring.maxSlot == ring.maxSlot
    ensures Sorted(ring.keys) ==> Sorted(r.ring.keys)
  {
    var slot := SlotOf(node, ring.maxSlot);
    if slot !in ring.nodes then
      Removal(ring, false)
    else
      RemoveFirstKeepsSorted(ring.keys, slot);
      Removal(ring.(nodes := ring.nodes - {slot}, keys := RemoveFirst(ring.keys, slot)), true)
  }

  /** The slot a point resolves to: the library search finds the first
      listed slot above `hash`, and the slot just before it is taken, or
      the last listed slot when there is none before it. */
  function Resolve(keys: seq<int>, hash: int): (slot: int)
    requires |keys| > 0
    ensures slot in keys
  {
    var i := Search(keys, hash);
    if i > 0 then keys[i - 1] else keys[|keys| - 1]
  }

  /** Resolves `key` to an occupied slot and the name stored there, or the
      empty string when the slot has no map entry. Go panics on an empty
      slice and on a zero modulus. */
  function Get(ring: Ring, key: GoString): (r: Lookup)
    requires ring.maxSlot != 0
    requires |ring.keys| > 0
    ensures r.hash == SlotOf(key, ring.maxSlot)
    ensures r.slot in ring.keys
    ensures r.slot in ring.nodes ==> r.name == ring.nodes[r.slot]
    ensures r.slot !in ring.nodes ==> r.name == []
  {
    var hash := SlotOf(key, ring.maxSlot);
    var slot := Resolve(ring.keys, hash);
    Lookup(hash, slot, if slot in ring.nodes then ring.nodes[slot] else [])
  }
}
