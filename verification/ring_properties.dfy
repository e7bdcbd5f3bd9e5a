/** What the ring's operations preserve and how lookups behave, stated
    over every ring and every name. */
module RingProperties {
  import opened IntSeq
  import opened Consistent

  // ------------------------------------------------------- membership facts

  /** Elements of a slice whose multiset grows by one value. */
  lemma MembersAfterGrow(a: seq<int>, b: seq<int>, x: int)
    requires multiset(b) == multiset(a) + multiset{x}
    ensures forall k :: k in b <==> k in a || k == x
  {
    forall k ensures k in b <==> k in a || k == x {
      assert k in b <==> k in multiset(b);
      assert k in a <==> k in multiset(a);
    }
  }

  /** Elements of a slice whose multiset shrinks by one copy of a value. */
  lemma MembersAfterShrink(a: seq<int>, b: seq<int>, x: int)
    requires multiset(b) == multiset(a) - multiset{x}
    ensures forall k :: k in b ==> k in a
    ensures forall k :: k in a && k != x ==> k in b
  {
    forall k ensures k in b ==> k in a {
      assert k in b <==> k in multiset(b);
      assert k in a <==> k in multiset(a);
    }
    forall k | k in a && k != x ensures k in b {
      assert k in multiset(a);
      assert multiset(b)[k] == multiset(a)[k];
    }
  }

  // ------------------------------------------------------------------- Add

  /** Adding keeps the slice sorted, every map slot listed, every slot in
      range and every name at its own hash's slot. */
  lemma AddKeepsWellFormed(ring: Ring, node: GoString)
    requires WellFormed(ring)
    ensures WellFormed(Add(ring, node))
  {
    var r := Add(ring, node);
    MembersAfterGrow(ring.keys, r.keys, SlotOf(node, ring.maxSlot));
  }

  /** When the name's slot is free, adding keeps the slice strictly
      ascending and equal to the map's slots. */
  lemma AddKeepsExactWhenFree(ring: Ring, node: GoString)
    requires ring.maxSlot != 0
    requires Exact(ring)
    requires SlotOf(node, ring.maxSlot) !in ring.nodes
    ensures Exact(Add(ring, node))
  {
    var slot := SlotOf(node, ring.maxSlot);
    var r := Add(ring, node);
    assert Sorted(ring.keys);
    SortAppendIsInsert(ring.keys, slot);
    InsertKeepsStrict(ring.keys, slot);
    MembersAfterGrow(ring.keys, r.keys, slot);
  }

  /** Adding a name whose slot is already listed records it a second time,
      so the slice stops being strictly ascending. */
  lemma AddOccupiedBreaksStrict(ring: Ring, node: GoString)
    requires ring.maxSlot != 0
    requires SlotOf(node, ring.maxSlot) in ring.keys
    ensures !StrictlySorted(Add(ring, node).keys)
  {
    var slot := SlotOf(node, ring.maxSlot);
    var r := Add(ring, node);
    assert multiset(r.keys)[slot] >= 2 by {
      assert slot in multiset(ring.keys);
    }
    if StrictlySorted(r.keys) {
      StrictCountAtMostOne(r.keys, slot);
      assert false;
    }
  }

  /** Adding the same name twice is not the same as adding it once: the
      slice keeps one entry per call. */
  lemma AddNotIdempotent(ring: Ring, node: GoString)
    requires ring.maxSlot != 0
    ensures Add(Add(ring, node), node) != Add(ring, node)
  {
    var once := Add(ring, node);
    var twice := Add(once, node);
    assert |twice.keys| == |once.keys| + 1 by {
      assert |multiset(twice.keys)| == |multiset(once.keys)| + 1;
    }
  }

  // ---------------------------------------------------------------- Remove

  /** Removing keeps the slice sorted, every remaining map slot listed,
      every slot in range and every name at its own hash's slot. */
  lemma RemoveKeepsWellFormed(ring: Ring, node: GoString)
    requires WellFormed(ring)
    ensures WellFormed(Remove(ring, node).ring)
  {
    var r := Remove(ring, node);
    if r.found {
      MembersAfterShrink(ring.keys, r.ring.keys, SlotOf(node, ring.maxSlot));
    }
  }

  /** Removing keeps the slice strictly ascending and equal to the map's
      slots. */
  lemma RemoveKeepsExact(ring: Ring, node: GoString)
    requires ring.maxSlot != 0
    requires Exact(ring)
    ensures Exact(Remove(ring, node).ring)
  {
    var slot := SlotOf(node, ring.maxSlot);
    var r := Remove(ring, node);
    if r.found {
      RemoveFirstKeepsStrict(ring.keys, slot);
      MembersAfterShrink(ring.keys, r.ring.keys, slot);
    }
  }

  /** After a name is added twice and removed once, its slot is still
      listed but has no map entry: a stale slot. */
  lemma DoubleAddThenRemoveLeavesStale(ring: Ring, node: GoString)
    requires ring.maxSlot != 0
    ensures var slot := SlotOf(node, ring.maxSlot);
      var r := Remove(Add(Add(ring, node), node), node).ring;
      slot in r.keys && slot !in r.nodes
  {
    var slot := SlotOf(node, ring.maxSlot);
    var twice := Add(Add(ring, node), node);
    var r := Remove(twice, node).ring;
    assert multiset(twice.keys)[slot] >= 2;
    assert multiset(r.keys)[slot] >= 1;
    assert slot in multiset(r.keys);
  }

  /** Removing a name right after adding it to a free slot restores the
      ring exactly. */
  lemma RemoveUndoesAdd(ring: Ring, node: GoString)
    requires ring.maxSlot != 0
    requires Sorted(ring.keys)
    requires SlotOf(node, ring.maxSlot) !in ring.nodes
    ensures Remove(Add(ring, node), node) == Removal(ring, true)
  {
    var slot := SlotOf(node, ring.maxSlot);
    var added := Add(ring, node);
    var removal := Remove(added, node);
    assert removal.found;
    assert removal.ring.keys == RemoveFirst(SortInts(ring.keys + [slot]), slot);
    RemoveRestoresSlice(ring.keys, slot);
    assert removal.ring.nodes == ring.nodes[slot := node] - {slot};
    WriteThenDelete(ring.nodes, slot, node);
  }

  /** Writing a fresh map entry and deleting it gives back the map. */
  lemma WriteThenDelete(m: map<int, GoString>, k: int, v: GoString)
    requires k !in m
    ensures m[k := v] - {k} == m
  {
  }

  /** Splicing back out a value that was appended and sorted in gives
      back the sorted slice. */
  lemma RemoveRestoresSlice(keys: seq<int>, x: int)
    requires Sorted(keys)
    ensures RemoveFirst(SortInts(keys + [x]), x) == keys
  {
    var sorted := SortInts(keys + [x]);
    var r := RemoveFirst(sorted, x);
    RemoveFirstKeepsSorted(sorted, x);
    assert multiset(r) == multiset(keys);
    SortedPermutationUnique(r, keys);
  }

  /** Re-adding the name that a removal evicted restores the ring exactly. */
  lemma AddUndoesRemove(ring: Ring, node: GoString)
    requires ring.maxSlot != 0
    requires Sorted(ring.keys) && Covered(ring) && Placed(ring)
    requires SlotOf(node, ring.maxSlot) in ring.nodes
    ensures Add(Remove(ring, node).ring, ring.nodes[SlotOf(node, ring.maxSlot)]) == ring
  {
    var slot := SlotOf(node, ring.maxSlot);
    var removed := Remove(ring, node).ring;
    assert removed == ring.(nodes := ring.nodes - {slot}, keys := RemoveFirst(ring.keys, slot));
    ReinsertRestoresSlice(ring.keys, slot);
    ReinsertRestoresMap(ring.nodes, slot);
  }

  /** Deleting a map entry and writing it back gives back the map. */
  lemma ReinsertRestoresMap(m: map<int, GoString>, k: int)
    requires k in m
    ensures (m - {k})[k := m[k]] == m
  {
  }

  /** Sorting a sorted slice with one copy of `x` moved to the end gives
      back the slice. */
  lemma ReinsertRestoresSlice(keys: seq<int>, x: int)
    requires Sorted(keys)
    requires x in keys
    ensures SortInts(RemoveFirst(keys, x) + [x]) == keys
  {
    var r := SortInts(RemoveFirst(keys, x) + [x]);
    assert x in multiset(keys);
    assert multiset(r) == multiset(keys);
    SortedPermutationUnique(r, keys);
  }

  /** Names that collide share one slot: the later add overwrites the
      earlier name, and removing either name frees the slot. */
  lemma CollisionsAreSlotKeyed(ring: Ring, x: GoString, y: GoString)
    requires ring.maxSlot != 0
    requires SlotOf(x, ring.maxSlot) == SlotOf(y, ring.maxSlot)
    ensures var slot := SlotOf(x, ring.maxSlot);
      var both := Add(Add(ring, x), y);
      && both.nodes[slot] == y
      && Remove(both, x).found
      && slot !in Remove(both, x).ring.nodes
      && Remove(both, y).found
      && slot !in Remove(both, y).ring.nodes
  {
  }

  // ------------------------------------------------------------------- Get

  /** Lookup by linear scan: the largest listed slot not above `hash`, and
      the largest listed slot when every one is above it. */
  function LinearOwner(keys: seq<int>, hash: int): (slot: int)
    requires |keys| > 0
    ensures slot in keys
  {
    match MaxAtMost(keys, hash)
    case Some(v) => v
    case None => Max(keys)
  }

  /** On a sorted slice the binary-search resolution agrees with the scan. */
  lemma ResolveMatchesLinearScan(keys: seq<int>, hash: int)
    requires |keys| > 0
    requires Sorted(keys)
    ensures Resolve(keys, hash) == LinearOwner(keys, hash)
  {
    var i := Search(keys, hash);
    if i > 0 {
      LastAtMostIsLargest(keys, hash, i);
    } else {
      LastIsLargest(keys);
    }
  }

  /** In a sorted slice split at the first element above `hash`, the
      element just before the split is the largest not above `hash`. */
  lemma LastAtMostIsLargest(keys: seq<int>, hash: int, i: nat)
    requires Sorted(keys)
    requires 0 < i <= |keys|
    requires forall k :: 0 <= k < i ==> keys[k] <= hash
    requires forall k :: i <= k < |keys| ==> keys[k] > hash
    ensures MaxAtMost(keys, hash) == Some(keys[i - 1])
  {
    var v := MaxAtMost(keys, hash).value;
    var k :| 0 <= k < |keys| && keys[k] == v;
    assert k < i;
    assert keys[k] <= keys[i - 1];
  }

  /** The last element of a sorted slice is its largest. */
  lemma LastIsLargest(keys: seq<int>)
    requires Sorted(keys) && |keys| > 0
    ensures Max(keys) == keys[|keys| - 1]
  {
    var m := Max(keys);
    var k :| 0 <= k < |keys| && keys[k] == m;
    assert keys[k] <= keys[|keys| - 1];
  }

  /** A lookup on a sorted slice resolves to the slot the scan picks. */
  lemma GetMatchesLinearScan(ring: Ring, key: GoString)
    requires ring.maxSlot != 0
    requires |ring.keys| > 0
    requires Sorted(ring.keys)
    ensures Get(ring, key).slot == LinearOwner(ring.keys, Get(ring, key).hash)
  {
    ResolveMatchesLinearScan(ring.keys, Get(ring, key).hash);
  }

  /** A lookup resolves to the predecessor of the key's slot: the largest
      listed slot not above it, wrapping to the largest listed slot when
      every slot is above it. */
  lemma GetIsPredecessor(ring: Ring, key: GoString)
    requires ring.maxSlot != 0
    requires |ring.keys| > 0
    requires Sorted(ring.keys)
    ensures var g := Get(ring, key);
      && ((exists k :: k in ring.keys && k <= g.hash) ==>
            g.slot <= g.hash && forall k :: k in ring.keys && k <= g.hash ==> k <= g.slot)
      && ((forall k :: k in ring.keys ==> k > g.hash) ==>
            forall k :: k in ring.keys ==> k <= g.slot)
  {
    GetMatchesLinearScan(ring, key);
  }

  /** With nodes on slots 0, 5, 12, 18 and 19, a key on slot 14 resolves
      to slot 12 below it, not to slot 18 above it; a key on slot 20 or
      above wraps to slot 19, the largest. */
  lemma ResolveExamples()
    ensures Resolve([0, 5, 12, 18, 19], 14) == 12
    ensures Resolve([0, 5, 12, 18, 19], 25) == 19
    ensures Resolve([5, 12, 18, 19], 3) == 19
  {
  }

  /** Removing one copy of a slot does not move the scan's answer for any
      point the slot did not own. */
  lemma OwnerSurvivesRemoval(keys: seq<int>, s: int, hash: int)
    requires |keys| > 0
    requires LinearOwner(keys, hash) != s
    ensures |RemoveFirst(keys, s)| > 0
    ensures LinearOwner(RemoveFirst(keys, s), hash) == LinearOwner(keys, hash)
  {
    var o := LinearOwner(keys, hash);
    var rest := RemoveFirst(keys, s);
    MembersAfterShrink(keys, rest, s);
    assert o in rest;
    match MaxAtMost(keys, hash)
    case Some(v) =>
      var w := MaxAtMost(rest, hash);
      var k :| 0 <= k < |rest| && rest[k] == o;
      assert w.Some?;
      assert w.value in keys;
    case None =>
      var m := Max(rest);
      assert m in keys;
      var k :| 0 <= k < |rest| && rest[k] == o;
  }

  /** Minimal disruption: removing a node changes no lookup that resolved
      to some other slot, neither its slot nor its name. */
  lemma RemoveKeepsOtherLookups(ring: Ring, node: GoString, key: GoString)
    requires ring.maxSlot != 0
    requires |ring.keys| > 0
    requires Sorted(ring.keys)
    requires Get(ring, key).slot != SlotOf(node, ring.maxSlot)
    ensures |Remove(ring, node).ring.keys| > 0
    ensures Get(Remove(ring, node).ring, key) == Get(ring, key)
  {
    var r := Remove(ring, node);
    if r.found {
      var slot := SlotOf(node, ring.maxSlot);
      var g := Get(ring, key);
      GetMatchesLinearScan(ring, key);
      OwnerSurvivesRemoval(ring.keys, slot, g.hash);
      GetMatchesLinearScan(r.ring, key);
    }
  }

  /** Once a name is removed from a ring whose slice and map agree, no
      lookup resolves to that name. */
  lemma GetAfterRemoveAvoidsNode(ring: Ring, node: GoString, key: GoString)
    requires ring.maxSlot != 0
    requires Exact(ring) && Placed(ring)
    requires |Remove(ring, node).ring.keys| > 0
    ensures Get(Remove(ring, node).ring, key).name != node
  {
    var r := Remove(ring, node).ring;
    RemoveKeepsExact(ring, node);
    var g := Get(r, key);
    assert g.slot in r.nodes;
  }

  /** On any well-formed ring, including one with a stale slot left by a
      repeated `Add`, a lookup after removing a non-empty name never
      returns that name: a stale slot reads as the empty name, and a
      listed name sits at its own slot, which the removal vacated. */
  lemma GetAfterRemoveNeverReturnsNode(ring: Ring, node: GoString, key: GoString)
    requires WellFormed(ring)
    requires node != []
    requires |Remove(ring, node).ring.keys| > 0
    ensures Get(Remove(ring, node).ring, key).name != node
  {
  }

  // ------------------------------------------------------------------ runs

  /** One mutating call on the ring. */
  datatype Op = AddNode(name: GoString) | RemoveNode(name: GoString)

  function Apply(ring: Ring, op: Op): (r: Ring)
    requires ring.maxSlot != 0
    ensures r.maxSlot == ring.maxSlot
  {
    match op
    case AddNode(name) => Add(ring, name)
    case RemoveNode(name) => Remove(ring, name).ring
  }

  /** The ring after a sequence of calls, first to last. */
  function Run(ring: Ring, ops: seq<Op>): (r: Ring)
    requires ring.maxSlot != 0
    ensures r.maxSlot == ring.maxSlot
    decreases |ops|
  {
    if |ops| == 0 then ring else Run(Apply(ring, ops[0]), ops[1..])
  }

  /** Every ring reached from a well-formed one, in particular from a new
      ring, is well-formed. */
  lemma {:induction false} RunKeepsWellFormed(ring: Ring, ops: seq<Op>)
    requires WellFormed(ring)
    ensures WellFormed(Run(ring, ops))
    decreases |ops|
  {
    if |ops| > 0 {
      match ops[0] {
        case AddNode(name) => AddKeepsWellFormed(ring, name);
        case RemoveNode(name) => RemoveKeepsWellFormed(ring, name);
      }
      RunKeepsWellFormed(Apply(ring, ops[0]), ops[1..]);
    }
  }
}
