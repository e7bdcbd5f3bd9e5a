/** The slot slice of the ring and the three library operations applied to
    it: sorting after an append, binary search for the first slot above a
    point, and splicing out the first occurrence of a slot. */
module IntSeq {

  datatype Option<T> = None | Some(value: T)

  /** Non-decreasing, the order a sort of ints establishes. */
  predicate Sorted(s: seq<int>) {
    forall i, j :: 0 <= i < j < |s| ==> s[i] <= s[j]
  }

  /** Strictly ascending: sorted, and no value occurs twice. */
  predicate StrictlySorted(s: seq<int>) {
    forall i, j :: 0 <= i < j < |s| ==> s[i] < s[j]
  }

  // ---------------------------------------------------------------- sorting

  /** `x` placed into sorted `s` before the first element not below it. */
  function Insert(s: seq<int>, x: int): (r: seq<int>)
    requires Sorted(s)
    ensures Sorted(r)
    ensures multiset(r) == multiset(s) + multiset{x}
    ensures |r| == |s| + 1
    ensures r[0] == x || (|s| > 0 && r[0] == s[0])
  {
    if |s| == 0 then [x]
    else if x <= s[0] then
      ConsSorted(x, s);
      [x] + s
    else
      var t := Insert(s[1..], x);
      assert multiset([s[0]] + t) == multiset(s) + multiset{x} by {
        assert s == [s[0]] + s[1..];
      }
      ConsSorted(s[0], t);
      [s[0]] + t
  }

  /** A value no greater than the head of a sorted slice may lead it. */
  lemma ConsSorted(x: int, s: seq<int>)
    requires Sorted(s)
    requires |s| == 0 || x <= s[0]
    ensures Sorted([x] + s)
  {
  }

  /** Sorting a slice of ints: the result is ordered and holds exactly the
      input's elements, each as many times. */
  function SortInts(s: seq<int>): (r: seq<int>)
    ensures Sorted(r)
    ensures multiset(r) == multiset(s)
    decreases |s|
  {
    if |s| == 0 then []
    else
      assert s == s[..|s| - 1] + [s[|s| - 1]];
      Insert(SortInts(s[..|s| - 1]), s[|s| - 1])
  }

  /** Two sorted sequences with the same elements are equal, so every
      correct sort of a slice yields the same result. */
  lemma {:induction false} SortedPermutationUnique(a: seq<int>, b: seq<int>)
    requires Sorted(a) && Sorted(b)
    requires multiset(a) == multiset(b)
    ensures a == b
    decreases |a|
  {
    assert |a| == |multiset(a)| == |multiset(b)| == |b|;
    if |a| > 0 {
      SortedHeadIsLeast(a, b[0]);
      SortedHeadIsLeast(b, a[0]);
      TailsPermutation(a, b);
      SortedPermutationUnique(a[1..], b[1..]);
      assert a == [a[0]] + a[1..] && b == [b[0]] + b[1..];
    }
  }

  /** The head of a sorted slice is at most any of its elements. */
  lemma SortedHeadIsLeast(s: seq<int>, x: int)
    requires Sorted(s) && x in multiset(s)
    ensures s[0] <= x
  {
    var i :| 0 <= i < |s| && s[i] == x;
  }

  /** Slices with equal heads and equal multisets have equal tails' multisets. */
  lemma TailsPermutation(a: seq<int>, b: seq<int>)
    requires |a| > 0 && |b| > 0 && a[0] == b[0]
    requires multiset(a) == multiset(b)
    ensures multiset(a[1..]) == multiset(b[1..])
  {
    assert a == [a[0]] + a[1..] && b == [b[0]] + b[1..];
    assert multiset(a[1..]) == multiset(a) - multiset{a[0]};
    assert multiset(b[1..]) == multiset(b) - multiset{b[0]};
  }

  /** Appending to a sorted slice and sorting again is an insertion. */
  lemma SortAppendIsInsert(s: seq<int>, x: int)
    requires Sorted(s)
    ensures SortInts(s + [x]) == Insert(s, x)
  {
    SortedPermutationUnique(SortInts(s + [x]), Insert(s, x));
  }

  /** Inserting a value that is not yet present keeps a slice strictly
      ascending. */
  lemma {:induction false} InsertKeepsStrict(s: seq<int>, x: int)
    requires StrictlySorted(s)
    requires x !in s
    ensures StrictlySorted(Insert(s, x))
    decreases |s|
  {
    if |s| > 0 {
      if x < s[0] {
        ConsStrict(x, s);
      } else {
        assert x != s[0];
        InsertKeepsStrict(s[1..], x);
        ConsStrict(s[0], Insert(s[1..], x));
      }
    }
  }

  /** A value below the head of a strictly ascending slice may lead it. */
  lemma ConsStrict(x: int, s: seq<int>)
    requires StrictlySorted(s)
    requires |s| == 0 || x < s[0]
    ensures StrictlySorted([x] + s)
  {
  }

  /** In a strictly ascending slice no value occurs more than once. */
  lemma {:induction false} StrictCountAtMostOne(s: seq<int>, x: int)
    requires StrictlySorted(s)
    ensures multiset(s)[x] <= 1
    decreases |s|
  {
    if |s| > 0 {
      assert s == [s[0]] + s[1..];
      StrictCountAtMostOne(s[1..], x);
      if x == s[0] {
        assert x !in s[1..];
      }
    }
  }

  // --------------------------------------------------------------- splicing

  /** The index of the first occurrence of `x`, or `|s|` when there is none. */
  function IndexOf(s: seq<int>, x: int): (i: nat)
    ensures i <= |s|
    ensures i < |s| ==> s[i] == x
    ensures forall k :: 0 <= k < i ==> s[k] != x
  {
    if |s| == 0 || s[0] == x then 0 else 1 + IndexOf(s[1..], x)
  }

  /** The slice with its first occurrence of `x` spliced out; unchanged when
      `x` does not occur. */
  function RemoveFirst(s: seq<int>, x: int): (r: seq<int>)
    ensures multiset(r) == multiset(s) - multiset{x}
    ensures x !in s ==> r == s
  {
    var i := IndexOf(s, x);
    if i == |s| then s
    else
      assert s == s[..i] + [s[i]] + s[i + 1..];
      s[..i] + s[i + 1..]
  }

  /** Splicing keeps the other elements in their order: the result is the
      input with exactly the first `x` skipped. */
  lemma RemoveFirstSkipsFirstOccurrence(s: seq<int>, x: int)
    requires x in s
    ensures var i := IndexOf(s, x);
      && |RemoveFirst(s, x)| == |s| - 1
      && (forall k :: 0 <= k < i ==> RemoveFirst(s, x)[k] == s[k])
      && (forall k :: i <= k < |s| - 1 ==> RemoveFirst(s, x)[k] == s[k + 1])
  {
    var i := IndexOf(s, x);
    var r := RemoveFirst(s, x);
    assert r == s[..i] + s[i + 1..];
  }

  /** Splicing an element out keeps a sorted slice sorted. */
  lemma RemoveFirstKeepsSorted(s: seq<int>, x: int)
    ensures Sorted(s) ==> Sorted(RemoveFirst(s, x))
  {
    if x in s {
      RemoveFirstSkipsFirstOccurrence(s, x);
    }
  }

  /** Splicing an element out of a strictly ascending slice keeps it
      strictly ascending and leaves no copy of that element behind. */
  lemma RemoveFirstKeepsStrict(s: seq<int>, x: int)
    requires StrictlySorted(s)
    ensures StrictlySorted(RemoveFirst(s, x))
    ensures x !in RemoveFirst(s, x)
  {
    StrictCountAtMostOne(s, x);
    if x in s {
      RemoveFirstSkipsFirstOccurrence(s, x);
    }
    assert multiset(RemoveFirst(s, x))[x] == 0;
  }

  // -------------------------------------------------------------- searching

  /** The reference meaning of searching for the first element above `x`:
      a left-to-right scan. Every element before the result is at most `x`;
      the element at the result, if any, is above it. */
  function FirstAbove(s: seq<int>, x: int): (i: nat)
    ensures i <= |s|
    ensures forall k :: 0 <= k < i ==> s[k] <= x
    ensures i < |s| ==> s[i] > x
  {
    if |s| == 0 || s[0] > x then 0 else 1 + FirstAbove(s[1..], x)
  }

  /** The bisection of the library's search, restricted to the index range
      `[i, j)` with the predicate "element above `x`". It halves the range
      at the midpoint until it is empty. */
  function Bisect(s: seq<int>, x: int, i: int, j: int): (r: int)
    requires 0 <= i <= j <= |s|
    ensures i <= r <= j
    decreases j - i
  {
    if i < j then
      var h := (i + j) / 2;
      if !(s[h] > x) then Bisect(s, x, h + 1, j) else Bisect(s, x, i, h)
    else i
  }

  /** The library search over the whole slice. On a sorted slice it is the
      smallest index whose element is above `x`, or the length when there
      is none. */
  function Search(s: seq<int>, x: int): (r: nat)
    ensures r <= |s|
    ensures Sorted(s) ==> r == FirstAbove(s, x)
  {
    var r := Bisect(s, x, 0, |s|);
    assert Sorted(s) ==> r == FirstAbove(s, x) by {
      if Sorted(s) {
        BisectFindsFirstAbove(s, x, 0, |s|);
      }
    }
    r
  }

  /** On a sorted slice the bisection finds what the linear scan finds,
      provided the range it starts from brackets the answer. */
  lemma {:induction false} BisectFindsFirstAbove(s: seq<int>, x: int, i: int, j: int)
    requires Sorted(s)
    requires 0 <= i <= j <= |s|
    requires forall k :: 0 <= k < i ==> s[k] <= x
    requires forall k :: j <= k < |s| ==> s[k] > x
    ensures Bisect(s, x, i, j) == FirstAbove(s, x)
    decreases j - i
  {
    if i < j {
      var h := (i + j) / 2;
      if !(s[h] > x) {
        BisectFindsFirstAbove(s, x, h + 1, j);
      } else {
        BisectFindsFirstAbove(s, x, i, h);
      }
    }
  }

  /** The library search written as its loop: it computes the bisection,
      which on a sorted slice is the first index whose element is above
      `x`. */
  method SortSearch(s: seq<int>, x: int) returns (r: nat)
    ensures r == Search(s, x)
    ensures r <= |s|
    ensures Sorted(s) ==> r == FirstAbove(s, x)
  {
    var i, j := 0, |s|;
    while i < j
      invariant 0 <= i <= j <= |s|
      invariant Bisect(s, x, i, j) == Bisect(s, x, 0, |s|)
      decreases j - i
    {
      var h := (i + j) / 2;
      if !(s[h] > x) {
        i := h + 1;
      } else {
        j := h;
      }
    }
    r := i;
  }

  // ------------------------------------------------------ largest elements

  /** The largest element. */
  function Max(s: seq<int>): (m: int)
    requires |s| > 0
    ensures m in s
    ensures forall k :: 0 <= k < |s| ==> s[k] <= m
  {
    if |s| == 1 then s[0]
    else
      var t := Max(s[1..]);
      if s[0] >= t then s[0] else t
  }

  /** The largest element not above `x`, if any element is. */
  function MaxAtMost(s: seq<int>, x: int): (r: Option<int>)
    ensures r.Some? ==> r.value in s && r.value <= x
    ensures r.Some? ==> forall k :: 0 <= k < |s| && s[k] <= x ==> s[k] <= r.value
    ensures r.None? <==> forall k :: 0 <= k < |s| ==> s[k] > x
  {
    if |s| == 0 then None
    else
      match MaxAtMost(s[1..], x)
      case None => if s[0] <= x then Some(s[0]) else None
      case Some(v) => if s[0] <= x && s[0] > v then Some(s[0]) else Some(v)
  }
}
