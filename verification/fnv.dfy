/** The 32-bit FNV-1a hash (Fowler-Noll-Vo) that the ring applies to the
    bytes of node names and lookup keys. */
module Fnv {

  const OffsetBasis: bv32 := 2166136261
  const Prime: bv32 := 16777619

  /** One FNV-1a round: xor the byte into the state, then multiply by the
      FNV prime modulo 2^32. */
  function Step(h: bv32, b: bv8): bv32 {
    (h ^ (b as bv32)) * Prime
  }

  /** The hash of `data`: the offset basis folded through `Step` over the
      bytes, last byte applied last. It is the state a fresh hash reaches
      when the bytes are streamed into it from the front. */
  function Sum32(data: seq<bv8>): (r: bv32)
    ensures r == SumFrom(OffsetBasis, data)
    decreases |data|
  {
    if |data| == 0 then OffsetBasis
    else
      var p := data[..|data| - 1];
      var b := data[|data| - 1];
      assert p + [b] == data;
      SumFromSnoc(OffsetBasis, p, b);
      Step(Sum32(p), b)
  }

  /** The streaming form: a fresh state fed every byte in order, as the
      hash object's Write does, ends in `Sum32(data)`. */
  method Write(data: seq<bv8>) returns (h: bv32)
    ensures h == Sum32(data)
  {
    h := OffsetBasis;
    var i := 0;
    while i < |data|
      invariant 0 <= i <= |data|
      invariant h == Sum32(data[..i])
    {
      assert data[..i + 1][..i] == data[..i];
      h := Step(h, data[i]);
      i := i + 1;
    }
    assert data[..i] == data;
  }

  /** The state after streaming `data` into a hash whose state is `h`:
      the first byte is applied first. */
  function SumFrom(h: bv32, data: seq<bv8>): bv32
    decreases |data|
  {
    if |data| == 0 then h
    else SumFrom(Step(h, data[0]), data[1..])
  }

  /** Streaming one more byte after `data` applies one more round. */
  lemma {:induction false} SumFromSnoc(h: bv32, data: seq<bv8>, b: bv8)
    ensures SumFrom(h, data + [b]) == Step(SumFrom(h, data), b)
    decreases |data|
  {
    if |data| > 0 {
      assert (data + [b])[1..] == data[1..] + [b];
      SumFromSnoc(Step(h, data[0]), data[1..], b);
    }
  }

  /** Hashing is a left fold: the hash of a concatenation continues from
      the hash of its first part. */
  lemma {:induction false} Sum32Concat(a: seq<bv8>, b: seq<bv8>)
    ensures Sum32(a + b) == SumFrom(Sum32(a), b)
  {
    StreamConcat(OffsetBasis, a, b);
  }

  /** Streaming two pieces one after the other is streaming their
      concatenation. */
  lemma {:induction false} StreamConcat(h: bv32, a: seq<bv8>, b: seq<bv8>)
    ensures SumFrom(h, a + b) == SumFrom(SumFrom(h, a), b)
    decreases |a|
  {
    if |a| == 0 {
      assert a + b == b;
    } else {
      assert (a + b)[1..] == a[1..] + b;
      StreamConcat(Step(h, a[0]), a[1..], b);
    }
  }

  /** Published FNV-1a test vectors: "", "a" and "foobar". */
  lemma TestVectors()
    ensures Sum32([]) == 0x811c9dc5
    ensures Sum32([0x61]) == 0xe40c292c
    ensures Sum32([0x66, 0x6f, 0x6f, 0x62, 0x61, 0x72]) == 0xbf9cf968
  {
    var foobar: seq<bv8> := [0x66, 0x6f, 0x6f, 0x62, 0x61, 0x72];
    var states: seq<bv32> := [0x811c9dc5, 0xe30c2799, 0x6222e842, 0xa9f37ed7, 0x3f5076ef, 0x39aaa18a, 0xbf9cf968];
    assert Sum32(foobar[..0]) == states[0];
    assert Sum32(foobar[..1]) == Step(states[0], 0x66) == states[1] by {
      assert foobar[..1][..0] == foobar[..0];
    }
    assert Sum32(foobar[..2]) == Step(states[1], 0x6f) == states[2] by {
      assert foobar[..2][..1] == foobar[..1];
    }
    assert Sum32(foobar[..3]) == Step(states[2], 0x6f) == states[3] by {
      assert foobar[..3][..2] == foobar[..2];
    }
    assert Sum32(foobar[..4]) == Step(states[3], 0x62) == states[4] by {
      assert foobar[..4][..3] == foobar[..3];
    }
    assert Sum32(foobar[..5]) == Step(states[4], 0x61) == states[5] by {
      assert foobar[..5][..4] == foobar[..4];
    }
    assert Sum32(foobar) == Step(states[5], 0x72) == states[6] by {
      assert foobar[..5] == foobar[..|foobar| - 1];
    }
  }
}
