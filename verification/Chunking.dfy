/** Greedy splitting of a byte string into chunks under a wire-byte budget: the arithmetic core of
    `SerializePacketState::next` (`mctp-rs/src/serialize.rs:61-90`), without packets. */
module Chunking {
  import opened Wrappers
  import opened BufferEncoding
  import opened Sequences

  /** `k` bytes fit the budget and one more would not. */
  ghost predicate IsGreedy(e: Encoding, budget: nat, bytes: seq<U8>, k: nat) {
    && k <= |bytes|
    && WireSizeOf(e, bytes[..k]) <= budget
    && (k < |bytes| ==> WireSizeOf(e, bytes[..k + 1]) > budget)
  }

  lemma {:induction false} PrefixNoLarger(e: Encoding, bytes: seq<U8>, j: nat, k: nat)
    requires j <= k <= |bytes|
    ensures WireSizeOf(e, bytes[..j]) + (k - j) <= WireSizeOf(e, bytes[..k])
  {
    assert bytes[..k] == bytes[..j] + bytes[j..k];
    WireSizeAdditive(e, bytes[..j], bytes[j..k]);
    WireSizeBounds(e, bytes[j..k]);
  }

  lemma {:induction false} GreedyIsUnique(e: Encoding, budget: nat, bytes: seq<U8>, j: nat, k: nat)
    requires IsGreedy(e, budget, bytes, j) && IsGreedy(e, budget, bytes, k)
    ensures j == k
  {
    if j < k {
      PrefixNoLarger(e, bytes, j + 1, k);
    } else if k < j {
      PrefixNoLarger(e, bytes, k + 1, j);
    }
  }

  /** The greedy chunk length: the longest prefix that fits. */
  function TakeCount(e: Encoding, budget: nat, bytes: seq<U8>): (k: nat)
    ensures IsGreedy(e, budget, bytes, k)
  {
    if bytes == [] then 0
    else
      var k := TakeCount(e, budget, bytes[..|bytes| - 1]);
      assert bytes[..|bytes| - 1][..k] == bytes[..k];
      assert k < |bytes| - 1 ==> bytes[..|bytes| - 1][..k + 1] == bytes[..k + 1];
      assert bytes[..|bytes|] == bytes;
      if k == |bytes| - 1 && WireSizeOf(e, bytes) <= budget then |bytes| else k
  }

  /** The first byte fits on its own exactly when the greedy chunk is not empty. */
  lemma {:induction false} TakeIsPositive(e: Encoding, budget: nat, bytes: seq<U8>)
    requires bytes != []
    ensures TakeCount(e, budget, bytes) > 0 <==> |EncodeByte(e, bytes[0])| <= budget
  {
    EncodeOne(e, bytes[0]);
    assert bytes[..1] == [bytes[0]];
    if |EncodeByte(e, bytes[0])| > budget && TakeCount(e, budget, bytes) > 0 {
      PrefixNoLarger(e, bytes, 1, TakeCount(e, budget, bytes));
    }
  }

  predicate EveryByteFits(e: Encoding, budget: nat, bytes: seq<U8>) {
    forall b | b in bytes :: |EncodeByte(e, b)| <= budget
  }

  /** The greedy split. */
  function Chunks(e: Encoding, budget: nat, bytes: seq<U8>): seq<seq<U8>>
    requires EveryByteFits(e, budget, bytes)
  {
    if bytes == [] then []
    else
      var k := TakeCount(e, budget, bytes);
      assert k > 0 by { TakeIsPositive(e, budget, bytes); }
      [bytes[..k]] + Chunks(e, budget, bytes[k..])
  }

  /** Splitting loses and reorders nothing. */
  lemma {:induction false} ChunksFlatten(e: Encoding, budget: nat, bytes: seq<U8>)
    requires EveryByteFits(e, budget, bytes)
    ensures Flatten(Chunks(e, budget, bytes)) == bytes
  {
    if bytes == [] {
    } else {
      var k := TakeCount(e, budget, bytes);
      TakeIsPositive(e, budget, bytes);
      ChunksFlatten(e, budget, bytes[k..]);
      FlattenCons(bytes[..k], Chunks(e, budget, bytes[k..]));
    }
  }

  lemma {:induction false} HeadOfFlatten(chunks: seq<seq<U8>>)
    requires chunks != [] && chunks[0] != []
    ensures Flatten(chunks) != [] && Flatten(chunks)[0] == chunks[0][0]
  {
    assert chunks == [chunks[0]] + chunks[1..];
    FlattenCons(chunks[0], chunks[1..]);
  }

  /** Every chunk is non-empty and fits, and none had room for the first byte of the next. */
  lemma {:induction false} ChunkAt(e: Encoding, budget: nat, bytes: seq<U8>, i: nat)
    requires EveryByteFits(e, budget, bytes)
    requires i < |Chunks(e, budget, bytes)|
    ensures var cs := Chunks(e, budget, bytes);
            && cs[i] != [] && WireSizeOf(e, cs[i]) <= budget
            && (i + 1 < |cs| ==> cs[i + 1] != [] && WireSizeOf(e, cs[i] + cs[i + 1][..1]) > budget)
    decreases |bytes|
  {
    var k := TakeCount(e, budget, bytes);
    TakeIsPositive(e, budget, bytes);
    var rest := Chunks(e, budget, bytes[k..]);
    if i > 0 {
      ChunkAt(e, budget, bytes[k..], i - 1);
    } else if rest != [] {
      ChunkAt(e, budget, bytes[k..], 0);
      ChunksFlatten(e, budget, bytes[k..]);
      HeadOfFlatten(rest);
      assert bytes[..k] + rest[0][..1] == bytes[..k + 1];
    }
  }

  /** A suffix never needs more chunks than the whole. */
  lemma {:induction false} SuffixNeedsNoMore(e: Encoding, budget: nat, bytes: seq<U8>, j: nat)
    requires j <= |bytes|
    requires EveryByteFits(e, budget, bytes)
    ensures |Chunks(e, budget, bytes[j..])| <= |Chunks(e, budget, bytes)|
    decreases |bytes|, |bytes| - j
  {
    if j == |bytes| {
    } else if j == 0 {
      assert bytes[0..] == bytes;
    } else {
      var k := TakeCount(e, budget, bytes);
      TakeIsPositive(e, budget, bytes);
      if k <= j {
        assert bytes[j..] == bytes[k..][j - k..];
        SuffixNeedsNoMore(e, budget, bytes[k..], j - k);
      } else {
        var tail := bytes[j..];
        var k' := TakeCount(e, budget, tail);
        TakeIsPositive(e, budget, tail);
        TailTakesFurther(e, budget, bytes, j);
        assert tail[k'..] == bytes[k..][j + k' - k..];
        SuffixNeedsNoMore(e, budget, bytes[k..], j + k' - k);
      }
    }
  }

  lemma {:induction false} TailTakesFurther(e: Encoding, budget: nat, bytes: seq<U8>, j: nat)
    requires j <= TakeCount(e, budget, bytes)
    ensures TakeCount(e, budget, bytes) <= j + TakeCount(e, budget, bytes[j..])
  {
    hide EncodeAll, EncodeByte, StuffedSize, WireSizeOf;
    var k, k' := TakeCount(e, budget, bytes), TakeCount(e, budget, bytes[j..]);
    var middle := bytes[j..][..k - j];
    assert bytes[..k] == bytes[..j] + middle;
    WireSizeAdditive(e, bytes[..j], middle);
    if j + k' < k {
      PrefixNoLarger(e, bytes[j..], k' + 1, k - j);
    }
  }

  /** Greedy is optimal: no other way of cutting the message into chunks that fit uses fewer. */
  lemma {:induction false} GreedyUsesFewest(e: Encoding, budget: nat, bytes: seq<U8>, other: seq<seq<U8>>)
    requires EveryByteFits(e, budget, bytes)
    requires Flatten(other) == bytes
    requires forall c | c in other :: WireSizeOf(e, c) <= budget
    ensures |Chunks(e, budget, bytes)| <= |other|
    decreases |other|
  {
    hide EncodeAll, StuffedSize, WireSizeOf, EncodeByte;
    if other == [] {
    } else if bytes != [] {
      var first, rest := other[0], other[1..];
      assert other == [first] + rest;
      FlattenCons(first, rest);
      var j := |first|;
      assert bytes[..j] == first && bytes[j..] == Flatten(rest);
      GreedyUsesFewest(e, budget, bytes[j..], rest);
      var k := TakeCount(e, budget, bytes);
      TakeIsPositive(e, budget, bytes);
      if k < j {
        PrefixNoLarger(e, bytes, k + 1, j);
      }
      assert bytes[k..] == bytes[j..][k - j..];
      SuffixNeedsNoMore(e, budget, bytes[j..], k - j);
    }
  }

  /** Without stuffing every chunk but the last is full: the number of chunks is the size of the
      message divided by the budget, rounded up. */
  lemma {:induction false} PassthroughChunkCount(budget: nat, bytes: seq<U8>)
    requires budget > 0 && bytes != []
    ensures var n := |Chunks(Passthrough, budget, bytes)|;
            budget * (n - 1) < |bytes| <= budget * n
  {
    hide EncodeAll, StuffedSize, TakeCount, EncodeByte;
    var k := TakeCount(Passthrough, budget, bytes);
    assert k == if |bytes| <= budget then |bytes| else budget;
    if |bytes| > budget {
      PassthroughChunkCount(budget, bytes[k..]);
      RoundUpStep(budget, |Chunks(Passthrough, budget, bytes[k..])|, |bytes|);
    } else {
      assert Chunks(Passthrough, budget, bytes[k..]) == [];
    }
  }

  lemma {:induction false} RoundUpStep(budget: nat, n: nat, size: nat)
    requires budget * (n - 1) < size - budget <= budget * n
    ensures budget * n < size <= budget * (n + 1)
  {
  }
}
