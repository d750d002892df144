/** Concatenations and overwritten stretches of byte sequences. */
module Sequences {
  import opened Wrappers

  function Flatten(chunks: seq<seq<U8>>): seq<U8> {
    if chunks == [] then [] else Flatten(chunks[..|chunks| - 1]) + chunks[|chunks| - 1]
  }

  lemma {:induction false} FlattenAppend(p: seq<seq<U8>>, q: seq<seq<U8>>)
    ensures Flatten(p + q) == Flatten(p) + Flatten(q)
  {
    if q == [] {
      assert p + q == p;
    } else {
      FlattenAppend(p, q[..|q| - 1]);
      assert (p + q)[..|p + q| - 1] == p + q[..|q| - 1];
    }
  }

  lemma {:induction false} FlattenOne(chunk: seq<U8>)
    ensures Flatten([chunk]) == chunk
  {
    assert Flatten([chunk]) == Flatten([chunk][..0]) + chunk;
  }

  lemma {:induction false} FlattenNothing()
    ensures Flatten([]) == []
  {
  }

  lemma {:induction false} FlattenCons(chunk: seq<U8>, rest: seq<seq<U8>>)
    ensures Flatten([chunk] + rest) == chunk + Flatten(rest)
  {
    FlattenAppend([chunk], rest);
    FlattenOne(chunk);
  }

  /** `bytes` written over `buffer` from `index` on. */
  function Overwrite(buffer: seq<U8>, index: nat, bytes: seq<U8>): (r: seq<U8>)
    requires index + |bytes| <= |buffer|
    ensures |r| == |buffer| && r[..index] == buffer[..index]
    ensures r[..index + |bytes|] == buffer[..index] + bytes
  {
    buffer[..index] + bytes + buffer[index + |bytes|..]
  }

  lemma {:induction false} OverwriteTwice(buffer: seq<U8>, index: nat, a: seq<U8>, b: seq<U8>)
    requires index + |a| + |b| <= |buffer|
    ensures Overwrite(Overwrite(buffer, index, a), index + |a|, b) == Overwrite(buffer, index, a + b)
  {
  }

  /** Bytes written in front of a stretch that is already in place. */
  lemma {:induction false} OverwriteBefore(buffer: seq<U8>, index: nat, a: seq<U8>, b: seq<U8>)
    requires index + |a| + |b| <= |buffer| && buffer[index + |a|..index + |a| + |b|] == b
    ensures Overwrite(buffer, index, a) == Overwrite(buffer, index, a + b)
  {
    var rest := buffer[index + |a|..];
    assert rest == rest[..|b|] + rest[|b|..];
    assert rest[|b|..] == buffer[index + |a + b|..];
  }

  /** Copies `bytes` to `buf[at..]`, as `copy_from_slice` does. */
  method Copy(buf: array<U8>, at: nat, bytes: seq<U8>)
    requires at + |bytes| <= buf.Length
    modifies buf
    ensures buf[..] == Overwrite(old(buf[..]), at, bytes)
  {
    forall i | 0 <= i < |bytes| {
      buf[at + i] := bytes[i];
    }
  }
}
