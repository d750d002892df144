/** `map_slice_join` of the CFU splitter (`cfu-service/src/splitter.rs`): a slice mapped into another
    four items at a time. */
module SliceJoin {
  import opened Wrappers

  /** The place of the first item on which `f` fails, or the length. */
  function FirstFailure<I, O>(f: I -> Option<O>, items: seq<I>): (k: nat)
    ensures k <= |items|
    ensures forall i :: 0 <= i < k ==> f(items[i]).Some?
    ensures k < |items| ==> f(items[k]).None?
  {
    if items == [] || f(items[0]).None? then 0 else 1 + FirstFailure(f, items[1..])
  }

  /** How many items are written: all of them if none fails, otherwise the groups of four before the
      failure. */
  function Written<I, O>(f: I -> Option<O>, items: seq<I>): nat {
    var k := FirstFailure(f, items);
    if k == |items| then k else k / 4 * 4
  }

  /** The next place of the zipped iterator, which keeps returning nothing once it is at its end. */
  method Next(at: nat, end: nat) returns (k: Option<nat>, after: nat)
    requires at <= end
    ensures k == if at < end then Some(at) else None
    ensures after == if at < end then at + 1 else at
  {
    if at < end {
      return Some(at), at + 1;
    }
    return None, at;
  }

  lemma {:induction false} FailureAt<I, O>(f: I -> Option<O>, items: seq<I>, done: nat, bad: nat)
    requires done % 4 == 0 && done <= bad < |items| && bad < done + 4
    requires forall i :: 0 <= i < done ==> f(items[i]).Some?
    requires f(items[bad]).None?
    ensures Written(f, items) == done
  {
  }

  /** A failure costs the items before it that are in its own group of four, and no others. */
  lemma {:induction false} WholeGroupsWritten<I, O>(f: I -> Option<O>, items: seq<I>, bad: nat)
    requires bad < |items| && f(items[bad]).None? && forall i :: 0 <= i < bad ==> f(items[i]).Some?
    ensures Written(f, items) % 4 == 0 && Written(f, items) <= bad < Written(f, items) + 4
  {
  }

  lemma {:induction false} NoFailure<I, O>(f: I -> Option<O>, items: seq<I>)
    requires forall i :: 0 <= i < |items| ==> f(items[i]).Some?
    ensures Written(f, items) == |items|
  {
  }

  /** True exactly when `f` succeeds on every zipped item. Whether or not it does, the first `Written`
      places of the output are mapped and the others untouched. */
  method MapSliceJoin<I, O>(input: seq<I>, output: array<O>, f: I -> Option<O>) returns (ok: bool)
    modifies output
    ensures
      var items := input[..Min(|input|, output.Length)];
      var w := Written(f, items);
      && (ok <==> forall i :: 0 <= i < |items| ==> f(items[i]).Some?)
      && w <= |items| && (ok ==> w == |items|)
      && (forall i :: 0 <= i < w ==> f(items[i]).Some? && output[i] == f(items[i]).value)
      && forall i :: w <= i < output.Length ==> output[i] == old(output[i])
  {
    hide Written, FirstFailure;
    var end := Min(|input|, output.Length);
    ghost var items := input[..end];
    var at := 0;
    while true
      invariant at <= end && (at % 4 == 0 || at == end)
      invariant forall i :: 0 <= i < at ==> f(items[i]).Some? && output[i] == f(items[i]).value
      invariant forall i :: at <= i < output.Length ==> output[i] == old(output[i])
      decreases end - at
    {
      ghost var done := at;
      var k0, k1, k2, k3;
      k0, at := Next(at, end);
      k1, at := Next(at, end);
      k2, at := Next(at, end);
      k3, at := Next(at, end);
      assert at == Min(done + 4, end);
      if k0.None? && k1.None? && k2.None? && k3.None? {
        NoFailure(f, items);
        return true;
      } else if k0.Some? && k1.None? && k2.None? && k3.None? {
        var i0 := k0.value;
        var r0 := f(input[i0]);
        if r0.None? {
          FailureAt(f, items, done, i0);
          return false;
        }
        output[i0] := r0.value;
      } else if k0.Some? && k1.Some? && k2.None? && k3.None? {
        var i0, i1 := k0.value, k1.value;
        var r0, r1 := f(input[i0]), f(input[i1]);
        if r0.None? || r1.None? {
          FailureAt(f, items, done, if r0.None? then i0 else i1);
          return false;
        }
        output[i0], output[i1] := r0.value, r1.value;
      } else if k0.Some? && k1.Some? && k2.Some? && k3.None? {
        var i0, i1, i2 := k0.value, k1.value, k2.value;
        var r0, r1, r2 := f(input[i0]), f(input[i1]), f(input[i2]);
        if r0.None? || r1.None? || r2.None? {
          FailureAt(f, items, done, if r0.None? then i0 else if r1.None? then i1 else i2);
          return false;
        }
        output[i0], output[i1], output[i2] := r0.value, r1.value, r2.value;
      } else if k0.Some? && k1.Some? && k2.Some? && k3.Some? {
        var i0, i1, i2, i3 := k0.value, k1.value, k2.value, k3.value;
        var r0, r1, r2, r3 := f(input[i0]), f(input[i1]), f(input[i2]), f(input[i3]);
        if r0.None? || r1.None? || r2.None? || r3.None? {
          FailureAt(f, items, done, if r0.None? then i0 else if r1.None? then i1 else if r2.None? then i2 else i3);
          return false;
        }
        output[i0], output[i1], output[i2], output[i3] := r0.value, r1.value, r2.value, r3.value;
      } else {
        // the iterator is fused: nothing follows a None
        assert false;
      }
    }
  }
}
