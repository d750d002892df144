/** Ghost detection of the keyboard scanner (`keyboard-service/src/gpio_kb.rs`): bit-packed columns,
    compared pairwise, against the plain statement about the key matrix. */
module GhostKeys {

  // ---------------------------------------------------------------- unsigned words, bit by bit

  function Pow2(n: nat): (p: nat)
    ensures p > 0
  {
    if n == 0 then 1 else 2 * Pow2(n - 1)
  }

  /** Bit `k` of a word. */
  predicate Bit(x: nat, k: nat) {
    if k == 0 then x % 2 == 1 else Bit(x / 2, k - 1)
  }

  function Or(a: nat, b: nat): nat {
    if a == 0 then b
    else if b == 0 then a
    else 2 * Or(a / 2, b / 2) + if a % 2 == 1 || b % 2 == 1 then 1 else 0
  }

  function And(a: nat, b: nat): nat {
    if a == 0 || b == 0 then 0
    else 2 * And(a / 2, b / 2) + if a % 2 == 1 && b % 2 == 1 then 1 else 0
  }

  function CountOnes(x: nat): nat {
    if x == 0 then 0 else CountOnes(x / 2) + x % 2
  }

  lemma {:induction false} NoBits(k: nat)
    ensures !Bit(0, k)
  {
    if k > 0 {
      NoBits(k - 1);
    }
  }

  lemma {:induction false} OrBits(a: nat, b: nat, k: nat)
    ensures Bit(Or(a, b), k) <==> Bit(a, k) || Bit(b, k)
    decreases k
  {
    if a == 0 || b == 0 {
      NoBits(k);
    } else if k > 0 {
      OrBits(a / 2, b / 2, k - 1);
    }
  }

  lemma {:induction false} AndBits(a: nat, b: nat, k: nat)
    ensures Bit(And(a, b), k) <==> Bit(a, k) && Bit(b, k)
    decreases k
  {
    if a == 0 || b == 0 {
      NoBits(k);
    } else if k > 0 {
      AndBits(a / 2, b / 2, k - 1);
    }
  }

  lemma {:induction false} Pow2Bits(n: nat, k: nat)
    ensures Bit(Pow2(n), k) <==> k == n
    decreases k
  {
    if n == 0 {
      if k > 0 {
        NoBits(k - 1);
      }
    } else if k > 0 {
      Pow2Bits(n - 1, k - 1);
    }
  }

  /** A word with no bit from `n` on is below two to the `n`. */
  lemma {:induction false} BitsBound(x: nat, n: nat)
    requires forall k :: k >= n ==> !Bit(x, k)
    ensures x < Pow2(n)
    decreases x
  {
    if x != 0 {
      if n == 0 {
        assert !Bit(x, 0);
      }
      var m := if n == 0 then 0 else n - 1;
      forall k | k >= m
        ensures !Bit(x / 2, k)
      {
        assert !Bit(x, k + 1);
      }
      BitsBound(x / 2, m);
    }
  }

  lemma {:induction false} SomeBit(x: nat) returns (k: nat)
    requires x != 0
    ensures Bit(x, k)
  {
    if x % 2 == 1 {
      k := 0;
    } else {
      k := SomeBit(x / 2);
      k := k + 1;
    }
  }

  lemma {:induction false} BitCounted(x: nat, k: nat)
    requires Bit(x, k)
    ensures x != 0 && CountOnes(x) >= 1
  {
    if k > 0 {
      BitCounted(x / 2, k - 1);
    }
  }

  lemma {:induction false} TwoBitsCounted(x: nat, j: nat, k: nat)
    requires j < k && Bit(x, j) && Bit(x, k)
    ensures CountOnes(x) >= 2
  {
    BitCounted(x, k);
    if j == 0 {
      BitCounted(x / 2, k - 1);
    } else {
      TwoBitsCounted(x / 2, j - 1, k - 1);
    }
  }

  lemma {:induction false} TwoBits(x: nat) returns (j: nat, k: nat)
    requires CountOnes(x) >= 2
    ensures j < k && Bit(x, j) && Bit(x, k)
  {
    if x % 2 == 1 {
      j := 0;
      k := SomeBit(x / 2);
    } else {
      j, k := TwoBits(x / 2);
      j := j + 1;
    }
    k := k + 1;
  }

  // ---------------------------------------------------------------- the matrix

  /** Columns of equally many rows, at most as many as a `u128` has bits. */
  ghost predicate Matrix(pressed: seq<seq<bool>>, rows: nat) {
    rows <= 128 && forall c :: 0 <= c < |pressed| ==> |pressed[c]| == rows
  }

  /** Keys at all four corners of a rectangle. */
  ghost predicate Corners(pressed: seq<seq<bool>>, rows: nat, c1: nat, c2: nat, r1: nat, r2: nat)
    requires Matrix(pressed, rows)
  {
    && c1 < c2 < |pressed| && r1 < r2 < rows
    && pressed[c1][r1] && pressed[c1][r2] && pressed[c2][r1] && pressed[c2][r2]
  }

  ghost predicate Rectangle(pressed: seq<seq<bool>>, rows: nat)
    requires Matrix(pressed, rows)
  {
    exists c1: nat, c2: nat, r1: nat, r2: nat :: Corners(pressed, rows, c1, c2, r1, r2)
  }

  /** A column as the loop packs it: one bit a row. */
  function Packed(col: seq<bool>): nat {
    if col == [] then 0
    else if col[|col| - 1] then Or(Packed(col[..|col| - 1]), Pow2(|col| - 1))
    else Packed(col[..|col| - 1])
  }

  function KeysIn(col: seq<bool>): nat {
    if col == [] then 0 else KeysIn(col[..|col| - 1]) + if col[|col| - 1] then 1 else 0
  }

  function Keys(pressed: seq<seq<bool>>): nat {
    if pressed == [] then 0 else Keys(pressed[..|pressed| - 1]) + KeysIn(pressed[|pressed| - 1])
  }

  lemma {:induction false} PackedBits(col: seq<bool>, k: nat)
    ensures Bit(Packed(col), k) <==> k < |col| && col[k]
  {
    if col == [] {
      NoBits(k);
    } else {
      PackedBits(col[..|col| - 1], k);
      Pow2Bits(|col| - 1, k);
      OrBits(Packed(col[..|col| - 1]), Pow2(|col| - 1), k);
    }
  }

  /** Packing up to 128 rows loses nothing to the width of the word. */
  lemma {:induction false} PackedFits(col: seq<bool>)
    requires |col| <= 128
    ensures Packed(col) < Pow2(128)
  {
    forall k: nat | k >= 128
      ensures !Bit(Packed(col), k)
    {
      PackedBits(col, k);
    }
    BitsBound(Packed(col), 128);
  }

  /** Two columns share two rows exactly when the conjunction of their words has two bits. */
  lemma {:induction false} SharedRows(pressed: seq<seq<bool>>, rows: nat, c1: nat, c2: nat)
    requires Matrix(pressed, rows) && c1 < c2 < |pressed|
    ensures CountOnes(And(Packed(pressed[c1]), Packed(pressed[c2]))) >= 2
            <==> exists r1: nat, r2: nat :: Corners(pressed, rows, c1, c2, r1, r2)
  {
    var both := And(Packed(pressed[c1]), Packed(pressed[c2]));
    forall k: nat
      ensures Bit(both, k) <==> k < rows && pressed[c1][k] && pressed[c2][k]
    {
      AndBits(Packed(pressed[c1]), Packed(pressed[c2]), k);
      PackedBits(pressed[c1], k);
      PackedBits(pressed[c2], k);
    }
    if CountOnes(both) >= 2 {
      var r1, r2 := TwoBits(both);
      assert Corners(pressed, rows, c1, c2, r1, r2);
    }
    if r1: nat, r2: nat :| Corners(pressed, rows, c1, c2, r1, r2) {
      TwoBitsCounted(both, r1, r2);
    }
  }

  lemma {:induction false} TwoKeysInColumn(col: seq<bool>, r1: nat, r2: nat)
    requires r1 < r2 < |col| && col[r1] && col[r2]
    ensures KeysIn(col) >= 2
  {
    if r2 == |col| - 1 {
      OneKeyInColumn(col[..|col| - 1], r1);
    } else {
      TwoKeysInColumn(col[..|col| - 1], r1, r2);
    }
  }

  lemma {:induction false} OneKeyInColumn(col: seq<bool>, r: nat)
    requires r < |col| && col[r]
    ensures KeysIn(col) >= 1
  {
    if r < |col| - 1 {
      OneKeyInColumn(col[..|col| - 1], r);
    }
  }

  lemma {:induction false} ColumnsAddUp(pressed: seq<seq<bool>>, c1: nat, c2: nat)
    requires c1 < c2 < |pressed|
    ensures Keys(pressed) >= KeysIn(pressed[c1]) + KeysIn(pressed[c2])
  {
    var front := pressed[..|pressed| - 1];
    if c2 < |front| {
      ColumnsAddUp(front, c1, c2);
    } else {
      ColumnCounts(front, c1);
    }
  }

  lemma {:induction false} ColumnCounts(pressed: seq<seq<bool>>, c: nat)
    requires c < |pressed|
    ensures Keys(pressed) >= KeysIn(pressed[c])
  {
    if c < |pressed| - 1 {
      ColumnCounts(pressed[..|pressed| - 1], c);
    }
  }

  /** The early exit is safe: two keys or fewer make no rectangle. */
  lemma {:induction false} FewKeysNoRectangle(pressed: seq<seq<bool>>, rows: nat)
    requires Matrix(pressed, rows) && Keys(pressed) <= 2
    ensures !Rectangle(pressed, rows)
  {
    if c1: nat, c2: nat, r1: nat, r2: nat :| Corners(pressed, rows, c1, c2, r1, r2) {
      TwoKeysInColumn(pressed[c1], r1, r2);
      TwoKeysInColumn(pressed[c2], r1, r2);
      ColumnsAddUp(pressed, c1, c2);
    }
  }

  /** The first loops of `has_ghost`: every column packed, every key counted. */
  method PackColumns(pressed: seq<seq<bool>>, rows: nat) returns (bits: array<nat>, count: nat)
    requires Matrix(pressed, rows)
    ensures bits.Length == |pressed| && fresh(bits)
    ensures forall c :: 0 <= c < |pressed| ==> bits[c] == Packed(pressed[c]) < Pow2(128)
    ensures count == Keys(pressed)
  {
    hide Or, Pow2;
    bits := new nat[|pressed|](_ => 0);
    count := 0;
    for c := 0 to |pressed|
      invariant count == Keys(pressed[..c])
      invariant forall i :: 0 <= i < c ==> bits[i] == Packed(pressed[i]) < Pow2(128)
      invariant forall i :: c <= i < |pressed| ==> bits[i] == 0
    {
      var col := pressed[c];
      for r := 0 to rows
        invariant count == Keys(pressed[..c]) + KeysIn(col[..r])
        invariant bits[c] == Packed(col[..r])
        invariant forall i :: 0 <= i < c ==> bits[i] == Packed(pressed[i]) < Pow2(128)
        invariant forall i :: c < i < |pressed| ==> bits[i] == 0
      {
        assert col[..r + 1][..r] == col[..r];
        if col[r] {
          count := count + 1;
          bits[c] := Or(bits[c], Pow2(r));
        }
      }
      assert col[..rows] == col;
      PackedFits(col);
      assert pressed[..c + 1][..c] == pressed[..c];
    }
    assert pressed[..|pressed|] == pressed;
  }

  /** Whether the column is in no rectangle with any of those from `from` up to `to`. */
  ghost predicate Clear(pressed: seq<seq<bool>>, rows: nat, c: nat, to: nat)
    requires Matrix(pressed, rows)
  {
    forall c2: nat, r1: nat, r2: nat | c2 < to :: !Corners(pressed, rows, c, c2, r1, r2)
  }

  lemma {:induction false} AllClear(pressed: seq<seq<bool>>, rows: nat)
    requires Matrix(pressed, rows) && forall c: nat | c < |pressed| :: Clear(pressed, rows, c, |pressed|)
    ensures !Rectangle(pressed, rows)
  {
    forall c1: nat, c2: nat, r1: nat, r2: nat
      ensures !Corners(pressed, rows, c1, c2, r1, r2)
    {
      if c1 < |pressed| {
        assert Clear(pressed, rows, c1, |pressed|);
      }
    }
  }

  /** True exactly when two columns and two rows have all four crossings pressed. */
  method HasGhost(pressed: seq<seq<bool>>, rows: nat) returns (ghostly: bool)
    requires Matrix(pressed, rows)
    ensures ghostly <==> Rectangle(pressed, rows)
  {
    hide And, CountOnes, Packed, Keys, Matrix;
    var bits, count := PackColumns(pressed, rows);
    if count <= 2 {
      FewKeysNoRectangle(pressed, rows);
      return false;
    }
    for i := 0 to |pressed|
      invariant forall c :: 0 <= c < |pressed| ==> bits[c] == Packed(pressed[c])
      invariant forall c: nat | c < i :: Clear(pressed, rows, c, |pressed|)
    {
      for j := i + 1 to |pressed|
        invariant forall c :: 0 <= c < |pressed| ==> bits[c] == Packed(pressed[c])
        invariant Clear(pressed, rows, i, j)
      {
        SharedRows(pressed, rows, i, j);
        if CountOnes(And(bits[i], bits[j])) >= 2 {
          return true;
        }
      }
    }
    AllClear(pressed, rows);
    return false;
  }
}
