/** The frame check sequence of the serial medium: CRC-16/X-25 (`FCS_ALGO` in `mctp-rs/src/medium/serial.rs`),
    reflected, with all bits of the register set at the start and flipped at the end. */
module FrameCheck {
  import opened Wrappers

  function ShiftBit(c: bv16): bv16 {
    if c & 1 == 1 then (c >> 1) ^ 0x8408 else c >> 1
  }

  function ShiftByte(c: bv16): bv16 {
    ShiftBit(ShiftBit(ShiftBit(ShiftBit(ShiftBit(ShiftBit(ShiftBit(ShiftBit(c))))))))
  }

  function Bits(b: U8): bv16 {
    b as bv16
  }

  function Mixed(c: bv16, x: bv16): bv16 {
    c ^ x
  }

  /** The register after one more byte. */
  function Shifted(c: bv16, b: U8): bv16 {
    ShiftByte(Mixed(c, Bits(b)))
  }

  function Register(bytes: seq<U8>): bv16 {
    if bytes == [] then 0xFFFF else Shifted(Register(bytes[..|bytes| - 1]), bytes[|bytes| - 1])
  }

  function Flipped(c: bv16): U16 {
    Mixed(c, 0xFFFF) as int
  }

  function X25(bytes: seq<U8>): U16 {
    Flipped(Register(bytes))
  }

  lemma {:induction false} RegisterStart()
    ensures Register([]) == 0xFFFF
  {
  }

  lemma {:induction false} RegisterNext(bytes: seq<U8>, b: U8, before: bv16, after: bv16)
    requires Register(bytes) == before && Shifted(before, b) == after
    ensures Register(bytes + [b]) == after
  {
    hide Shifted;
    assert (bytes + [b])[..|bytes|] == bytes;
  }

  /** The published check value of the algorithm: its result on the digits 1 to 9. */
  lemma {:induction false} CheckValue()
    ensures X25([0x31, 0x32, 0x33, 0x34, 0x35, 0x36, 0x37, 0x38, 0x39]) == 0x906E
  {
    hide Register;
    RegisterStart();
    RegisterNext([], 0x31, 0xFFFF, 0x2F8D);
    assert [] + [0x31] == [0x31];
    RegisterNext([0x31], 0x32, 0x2F8D, 0x4D53);
    assert [0x31] + [0x32] == [0x31, 0x32];
    RegisterNext([0x31, 0x32], 0x33, 0x4D53, 0x634B);
    assert [0x31, 0x32] + [0x33] == [0x31, 0x32, 0x33];
    RegisterNext([0x31, 0x32, 0x33], 0x34, 0x634B, 0x8B13);
    assert [0x31, 0x32, 0x33] + [0x34] == [0x31, 0x32, 0x33, 0x34];
    RegisterNext([0x31, 0x32, 0x33, 0x34], 0x35, 0x8B13, 0x44BF);
    assert [0x31, 0x32, 0x33, 0x34] + [0x35] == [0x31, 0x32, 0x33, 0x34, 0x35];
    RegisterNext([0x31, 0x32, 0x33, 0x34, 0x35], 0x36, 0x44BF, 0x198D);
    assert [0x31, 0x32, 0x33, 0x34, 0x35] + [0x36] == [0x31, 0x32, 0x33, 0x34, 0x35, 0x36];
    RegisterNext([0x31, 0x32, 0x33, 0x34, 0x35, 0x36], 0x37, 0x198D, 0x1AC8);
    assert [0x31, 0x32, 0x33, 0x34, 0x35, 0x36] + [0x37] == [0x31, 0x32, 0x33, 0x34, 0x35, 0x36, 0x37];
    RegisterNext([0x31, 0x32, 0x33, 0x34, 0x35, 0x36, 0x37], 0x38, 0x1AC8, 0xF795);
    assert [0x31, 0x32, 0x33, 0x34, 0x35, 0x36, 0x37] + [0x38] == [0x31, 0x32, 0x33, 0x34, 0x35, 0x36, 0x37, 0x38];
    RegisterNext([0x31, 0x32, 0x33, 0x34, 0x35, 0x36, 0x37, 0x38], 0x39, 0xF795, 0x6F91);
    assert [0x31, 0x32, 0x33, 0x34, 0x35, 0x36, 0x37, 0x38] + [0x39]
        == [0x31, 0x32, 0x33, 0x34, 0x35, 0x36, 0x37, 0x38, 0x39];
  }

  /** A checksum that begins with the frame flag. */
  lemma {:induction false} FlagInCheck()
    ensures X25([0x01, 0x01, 0x3C]) == 0x7E27
  {
    hide Register;
    RegisterStart();
    RegisterNext([], 0x01, 0xFFFF, 0x1E0E);
    assert [] + [0x01] == [0x01];
    RegisterNext([0x01], 0x01, 0x1E0E, 0xF8E9);
    assert [0x01] + [0x01] == [0x01, 0x01];
    RegisterNext([0x01, 0x01], 0x3C, 0xF8E9, 0x81D8);
    assert [0x01, 0x01] + [0x3C] == [0x01, 0x01, 0x3C];
  }

  // ---------------------------------------------------------------- damage is detected

  lemma {:induction false} ShiftByteInjective(c: bv16, d: bv16)
    requires ShiftByte(c) == ShiftByte(d)
    ensures c == d
  {
  }

  /** Two registers that differ in their low byte differ above it after a shift by a byte. */
  lemma {:induction false} LowDamageRises(c: bv16, d: bv16)
    requires Mixed(c, d) < 0x100 && Mixed(ShiftByte(c), ShiftByte(d)) < 0x100
    ensures c == d
  {
  }

  lemma {:induction false} MixedTells(c: bv16, d: bv16, x: bv16)
    ensures Mixed(c, x) == Mixed(d, x) ==> c == d
    ensures Mixed(x, c) == Mixed(x, d) ==> c == d
  {
  }

  lemma {:induction false} LowDifference(c: bv16, d: bv16, x: bv16, y: bv16)
    requires x < 0x100 && y < 0x100 && Mixed(c, x) == Mixed(d, y)
    ensures Mixed(c, d) < 0x100
  {
  }

  lemma {:induction false} LowChange(c: bv16, x: bv16, y: bv16)
    requires x < 0x100 && y < 0x100
    ensures Mixed(Mixed(c, x), Mixed(c, y)) < 0x100
  {
  }

  lemma {:induction false} IntTells(c: bv16, d: bv16)
    requires c as int == d as int
    ensures c == d
  {
    var n := c as int;
    assert n as bv16 == c;
    assert n as bv16 == d;
  }

  lemma {:induction false} DigitOf(n: int) returns (c: bv16)
    requires 0 <= n < 0x10
    ensures c as int == n && c < 0x10
  {
    if n < 8 {
      c := if n == 0 then 0 else if n == 1 then 1 else if n == 2 then 2 else if n == 3 then 3
           else if n == 4 then 4 else if n == 5 then 5 else if n == 6 then 6 else 7;
    } else {
      c := if n == 8 then 8 else if n == 9 then 9 else if n == 10 then 10 else if n == 11 then 11
           else if n == 12 then 12 else if n == 13 then 13 else if n == 14 then 14 else 15;
    }
  }

  lemma {:induction false} TwoDigits(h: bv16, l: bv16)
    requires h < 0x10 && l < 0x10
    ensures ((h << 4) | l) as int == 0x10 * (h as int) + l as int
  {
  }

  lemma {:induction false} BitsOfByte(b: U8)
    ensures Bits(b) as int == b
  {
    var h := DigitOf(b / 0x10);
    var l := DigitOf(b % 0x10);
    TwoDigits(h, l);
    var c := (h << 4) | l;
    assert (c as int) as bv16 == c;
  }

  lemma {:induction false} BitsAreLow(b: U8)
    ensures Bits(b) < 0x100
  {
  }

  lemma {:induction false} SameByte(x: U8, y: U8)
    requires Bits(x) == Bits(y)
    ensures x == y
  {
    hide Bits;
    BitsOfByte(x);
    BitsOfByte(y);
  }

  lemma {:induction false} ShiftedInjective(c: bv16, d: bv16, b: U8)
    requires Shifted(c, b) == Shifted(d, b)
    ensures c == d
  {
    hide ShiftByte, Bits, Mixed;
    ShiftByteInjective(Mixed(c, Bits(b)), Mixed(d, Bits(b)));
    MixedTells(c, d, Bits(b));
  }

  lemma {:induction false} ShiftedTells(c: bv16, x: U8, y: U8)
    requires Shifted(c, x) == Shifted(c, y)
    ensures x == y
  {
    hide ShiftByte, Bits, Mixed;
    ShiftByteInjective(Mixed(c, Bits(x)), Mixed(c, Bits(y)));
    MixedTells(Bits(x), Bits(y), c);
    SameByte(x, y);
  }

  lemma {:induction false} ShiftedTwiceTells(c: bv16, x: U8, x': U8, y: U8, y': U8)
    requires Shifted(Shifted(c, x), x') == Shifted(Shifted(c, y), y')
    ensures x == y && x' == y'
  {
    hide ShiftByte, Bits, Mixed;
    var p, q := Shifted(c, x), Shifted(c, y);
    BitsAreLow(x);
    BitsAreLow(y);
    BitsAreLow(x');
    BitsAreLow(y');
    ShiftByteInjective(Mixed(p, Bits(x')), Mixed(q, Bits(y')));
    LowDifference(p, q, Bits(x'), Bits(y'));
    LowChange(c, Bits(x), Bits(y));
    LowDamageRises(Mixed(c, Bits(x)), Mixed(c, Bits(y)));
    MixedTells(Bits(x), Bits(y), c);
    SameByte(x, y);
    ShiftedTells(p, x', y');
  }

  lemma {:induction false} FlippedTells(c: bv16, d: bv16)
    requires Flipped(c) == Flipped(d)
    ensures c == d
  {
    hide Mixed;
    IntTells(Mixed(c, 0xFFFF), Mixed(d, 0xFFFF));
    MixedTells(c, d, 0xFFFF);
  }

  lemma {:induction false} RegisterAfter(bytes: seq<U8>, b: U8)
    ensures Register(bytes + [b]) == Shifted(Register(bytes), b)
  {
    hide Shifted;
    assert (bytes + [b])[..|bytes|] == bytes;
  }

  lemma {:induction false} DamageStays(p: seq<U8>, q: seq<U8>, more: seq<U8>)
    requires Register(p) != Register(q)
    ensures Register(p + more) != Register(q + more)
  {
    hide Register, Shifted;
    if more == [] {
      assert p + more == p && q + more == q;
    } else {
      var front, b := more[..|more| - 1], more[|more| - 1];
      DamageStays(p, q, front);
      RegisterAfter(p + front, b);
      RegisterAfter(q + front, b);
      assert p + front + [b] == p + more && q + front + [b] == q + more;
      if Register(p + more) == Register(q + more) {
        ShiftedInjective(Register(p + front), Register(q + front), b);
      }
    }
  }

  lemma {:induction false} DamageMade(front: seq<U8>, x: seq<U8>, y: seq<U8>)
    requires |x| == |y| <= 2 && Register(front + x) == Register(front + y)
    ensures x == y
  {
    hide Register, Shifted;
    if |x| == 1 {
      assert x == [x[0]] && y == [y[0]];
      RegisterAfter(front, x[0]);
      RegisterAfter(front, y[0]);
      ShiftedTells(Register(front), x[0], y[0]);
    } else if |x| == 2 {
      assert front + x == front + [x[0]] + [x[1]] && front + y == front + [y[0]] + [y[1]];
      RegisterAfter(front, x[0]);
      RegisterAfter(front, y[0]);
      RegisterAfter(front + [x[0]], x[1]);
      RegisterAfter(front + [y[0]], y[1]);
      ShiftedTwiceTells(Register(front), x[0], x[1], y[0], y[1]);
    }
  }

  /** Any damage to one byte, or to two neighbouring ones, changes the checksum, wherever it is and whatever
      surrounds it. */
  lemma {:induction false} DamageDetected(front: seq<U8>, x: seq<U8>, y: seq<U8>, rest: seq<U8>)
    requires |x| == |y| <= 2 && x != y
    ensures X25(front + x + rest) != X25(front + y + rest)
  {
    hide Register, Flipped;
    if Register(front + x) == Register(front + y) {
      DamageMade(front, x, y);
    }
    DamageStays(front + x, front + y, rest);
    if X25(front + x + rest) == X25(front + y + rest) {
      FlippedTells(Register(front + x + rest), Register(front + y + rest));
    }
  }
}
