/**
 The arithmetic of a submitted binding: the driver's check, on wrapping 64-bit integers, and
 the size register it protects, on 32-bit ones.
 */
module Binding {
  import opened Bits

  const U32: nat := 0x1_0000_0000
  const U64: nat := 0x1_0000_0000_0000_0000
  const WORD_SIZE: nat := 4
  const MAX_COLUMN_BYTES: nat := 0xFFFF
  const EINVAL: int := 22

  /** struct drm_strela_strided_binding without its handle; every field is a __u32. */
  datatype Strided = Strided(offset: nat, count: nat, stride: nat) {
    predicate IsU32() { offset < U32 && count < U32 && stride < U32 }
    function Step(): nat { if stride < 1 then 1 else stride }
  }

  /** Multiplication and addition of u64 values. */
  function Mul64(x: nat, y: nat): nat { x * y % U64 }
  function Add64(x: nat, y: nat): nat { (x + y) % U64 }

  /** strela_binding_check(). */
  function Check(objSize: nat, b: Strided): int
  {
    var spanBytes := Mul64(Mul64(b.count, b.Step()), WORD_SIZE);
    var end := Add64(Mul64(b.offset, WORD_SIZE), spanBytes);
    if spanBytes > MAX_COLUMN_BYTES then -EINVAL
    else if b.count != 0 && Mul64(b.Step(), WORD_SIZE) > MAX_COLUMN_BYTES then -EINVAL
    else if end > objSize then -EINVAL
    else 0
  }

  /** The condition the check is for, over the unbounded integers. */
  predicate Fits(objSize: nat, b: Strided) {
    && b.count * b.Step() * WORD_SIZE <= MAX_COLUMN_BYTES
    && b.offset * WORD_SIZE + b.count * b.Step() * WORD_SIZE <= objSize
  }

  lemma {:induction false} NoWrap64(x: nat, y: nat)
    requires x * y < U64
    ensures Mul64(x, y) == x * y
  {
    ModUnique(x * y, U64, 0, x * y);
  }

  lemma {:induction false} ProductBound(x: nat, y: nat, xs: nat, ys: nat)
    requires x <= xs && y <= ys
    ensures x * y <= xs * ys
  {
    assert x * y <= xs * y;
    assert xs * y <= xs * ys;
  }

  /** A product of two u32 values fits in a u64. */
  lemma {:induction false} U32Product(x: nat, y: nat)
    requires x < U32 && y < U32
    ensures x * y < U64 && Mul64(x, y) == x * y
  {
    ProductBound(x, y, U32 - 1, U32 - 1);
    NoWrap64(x, y);
  }

  /** If the stride check passes, the byte count does not wrap. */
  lemma {:induction false} StrideCheckStopsWrap(b: Strided)
    requires b.IsU32() && (b.count == 0 || b.Step() * WORD_SIZE <= MAX_COLUMN_BYTES)
    ensures Mul64(Mul64(b.count, b.Step()), WORD_SIZE) == b.count * b.Step() * WORD_SIZE
    ensures b.count * b.Step() * WORD_SIZE < 0x1_0000_0000_0000
  {
    U32Product(b.count, b.Step());
    if b.count != 0 {
      ProductBound(b.count, b.Step(), U32 - 1, 0x3FFF);
    }
    NoWrap64(b.count * b.Step(), WORD_SIZE);
  }

  /** The wrapping check accepts exactly the bindings that fit, for every u32 binding. */
  lemma {:induction false} CheckIsExact(objSize: nat, b: Strided)
    requires b.IsU32()
    ensures Check(objSize, b) == 0 <==> Fits(objSize, b)
  {
    U32Product(b.Step(), WORD_SIZE);
    U32Product(b.offset, WORD_SIZE);
    if b.count != 0 {
      StepBelowSpan(b);
    }
    if b.count == 0 || b.Step() * WORD_SIZE <= MAX_COLUMN_BYTES {
      StrideCheckStopsWrap(b);
      var sum := b.offset * WORD_SIZE + b.count * b.Step() * WORD_SIZE;
      if b.count * b.Step() * WORD_SIZE <= MAX_COLUMN_BYTES {
        ModUnique(sum, U64, 0, sum);
      }
    }
  }

  lemma {:induction false} StepBelowSpan(b: Strided)
    requires b.count != 0
    ensures b.Step() * WORD_SIZE <= b.count * b.Step() * WORD_SIZE
  {
    Scaling(b.Step(), b.count);
  }

  /**
   Without the stride check the wrap would not be harmless: this binding's byte count is 2^64,
   which wraps to 0, so the other two tests pass.
   */
  lemma {:induction false} StrideCheckIsNeeded()
    ensures var b := Strided(0, 0x8000_0000, 0x8000_0000);
      && b.IsU32()
      && Mul64(Mul64(b.count, b.Step()), WORD_SIZE) == 0
      && !Fits(64, b) && Check(64, b) == -EINVAL
  {
  }

  // ---------- the size register ----------

  function Mul32(x: nat, y: nat): nat { x * y % U32 }

  /** strela_input_size(): stride in bytes in the high half, byte count in the low half. */
  function InputSize(count: nat, stride: nat): nat
  {
    var step := if stride < 1 then 1 else stride;
    BitOr(Mul32(Mul32(stride, WORD_SIZE), 0x1_0000), Mul32(Mul32(step, count), WORD_SIZE))
  }

  /** Reading the two halves back. */
  function UnpackStride(reg: nat): nat { reg / 0x1_0000 / WORD_SIZE }

  function UnpackCount(reg: nat): nat {
    var stride := UnpackStride(reg);
    reg % 0x1_0000 / WORD_SIZE / (if stride < 1 then 1 else stride)
  }

  /** Or-ing a value below 2^k into a multiple of 2^k adds it. */
  lemma {:induction false} OrOfDisjoint(h: nat, l: nat, k: nat)
    requires l < Pow2(k)
    ensures BitOr(h * Pow2(k), l) == h * Pow2(k) + l
  {
    if k == 0 {
      assert l == 0;
    } else if h > 0 && l > 0 {
      var p := Pow2(k - 1);
      assert h * Pow2(k) == 2 * (h * p);
      OrOfDisjoint(h, l / 2, k - 1);
      assert (h * Pow2(k)) / 2 == h * p && (h * Pow2(k)) % 2 == 0;
    } else {
      assert h == 0 ==> h * Pow2(k) == 0;
    }
  }

  lemma {:induction false} Pow2Of16()
    ensures Pow2(16) == 0x1_0000
  {
    assert Pow2(4) == 16;
    Pow2Split(4, 4);
    Pow2Split(8, 8);
  }

  /** What the register holds for an accepted binding: neither half spills into the other. */
  lemma {:induction false} RegisterHalves(objSize: nat, b: Strided)
    requires b.IsU32() && b.count != 0 && Fits(objSize, b)
    ensures b.stride * WORD_SIZE <= MAX_COLUMN_BYTES
    ensures InputSize(b.count, b.stride) == b.stride * WORD_SIZE * 0x1_0000 + b.Step() * b.count * WORD_SIZE
  {
    StepBelowSpan(b);
    assert b.Step() * b.count == b.count * b.Step();
    var hi, lo := b.stride * WORD_SIZE, b.Step() * b.count * WORD_SIZE;
    ModUnique(hi, U32, 0, hi);
    ModUnique(hi * 0x1_0000, U32, 0, hi * 0x1_0000);
    ModUnique(b.Step() * b.count, U32, 0, b.Step() * b.count);
    ModUnique(lo, U32, 0, lo);
    Pow2Of16();
    OrOfDisjoint(hi, lo, 16);
  }

  lemma {:induction false} Unpacks(reg: nat, stride: nat, words: nat, count: nat)
    requires reg == stride * WORD_SIZE * 0x1_0000 + words * WORD_SIZE && words * WORD_SIZE < 0x1_0000
    requires words == (if stride < 1 then 1 else stride) * count
    ensures UnpackStride(reg) == stride && UnpackCount(reg) == count
  {
    assert reg / 0x1_0000 == stride * WORD_SIZE && reg % 0x1_0000 == words * WORD_SIZE;
    assert UnpackStride(reg) == stride;
    assert reg % 0x1_0000 / WORD_SIZE == words;
    ModUnique(words, if stride < 1 then 1 else stride, count, 0);
  }

  /** Every accepted binding that moves words can be read back from its register. */
  lemma {:induction false} RegisterRoundTrip(objSize: nat, b: Strided)
    requires b.IsU32() && b.count != 0 && Check(objSize, b) == 0
    ensures UnpackStride(InputSize(b.count, b.stride)) == b.stride
    ensures UnpackCount(InputSize(b.count, b.stride)) == b.count
  {
    Scaling(b.Step(), b.count);
    var words := b.Step() * b.count;
    assert words == b.count * b.Step();
    assert Fits(objSize, b) by {
      CheckIsExact(objSize, b);
    }
    RegisterHalves(objSize, b);
    Unpacks(InputSize(b.count, b.stride), b.stride, words, b.count);
  }

  /** Different accepted bindings program different registers; stride 0 and stride 1 differ. */
  lemma {:induction false} RegisterIsInjective(s1: nat, b1: Strided, s2: nat, b2: Strided)
    requires b1.IsU32() && b1.count != 0 && Check(s1, b1) == 0
    requires b2.IsU32() && b2.count != 0 && Check(s2, b2) == 0
    requires InputSize(b1.count, b1.stride) == InputSize(b2.count, b2.stride)
    ensures b1.count == b2.count && b1.stride == b2.stride
  {
    RegisterRoundTrip(s1, b1);
    RegisterRoundTrip(s2, b2);
  }

  /** A column that moves nothing has a byte count of 0 in the register, whatever its stride. */
  lemma {:induction false} IdleColumn(stride: nat)
    ensures InputSize(0, stride) % 0x1_0000 == 0
  {
    var step: nat := if stride < 1 then 1 else stride;
    assert step * 0 == 0;
    var x := Mul32(stride, WORD_SIZE);
    assert Mul32(x, 0x1_0000) % 0x1_0000 == 0;
  }
}
