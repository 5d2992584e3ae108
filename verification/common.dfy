/** Machine-word arithmetic and small shared datatypes used by the phase
    detector and its listeners. The C++ source works on fixed-width unsigned
    integers; Dafny's integers are unbounded, so every truncation, shift and
    wrap-around is written out here once. */
module Common {

  const TWO_32: nat := 0x1_0000_0000
  const TWO_64: nat := 0x1_0000_0000_0000_0000

  /** A `uint64_t` value. */
  type U64 = x: nat | x < TWO_64

  datatype Option<+T> = None | Some(value: T)

  /** 2 raised to the power n. */
  function Pow2(n: nat): (r: nat)
    ensures r > 0
  {
    if n == 0 then 1 else 2 * Pow2(n - 1)
  }

  lemma {:induction false} Pow2Add(a: nat, b: nat)
    ensures Pow2(a + b) == Pow2(a) * Pow2(b)
  {
    if a > 0 {
      Pow2Add(a - 1, b);
      assert Pow2(a + b) == 2 * Pow2(a - 1 + b);
    }
  }

  lemma Pow2ThirtyTwo()
    ensures Pow2(32) == TWO_32
  {
    assert Pow2(4) == 16;
    Pow2Add(4, 4);
    Pow2Add(8, 8);
    Pow2Add(16, 16);
  }

  /** Unsigned right shift `x >> n`. */
  function ShiftRight(x: nat, n: nat): (r: nat)
    ensures r <= x
  {
    var p := Pow2(n);
    DivShrinks(x, p);
    x / p
  }

  lemma DivShrinks(x: nat, p: nat)
    requires p > 0
    ensures 0 <= x / p <= x
  {
    var q := x / p;
    Euclid(x, p);
    if q < 0 {
      MulNeg(q, p);
      assert false;
    }
    MulGe(q, p);
  }

  lemma Euclid(x: nat, p: nat)
    requires p > 0
    ensures x == (x / p) * p + x % p && 0 <= x % p < p
  {
  }

  lemma MulNeg(q: int, p: int)
    requires p > 0 && q < 0
    ensures q * p <= -p
  {
  }

  lemma MulGe(q: int, p: int)
    requires p > 0 && q >= 0
    ensures q * p >= q
  {
  }

  /** The `(uint32_t)` cast: keep the low 32 bits. */
  function Trunc32(x: nat): (r: nat)
    ensures r < TWO_32
  {
    x % TWO_32
  }

  /** Unsigned 64-bit arithmetic: the result of any `uint64_t` expression,
      including a subtraction that goes below zero, taken modulo 2^64. */
  function Wrap64(x: int): (r: U64)
  {
    x % TWO_64
  }

  /** `x += 1` on a `uint64_t`. */
  function Inc64(x: U64): (r: U64)
    ensures x < TWO_64 - 1 ==> r == x + 1
    ensures x == TWO_64 - 1 ==> r == 0
  {
    Wrap64(x + 1)
  }
}
