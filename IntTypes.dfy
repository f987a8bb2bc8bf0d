/** Fixed-width C++ integral types and their two's-complement wrap-around.

    The templates of the string library are instantiated on any integral type INT.
    An `IntType` records what the templates observe of INT: its width in bits
    (sizeof(INT) * 8) and whether it is signed. Arithmetic on INT is modelled on
    unbounded integers followed by `Wrap`, which brings a value back into the
    type's range modulo 2^bits. C++ promises this only for unsigned types; for a
    signed type an overflow is undefined, and the model takes the two's-complement
    result that common machines give. */
module IntTypes {

  /** b^n. */
  function Pow(b: nat, n: nat): (r: nat)
    ensures b > 0 ==> r > 0
  {
    if n == 0 then 1 else b * Pow(b, n - 1)
  }

  /** An integral C++ type of 8, 16, 32 or 64 bits. */
  datatype IntType = IntType(bits: nat, signed: bool)
  {
    predicate Valid()
    {
      bits == 8 || bits == 16 || bits == 32 || bits == 64
    }

    /** sizeof(INT). */
    function Size(): nat
    {
      bits / 8
    }

    /** 2^bits, the number of values of the type. */
    function Modulus(): (m: nat)
      requires Valid()
      ensures m > 0
    {
      if bits == 8 then 0x100
      else if bits == 16 then 0x1_0000
      else if bits == 32 then 0x1_0000_0000
      else 0x1_0000_0000_0000_0000
    }

    /** 2^(bits-1), half the number of values. */
    function Half(): (h: nat)
      requires Valid()
      ensures 2 * h == Modulus()
    {
      if bits == 8 then 0x80
      else if bits == 16 then 0x8000
      else if bits == 32 then 0x8000_0000
      else 0x8000_0000_0000_0000
    }

    /** std::numeric_limits<INT>::min(). */
    function Min(): int
      requires Valid()
    {
      if signed then -(Half() as int) else 0
    }

    /** std::numeric_limits<INT>::max(). */
    function Max(): int
      requires Valid()
    {
      if signed then Half() - 1 else Modulus() - 1
    }

    predicate Contains(x: int)
      requires Valid()
    {
      Min() <= x <= Max()
    }

    /** The value of type INT congruent to x modulo 2^bits. */
    function Wrap(x: int): (r: int)
      requires Valid()
      ensures Contains(r)
      ensures Contains(x) ==> r == x
    {
      var m := Modulus();
      var r := Min() + (x - Min()) % m;
      if Contains(x) then
        ModSmall(x - Min(), m);
        r
      else
        r
    }
  }

  /** 0 <= a < m implies a % m == a. */
  lemma ModSmall(a: int, m: int)
    requires 0 <= a < m
    ensures a % m == a
  {
  }

  /** d * m strictly between -m and m forces d == 0. */
  lemma MultipleInOpenRange(d: int, m: int)
    requires m > 0
    requires -m < d * m < m
    ensures d == 0
  {
  }

  /** Adding a multiple of m does not change the Euclidean remainder. */
  lemma ModShift(a: int, k: int, m: int)
    requires m > 0
    ensures (a + k * m) % m == a % m
  {
    var q, r := a / m, a % m;
    var q', r' := (a + k * m) / m, (a + k * m) % m;
    assert a == q * m + r && 0 <= r < m;
    assert a + k * m == q' * m + r' && 0 <= r' < m;
    assert (q + k - q') * m == r' - r;
    MultipleInOpenRange(q + k - q', m);
  }

  /** Wrap only depends on its argument modulo 2^bits. */
  lemma WrapShift(t: IntType, x: int, k: int)
    requires t.Valid()
    ensures t.Wrap(x + k * t.Modulus()) == t.Wrap(x)
  {
    var m, lo := t.Modulus(), t.Min();
    var a := x - lo;
    ModShift(a, k, m);
    assert x + k * m - lo == a + k * m;
  }

  /** x - Wrap(x) is a multiple of 2^bits. */
  lemma WrapDifference(t: IntType, x: int) returns (q: int)
    requires t.Valid()
    ensures t.Wrap(x) == x + q * t.Modulus()
  {
    var m, lo := t.Modulus(), t.Min();
    var a := x - lo;
    var d := a / m;
    q := -d;
    DivMod(a, m);
    assert a == d * m + a % m;
    assert t.Wrap(x) == lo + a % m;
    assert q * m == -(d * m);
  }

  lemma ShiftedProduct(v: int, q: int, m: int, b: int)
    ensures (v + q * m) * b == v * b + (q * b) * m
  {
  }

  /** Euclidean division is determined by a == q * m + r and 0 <= r < m. */
  lemma DivUnique(a: int, m: int, q: int, r: int)
    requires m > 0 && a == q * m + r && 0 <= r < m
    ensures a / m == q && a % m == r
  {
    var q', r' := a / m, a % m;
    assert a == q' * m + r' && 0 <= r' < m;
    assert (q - q') * m == r' - r;
    MultipleInOpenRange(q - q', m);
  }

  lemma DivMod(a: int, m: int)
    requires m > 0
    ensures a == (a / m) * m + a % m
  {
  }

  /** Wrapping an intermediate result of `v * b + d` does not change the final wrap. */
  lemma WrapMulAdd(t: IntType, v: int, b: int, d: int)
    requires t.Valid()
    ensures t.Wrap(t.Wrap(v) * b + d) == t.Wrap(v * b + d)
  {
    var m := t.Modulus();
    var q := WrapDifference(t, v);
    var w := t.Wrap(v);
    ShiftedProduct(v, q, m, b);
    assert w * b + d == (v * b + d) + (q * b) * m;
    WrapShift(t, v * b + d, q * b);
  }

  /** Negating a wrapped value and wrapping again is wrapping the negation. */
  lemma WrapNeg(t: IntType, v: int)
    requires t.Valid()
    ensures t.Wrap(-t.Wrap(v)) == t.Wrap(-v)
  {
    var q := WrapDifference(t, v);
    assert -t.Wrap(v) == -v + (-q) * t.Modulus();
    WrapShift(t, -v, -q);
  }

  /** Two values whose difference is a multiple of 2^bits wrap to the same value. */
  lemma WrapCongruent(t: IntType, x: int, y: int)
    requires t.Valid()
    requires (x - y) % t.Modulus() == 0
    ensures t.Wrap(x) == t.Wrap(y)
  {
    var m := t.Modulus();
    var k := (x - y) / m;
    assert x - y == k * m + (x - y) % m;
    assert x == y + k * m;
    WrapShift(t, y, k);
  }

  /** Reducing a value of INT modulo 2^bits and wrapping it back gives the value. */
  lemma WrapModulus(t: IntType, value: int)
    requires t.Valid() && t.Contains(value)
    ensures t.Wrap(value % t.Modulus()) == value
  {
    var m := t.Modulus();
    DivMod(value, m);
    ModShift(value % m - value, value / m, m);
    assert (value % m - value) + (value / m) * m == 0;
    assert (value % m - value) % m == 0 % m;
    WrapCongruent(t, value % m, value);
  }

  /** 2 * sizeof(INT) hexadecimal digits cover exactly the values of INT. */
  lemma NibblesModulus(t: IntType)
    requires t.Valid()
    ensures Pow(16, 2 * t.Size()) == t.Modulus()
  {
    if t.bits == 8 {
      assert Pow(16, 2) == 0x100;
    } else if t.bits == 16 {
      assert Pow(16, 4) == 0x1_0000;
    } else if t.bits == 32 {
      assert Pow(16, 8) == 0x1_0000_0000;
    } else {
      assert Pow(16, 16) == 0x1_0000_0000_0000_0000;
    }
  }

  const Int8 := IntType(8, true)
  const UInt8 := IntType(8, false)
  const Int16 := IntType(16, true)
  const UInt16 := IntType(16, false)
  const Int32 := IntType(32, true)
  const UInt32 := IntType(32, false)
  const Int64 := IntType(64, true)
  const UInt64 := IntType(64, false)
}
