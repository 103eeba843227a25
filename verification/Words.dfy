/** Bitwise operators on natural numbers, defined bit by bit. */
module Bits {
  function Or(a: nat, b: nat): nat
    decreases a + b
  {
    if a == 0 && b == 0 then 0
    else (if a % 2 == 1 || b % 2 == 1 then 1 else 0) + 2 * Or(a / 2, b / 2)
  }

  function And(a: nat, b: nat): (r: nat)
    ensures r <= a && r <= b
    decreases a + b
  {
    if a == 0 || b == 0 then 0
    else (if a % 2 == 1 && b % 2 == 1 then 1 else 0) + 2 * And(a / 2, b / 2)
  }

  function Shl(v: nat, k: nat): nat {
    if k == 0 then v else 2 * Shl(v, k - 1)
  }

  function Shr(v: nat, k: nat): nat {
    if k == 0 then v else Shr(v / 2, k - 1)
  }

  lemma {:induction false} ShrAdd(v: nat, j: nat, k: nat)
    ensures Shr(v, j + k) == Shr(Shr(v, j), k)
  {
    if j == 0 {
    } else {
      ShrAdd(v / 2, j - 1, k);
    }
  }

  lemma ShlByte(v: nat, k: nat)
    ensures Shl(v, k + 8) == 256 * Shl(v, k)
  {
    assert Shl(v, k + 2) == 4 * Shl(v, k);
    assert Shl(v, k + 4) == 4 * Shl(v, k + 2);
    assert Shl(v, k + 6) == 4 * Shl(v, k + 4);
  }

  /** Or-ing in a value shifted past every set bit is addition. */
  lemma {:induction false} OrDisjoint(a: nat, b: nat, k: nat)
    requires a < Shl(1, k)
    ensures Or(a, Shl(b, k)) == a + Shl(b, k)
  {
    if k == 0 {
      OrZero(b);
    } else {
      OrDisjoint(a / 2, b, k - 1);
    }
  }

  lemma {:induction false} OrZero(b: nat)
    ensures Or(0, b) == b
  {
    if b == 0 {
    } else {
      OrZero(b / 2);
    }
  }

  lemma AndOdd(v: nat, m: nat)
    ensures And(v, 2 * m + 1) == v % 2 + 2 * And(v / 2, m)
  {
    assert (2 * m + 1) / 2 == m && (2 * m + 1) % 2 == 1;
  }

  /** The k masked bits and the bits shifted out of the way make up the value. */
  lemma {:induction false} AndShr(v: nat, k: nat)
    ensures Shl(1, k) >= 1
    ensures And(v, Shl(1, k) - 1) + Shl(Shr(v, k), k) == v
  {
    if k == 0 {
    } else {
      AndShr(v / 2, k - 1);
      var m, w := Shl(1, k - 1) - 1, v / 2;
      AndOdd(v, m);
      assert Shl(1, k) - 1 == 2 * m + 1;
      assert Shl(Shr(v, k), k) == 2 * Shl(Shr(w, k - 1), k - 1);
    }
  }

  /** Masking with 0xFF keeps the lowest byte and shifting by 8 drops it. */
  lemma LowByte(v: nat)
    ensures And(v, 0xFF) == v % 256 && Shr(v, 8) == v / 256
  {
    var low, high := And(v, 0xFF), Shr(v, 8);
    assert low + 256 * high == v by {
      AndShr(v, 8);
      ShlByte(1, 0);
      ShlByte(high, 0);
    }
  }
}

/** Little-endian integers: base-256 digits and their weighted sum. */
module LittleEndian {
  import opened Base
  import opened Bits

  /** The n lowest bytes of a value, lowest first. */
  function Digits(v: nat, n: nat): (r: Bytes)
    ensures |r| == n
  {
    seq(n, i requires 0 <= i => And(Shr(v, 8 * i), 0xFF))
  }

  /** They are its base-256 digits. */
  lemma DigitsCons(v: nat, n: nat)
    requires n > 0
    ensures Digits(v, n) == [v % 256] + Digits(v / 256, n - 1)
  {
    LowByte(v);
    forall i | 0 < i < n
      ensures Digits(v, n)[i] == Digits(v / 256, n - 1)[i - 1]
    {
      ShrAdd(v, 8, 8 * (i - 1));
    }
  }

  /** The weighted sum of base-256 digits. */
  function Value(b: Bytes): nat {
    if b == [] then 0 else b[0] + 256 * Value(b[1..])
  }

  /** The number of values that n bytes can hold. */
  function Capacity(n: nat): nat {
    if n == 0 then 1 else 256 * Capacity(n - 1)
  }

  lemma Capacities()
    ensures Capacity(4) == U32_LIMIT && Capacity(8) == U64_LIMIT
  {
    assert Capacity(2) == 0x1_0000;
    assert Capacity(6) == 0x1_0000 * Capacity(4);
    assert Capacity(6) == 0x1_0000_0000_0000;
  }

  /** n bytes hold any value below 256^n. */
  lemma {:induction false} ValueOfDigits(v: nat, n: nat)
    requires v < Capacity(n)
    ensures Value(Digits(v, n)) == v
  {
    if n == 0 {
    } else {
      DigitsCons(v, n);
      ValueOfDigits(v / 256, n - 1);
    }
  }

  /** Every byte string is the encoding of its own value. */
  lemma {:induction false} DigitsOfValue(b: Bytes)
    ensures Value(b) < Capacity(|b|)
    ensures Digits(Value(b), |b|) == b
  {
    if b == [] {
    } else {
      DigitsOfValue(b[1..]);
      DigitsCons(Value(b), |b|);
      assert Value(b) % 256 == b[0] && Value(b) / 256 == Value(b[1..]);
    }
  }

  lemma {:induction false} CapacityIsShift(n: nat)
    ensures Capacity(n) == Shl(1, 8 * n)
  {
    if n == 0 {
    } else {
      CapacityIsShift(n - 1);
      ShlByte(1, 8 * (n - 1));
    }
  }

  /** One more byte adds its weight. */
  lemma {:induction false} ValueSnoc(b: Bytes, x: u8)
    ensures Value(b + [x]) == Value(b) + Shl(x, 8 * |b|)
  {
    if b == [] {
      assert Value([x]) == x + 256 * Value([]);
    } else {
      ValueSnoc(b[1..], x);
      assert (b + [x])[1..] == b[1..] + [x];
      ShlByte(x, 8 * (|b| - 1));
    }
  }

  /** One step of the or-accumulation in GetU32 and GetU64. */
  lemma OrNextByte(b: Bytes, x: u8)
    ensures Or(Value(b), Shl(x, 8 * |b|)) == Value(b + [x]) < Capacity(|b| + 1)
    ensures Shl(x, 8 * |b|) < Capacity(|b| + 1)
  {
    DigitsOfValue(b);
    DigitsOfValue(b + [x]);
    CapacityIsShift(|b|);
    ValueSnoc(b, x);
    OrDisjoint(Value(b), x, 8 * |b|);
  }

  lemma {:induction false} CapacityMonotone(m: nat, n: nat)
    requires m <= n
    ensures 1 <= Capacity(m) <= Capacity(n)
    decreases n
  {
    if n == 0 {
    } else if m < n {
      CapacityMonotone(m, n - 1);
    } else {
      CapacityMonotone(m - 1, n - 1);
    }
  }

  /** The value read from a 4-byte little-endian word. */
  function GetU32(p: Bytes): (v: u32)
    requires |p| == 4
    ensures v == Value(p)
  {
    GetU32Steps(p);
    Or(Or(Or(p[0], ToU32(Shl(p[1], 8))), ToU32(Shl(p[2], 16))), ToU32(Shl(p[3], 24)))
  }

  lemma GetU32Steps(p: Bytes)
    requires |p| == 4
    ensures Or(Or(Or(p[0], ToU32(Shl(p[1], 8))), ToU32(Shl(p[2], 16))), ToU32(Shl(p[3], 24))) == Value(p)
    ensures Value(p) < U32_LIMIT
  {
    var b1, b2, b3 := p[..1], p[..2], p[..3];
    assert b1 + [p[1]] == b2 && b2 + [p[2]] == b3 && b3 + [p[3]] == p;
    Capacities();
    CapacityMonotone(2, 4);
    CapacityMonotone(3, 4);
    assert Value(b1) == p[0] + 256 * Value([]);
    OrNextByte(b1, p[1]);
    OrNextByte(b2, p[2]);
    OrNextByte(b3, p[3]);
  }

  method GetU64(p: Bytes) returns (v: u64)
    requires |p| == 8
    ensures v == Value(p)
  {
    v := 0;
    for i := 0 to 8
      invariant v == Value(p[..i])
    {
      Capacities();
      CapacityMonotone(i + 1, 8);
      OrNextByte(p[..i], p[i]);
      assert p[..i] + [p[i]] == p[..i + 1];
      v := Or(v, ToU64(Shl(p[i], 8 * i)));
    }
    assert p[..8] == p;
  }

  /** A std::vector<uint8_t> that the encoders append to through a reference. */
  class ByteBuffer {
    var bytes: Bytes

    constructor ()
      ensures bytes == []
    {
      bytes := [];
    }

    method PushBack(x: u8)
      modifies this
      ensures bytes == old(bytes) + [x]
    {
      bytes := bytes + [x];
    }

    method Insert(data: Bytes)
      modifies this
      ensures bytes == old(bytes) + data
    {
      bytes := bytes + data;
    }

    method PutU32(v: u32)
      modifies this
      ensures bytes == old(bytes) + Digits(v, 4)
    {
      PushBack(And(v, 0xFF));
      PushBack(And(Shr(v, 8), 0xFF));
      PushBack(And(Shr(v, 16), 0xFF));
      PushBack(And(Shr(v, 24), 0xFF));
    }

    method PutU64(v: u64)
      modifies this
      ensures bytes == old(bytes) + Digits(v, 8)
    {
      for i := 0 to 8
        invariant bytes == old(bytes) + Digits(v, 8)[..i]
      {
        PushBack(And(Shr(v, 8 * i), 0xFF));
      }
    }
  }
}
