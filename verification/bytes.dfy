/** Byte-level vocabulary shared by every Oscup codec: bytes as small
    integers, zero padding, and the little-endian reading of a byte string. */
module Bytes {

  /** One octet, as Python's `bytearray` elements and C's `uint8_t` hold it. */
  type Byte = x: int | 0 <= x < 256

  /** The conventional optional value; `None` models Python's `None` and C's NULL. */
  datatype Option<+T> = None | Some(value: T)

  /** `n` zero bytes, what `bytearray(n)` allocates. */
  function Zeros(n: nat): (z: seq<Byte>)
    ensures |z| == n
    ensures forall i :: 0 <= i < n ==> z[i] == 0
  {
    seq(n, _ => 0)
  }

  /** 256 to the power `n`: the number of values `n` bytes can hold. */
  function Pow256(n: nat): (p: nat)
    ensures p > 0
  {
    if n == 0 then 1 else 256 * Pow256(n - 1)
  }

  /** The value of a byte string read least significant byte first. */
  function LeValue(s: seq<Byte>): (v: nat)
    ensures v < Pow256(|s|)
  {
    if |s| == 0 then 0 else s[0] + 256 * LeValue(s[1..])
  }

  function Min(a: int, b: int): int
  {
    if a <= b then a else b
  }

  // ---- Bytes and 16-bit registers ----
  // Conversions between integers and bit vectors are spelled out bit by bit.
  // Widening is defined by binary expansion, so that the verifier unfolds it
  // only on demand; `WidenSpread` gives its eight bits at once.

  /** Bit `mask` of a register that holds byte `b`, where `mask` has weight `p`. */
  function Bit(b: Byte, p: nat, mask: bv16): bv16
    requires p > 0
  {
    if (b / p) % 2 == 1 then mask else 0
  }

  /** A byte as the low byte of a 16-bit register: C's `uint8_t` to `uint16_t`
      promotion, Python's `& 0xff` of a byte. Defined by binary expansion,
      most significant bit first. */
  function Widen(b: Byte): bv16
    decreases b
  {
    if b == 0 then 0 else (Widen(b / 2) << 1) | (if b % 2 == 1 then 1 else 0)
  }

  /** The eight bits of a widened byte, spelled out. */
  function Spread(b: Byte): bv16
  {
    Bit(b, 1, 0x01) | Bit(b, 2, 0x02) | Bit(b, 4, 0x04) | Bit(b, 8, 0x08)
    | Bit(b, 16, 0x10) | Bit(b, 32, 0x20) | Bit(b, 64, 0x40) | Bit(b, 128, 0x80)
  }

  /** Spreading commutes with halving: the bits of `b` are the bits of
      `b / 2` moved up one place, with the low bit of `b` below them. */
  lemma SpreadStep(b: Byte)
    ensures Spread(b) == (Spread(b / 2) << 1) | (if b % 2 == 1 then 1 else 0)
  {
    var h := b / 2;
    assert h / 1 == b / 2 && h / 2 == b / 4 && h / 4 == b / 8 && h / 8 == b / 16;
    assert h / 16 == b / 32 && h / 32 == b / 64 && h / 64 == b / 128 && h / 128 == 0;
  }

  lemma {:induction false} WidenSpread(b: Byte)
    ensures Widen(b) == Spread(b)
    decreases b
  {
    if b > 0 {
      WidenSpread(b / 2);
      WidenStep(b, Spread(b / 2));
      SpreadStep(b);
    }
  }

  lemma WidenStep(b: Byte, s: bv16)
    requires b > 0 && Widen(b / 2) == s
    ensures Widen(b) == (s << 1) | (if b % 2 == 1 then 1 else 0)
  {
  }

  /** The binary digit of `x` at bit `mask`. */
  function Digit(x: bv16, mask: bv16): nat
  {
    if x & mask != 0 then 1 else 0
  }

  /** The low byte of a register: C's narrowing conversion to `uint8_t`,
      Python's `x & 0xFF`. */
  function Narrow(x: bv16): (b: Byte)
    ensures b == 0 <==> x & 0xFF == 0
  {
    Digit(x, 0x01) + 2 * Digit(x, 0x02) + 4 * Digit(x, 0x04) + 8 * Digit(x, 0x08)
    + 16 * Digit(x, 0x10) + 32 * Digit(x, 0x20) + 64 * Digit(x, 0x40) + 128 * Digit(x, 0x80)
  }

  /** A register read as the unsigned integer it holds. */
  function Value(x: bv16): (v: nat)
    ensures v < 0x10000
    ensures v % 256 == Narrow(x) && v / 256 == Narrow(x >> 8)
  {
    Narrow(x) + 256 * Narrow(x >> 8)
  }

  lemma MulAtLeast(m: nat, k: nat)
    requires k >= 1
    ensures m * k >= m
  {
    assert m * k == m * (k - 1) + m;
  }

  /** Euclidean division: `c` is the quotient of `x` by `m` whenever
      `x == m * c + s` with `0 <= s < m`. */
  lemma Quotient(x: nat, m: nat, c: nat, s: nat)
    requires m > 0 && s < m && x == m * c + s
    ensures x / m == c
  {
    var q, r := x / m, x % m;
    assert m * q + r == m * c + s;
    if q > c {
      assert m * q == m * c + m * (q - c);
      MulAtLeast(m, q - c);
      assert false;
    } else if q < c {
      assert m * c == m * q + m * (c - q);
      MulAtLeast(m, c - q);
      assert false;
    }
  }

  /** The quotient by `p` is its lowest binary digit plus twice the
      quotient by `2 * p`. */
  lemma Half(x: nat, p: nat)
    requires p > 0
    ensures x / p == (x / p) % 2 + 2 * (x / (2 * p))
  {
    var a, r := x / p, x % p;
    var c, d := a / 2, a % 2;
    assert x == p * a + r;
    assert p * a == (2 * p) * c + p * d by {
      assert a == 2 * c + d;
    }
    assert p * d + r < 2 * p by {
      if d == 1 { assert p * d == p; } else { assert p * d == 0; }
    }
    Quotient(x, 2 * p, c, p * d + r);
  }

  /** A byte is the sum of its binary digits. */
  lemma Decompose(b: Byte)
    ensures b == (b / 1) % 2 + 2 * ((b / 2) % 2) + 4 * ((b / 4) % 2) + 8 * ((b / 8) % 2)
      + 16 * ((b / 16) % 2) + 32 * ((b / 32) % 2) + 64 * ((b / 64) % 2) + 128 * ((b / 128) % 2)
  {
    Half(b, 1); Half(b, 2); Half(b, 4); Half(b, 8); Half(b, 16); Half(b, 32); Half(b, 64); Half(b, 128);
  }

  lemma WidenBits(b: Byte)
    ensures Widen(b) & 0x01 == Bit(b, 1, 0x01) && Widen(b) & 0x02 == Bit(b, 2, 0x02)
    ensures Widen(b) & 0x04 == Bit(b, 4, 0x04) && Widen(b) & 0x08 == Bit(b, 8, 0x08)
    ensures Widen(b) & 0x10 == Bit(b, 16, 0x10) && Widen(b) & 0x20 == Bit(b, 32, 0x20)
    ensures Widen(b) & 0x40 == Bit(b, 64, 0x40) && Widen(b) & 0x80 == Bit(b, 128, 0x80)
  {
    WidenSpread(b);
  }

  lemma DigitOfBit(x: bv16, b: Byte, p: nat, mask: bv16)
    requires p > 0 && mask != 0 && x & mask == Bit(b, p, mask)
    ensures Digit(x, mask) == (b / p) % 2
  {
  }

  /** A widened byte has a clear high byte. */
  lemma WidenHighClear(b: Byte)
    ensures Widen(b) & 0xFF00 == 0
  {
    WidenSpread(b);
  }

  /** Narrowing undoes widening, and a widened byte has a clear high byte. */
  lemma NarrowWiden(b: Byte)
    ensures Narrow(Widen(b)) == b
    ensures Widen(b) & 0xFF00 == 0
  {
    WidenHighClear(b);
    var w := Widen(b);
    WidenBits(b);
    DigitOfBit(w, b, 1, 0x01); DigitOfBit(w, b, 2, 0x02);
    DigitOfBit(w, b, 4, 0x04); DigitOfBit(w, b, 8, 0x08);
    DigitOfBit(w, b, 16, 0x10); DigitOfBit(w, b, 32, 0x20);
    DigitOfBit(w, b, 64, 0x40); DigitOfBit(w, b, 128, 0x80);
    assert Narrow(w) == (b / 1) % 2 + 2 * ((b / 2) % 2) + 4 * ((b / 4) % 2) + 8 * ((b / 8) % 2)
      + 16 * ((b / 16) % 2) + 32 * ((b / 32) % 2) + 64 * ((b / 64) % 2) + 128 * ((b / 128) % 2);
    Decompose(b);
  }

  /** Different bytes widen to different registers. */
  lemma WidenInjective(a: Byte, b: Byte)
    requires Widen(a) == Widen(b)
    ensures a == b
  {
    NarrowWiden(a);
    NarrowWiden(b);
  }

  /** Narrowing sees exactly the low byte. */
  lemma NarrowInjective(x: bv16, y: bv16)
    ensures Narrow(x) == Narrow(y) <==> x & 0xFF == y & 0xFF
  {
    if Narrow(x) == Narrow(y) {
      NarrowDetermines(x, y);
    } else {
      NarrowSeesLowByte(x, y);
    }
  }

  /** Equal low bytes narrow to equal values. */
  lemma NarrowSeesLowByte(x: bv16, y: bv16)
    ensures x & 0xFF == y & 0xFF ==> Narrow(x) == Narrow(y)
  {
  }

  /** Equal narrowed values come from equal low bytes: the weights are
      compared from the top bit down, each bit outweighing all below it. */
  lemma NarrowDetermines(x: bv16, y: bv16)
    requires Narrow(x) == Narrow(y)
    ensures x & 0xFF == y & 0xFF
  {
    DigitsBounded(x);
    DigitsBounded(y);
    Digits(Digit(x, 0x01), Digit(x, 0x02), Digit(x, 0x04), Digit(x, 0x08),
           Digit(x, 0x10), Digit(x, 0x20), Digit(x, 0x40), Digit(x, 0x80),
           Digit(y, 0x01), Digit(y, 0x02), Digit(y, 0x04), Digit(y, 0x08),
           Digit(y, 0x10), Digit(y, 0x20), Digit(y, 0x40), Digit(y, 0x80));
    DigitsDetermine(x, y);
  }

  /** Every binary digit is 0 or 1. */
  lemma DigitsBounded(x: bv16)
    ensures Digit(x, 0x01) <= 1 && Digit(x, 0x02) <= 1 && Digit(x, 0x04) <= 1 && Digit(x, 0x08) <= 1
    ensures Digit(x, 0x10) <= 1 && Digit(x, 0x20) <= 1 && Digit(x, 0x40) <= 1 && Digit(x, 0x80) <= 1
  {
  }

  /** Binary digits are unique: two numbers written with eight binary
      digits agree only digit by digit. */
  lemma Digits(a0: nat, a1: nat, a2: nat, a3: nat, a4: nat, a5: nat, a6: nat, a7: nat,
               b0: nat, b1: nat, b2: nat, b3: nat, b4: nat, b5: nat, b6: nat, b7: nat)
    requires a0 <= 1 && a1 <= 1 && a2 <= 1 && a3 <= 1 && a4 <= 1 && a5 <= 1 && a6 <= 1 && a7 <= 1
    requires b0 <= 1 && b1 <= 1 && b2 <= 1 && b3 <= 1 && b4 <= 1 && b5 <= 1 && b6 <= 1 && b7 <= 1
    requires a0 + 2 * a1 + 4 * a2 + 8 * a3 + 16 * a4 + 32 * a5 + 64 * a6 + 128 * a7
          == b0 + 2 * b1 + 4 * b2 + 8 * b3 + 16 * b4 + 32 * b5 + 64 * b6 + 128 * b7
    ensures a0 == b0 && a1 == b1 && a2 == b2 && a3 == b3 && a4 == b4 && a5 == b5 && a6 == b6 && a7 == b7
  {
    var sa, sb := a0 + 2 * a1 + 4 * a2 + 8 * a3 + 16 * a4 + 32 * a5 + 64 * a6, b0 + 2 * b1 + 4 * b2 + 8 * b3 + 16 * b4 + 32 * b5 + 64 * b6;
    assert a7 == b7 && sa == sb;
    sa, sb := sa - 64 * a6, sb - 64 * b6;
    assert a6 == b6 && sa == sb;
    sa, sb := sa - 32 * a5, sb - 32 * b5;
    assert a5 == b5 && sa == sb;
    sa, sb := sa - 16 * a4, sb - 16 * b4;
    assert a4 == b4 && sa == sb;
    sa, sb := sa - 8 * a3, sb - 8 * b3;
    assert a3 == b3 && sa == sb;
    sa, sb := sa - 4 * a2, sb - 4 * b2;
    assert a2 == b2 && sa == sb;
    assert a1 == b1;
  }

  /** Registers with the same eight low binary digits agree on their low
      byte. */
  lemma DigitsDetermine(x: bv16, y: bv16)
    requires Digit(x, 0x01) == Digit(y, 0x01) && Digit(x, 0x02) == Digit(y, 0x02)
    requires Digit(x, 0x04) == Digit(y, 0x04) && Digit(x, 0x08) == Digit(y, 0x08)
    requires Digit(x, 0x10) == Digit(y, 0x10) && Digit(x, 0x20) == Digit(y, 0x20)
    requires Digit(x, 0x40) == Digit(y, 0x40) && Digit(x, 0x80) == Digit(y, 0x80)
    ensures x & 0xFF == y & 0xFF
  {
    assert x & 0x01 == y & 0x01 && x & 0x02 == y & 0x02 && x & 0x04 == y & 0x04 && x & 0x08 == y & 0x08;
    assert x & 0x10 == y & 0x10 && x & 0x20 == y & 0x20 && x & 0x40 == y & 0x40 && x & 0x80 == y & 0x80;
  }

  /** Different registers hold different integers. */
  lemma ValueInjective(x: bv16, y: bv16)
    requires Value(x) == Value(y)
    ensures x == y
  {
    NarrowInjective(x, y);
    NarrowInjective(x >> 8, y >> 8);
  }

  /** Widening the low byte of a register gives back exactly that byte. */
  lemma WidenNarrow(x: bv16)
    ensures Widen(Narrow(x)) == x & 0xFF
  {
    NarrowWiden(Narrow(x));
    NarrowInjective(Widen(Narrow(x)), x);
  }

  /** A widened byte holds the byte's own value. */
  lemma ValueWiden(b: Byte)
    ensures Value(Widen(b)) == b
  {
    NarrowWiden(b);
    assert Widen(b) >> 8 == 0;
  }
}
