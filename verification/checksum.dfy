/** The Oscup checksum: a 16-bit shift register, fed least significant bit
    first, seeded with 0xFFFF and folded with the project constant 0xBFA5
    (49061). It is not one of the named CRC-16 variants.

    `Crc` is the reference definition; `ProtComputeCrc` is the loop of
    prot.cpp proved equal to it. The Python and draft C++ versions live with
    their codecs and are related back to `Crc`. */
module Checksum {
  import opened Bytes

  /** Constant XORed in after a shift that drops a 1 bit. */
  const POLY: bv16 := 0xBFA5
  /** Initial register value. */
  const SEED: bv16 := 0xFFFF

  /** One round: shift right, folding in POLY when the dropped bit was 1. */
  function Shift(crc: bv16): bv16
  {
    if crc & 1 != 0 then (crc >> 1) ^ POLY else crc >> 1
  }

  /** `n` rounds of `Shift`. */
  function Shifts(crc: bv16, n: nat): bv16
    decreases n
  {
    if n == 0 then crc else Shifts(Shift(crc), n - 1)
  }

  /** Feeds one byte: XOR it into the low byte, then eight rounds. */
  function Absorb(crc: bv16, b: Byte): bv16
  {
    Shifts(crc ^ Widen(b), 8)
  }

  /** The checksum of a byte string: the register after absorbing every byte
      in order, starting from SEED. The last step is split into `CrcStep`
      so that the verifier unfolds one byte at a time. */
  function Crc(data: seq<Byte>): bv16
    decreases |data|, 1
  {
    if |data| == 0 then SEED else CrcStep(data)
  }

  function CrcStep(data: seq<Byte>): bv16
    requires |data| > 0
    decreases |data|, 0
  {
    Absorb(Crc(data[..|data| - 1]), data[|data| - 1])
  }

  /** Appending a byte absorbs it into the checksum of the prefix. */
  lemma CrcSnoc(data: seq<Byte>, b: Byte)
    ensures Crc(data + [b]) == Absorb(Crc(data), b)
  {
    assert (data + [b])[..|data|] == data;
    assert Crc(data + [b]) == CrcStep(data + [b]);
  }

  // ---- Every round is a bijection, so no single-byte change goes unseen ----

  /** The top bit of `Shift(x)` is the bit it dropped, so the round can be undone. */
  lemma ShiftInjective(x: bv16, y: bv16)
    requires Shift(x) == Shift(y)
    ensures x == y
  {
  }

  lemma {:induction false} ShiftsInjective(x: bv16, y: bv16, n: nat)
    requires Shifts(x, n) == Shifts(y, n)
    ensures x == y
    decreases n
  {
    if n > 0 {
      ShiftsInjective(Shift(x), Shift(y), n - 1);
      ShiftInjective(x, y);
    }
  }

  /** Different registers stay different after absorbing the same byte. */
  lemma AbsorbInjectiveInRegister(x: bv16, y: bv16, b: Byte)
    requires Absorb(x, b) == Absorb(y, b)
    ensures x == y
  {
    ShiftsInjective(x ^ Widen(b), y ^ Widen(b), 8);
  }

  /** Different bytes give different registers when absorbed into the same one. */
  lemma AbsorbInjectiveInByte(x: bv16, a: Byte, b: Byte)
    requires Absorb(x, a) == Absorb(x, b)
    ensures a == b
  {
    ShiftsInjective(x ^ Widen(a), x ^ Widen(b), 8);
    WidenInjective(a, b);
  }

  /** Changing the last byte changes the checksum. */
  lemma CrcLastByteChange(p: seq<Byte>, x: Byte, y: Byte)
    requires x != y
    ensures Crc(p + [x]) != Crc(p + [y])
  {
    CrcSnoc(p, x);
    CrcSnoc(p, y);
    if Absorb(Crc(p), x) == Absorb(Crc(p), y) {
      AbsorbInjectiveInByte(Crc(p), x, y);
    }
  }

  /** Appending the same byte keeps checksums apart. */
  lemma CrcSameByteAppended(p: seq<Byte>, q: seq<Byte>, x: Byte)
    requires Crc(p) != Crc(q)
    ensures Crc(p + [x]) != Crc(q + [x])
  {
    CrcSnoc(p, x);
    CrcSnoc(q, x);
    if Absorb(Crc(p), x) == Absorb(Crc(q), x) {
      AbsorbInjectiveInRegister(Crc(p), Crc(q), x);
    }
  }

  /** Two byte strings of equal length that differ in exactly one position
      always have different checksums: every single-byte corruption of a
      frame is detected. */
  lemma {:induction false} CrcDetectsSingleByteChange(a: seq<Byte>, b: seq<Byte>, k: nat)
    requires |a| == |b| && k < |a|
    requires a[k] != b[k]
    requires forall i :: 0 <= i < |a| && i != k ==> a[i] == b[i]
    ensures Crc(a) != Crc(b)
    decreases |a|
  {
    var n := |a| - 1;
    var pa, pb := a[..n], b[..n];
    assert a == pa + [a[n]] && b == pb + [b[n]];
    if k == n {
      assert pa == pb;
      CrcLastByteChange(pa, a[n], b[n]);
    } else {
      CrcDetectsSingleByteChange(pa, pb, k);
      CrcSameByteAppended(pa, pb, a[n]);
    }
  }

  // ---- Appending the checksum clears the register ----

  /** Eight rounds on a register whose low byte is clear never fold in POLY:
      they only move the high byte down. */
  lemma ShiftsClearLow(x: bv16)
    requires x & 0xFF == 0
    ensures Shifts(x, 8) == x >> 8
  {
  }

  /** Absorbing the checksum of `data` after `data`, low byte first, leaves
      the register at zero: the low byte cancels the register's low half,
      eight plain shifts bring the high half down, and the high byte then
      cancels it. */
  lemma CrcResidue(data: seq<Byte>)
    ensures var c := Crc(data);
      Crc(data + [Narrow(c), Narrow(c >> 8)]) == 0
  {
    var c := Crc(data);
    var lo, hi := Narrow(c), Narrow(c >> 8);
    assert data + [lo, hi] == (data + [lo]) + [hi];
    CrcSnoc(data, lo);
    CrcSnoc(data + [lo], hi);
    AbsorbOwnLowByte(c);
    AbsorbOwnLowByte(c >> 8);
    assert (c >> 8) >> 8 == 0;
  }

  /** Absorbing a register's own low byte shifts its high byte down. */
  lemma AbsorbOwnLowByte(x: bv16)
    ensures Absorb(x, Narrow(x)) == x >> 8
  {
    WidenNarrow(x);
    assert (x ^ Widen(Narrow(x))) & 0xFF == 0;
    ShiftsClearLow(x ^ Widen(Narrow(x)));
    assert (x ^ (x & 0xFF)) >> 8 == x >> 8;
  }

  lemma ShiftOdd(x: bv16)
    requires x & 0x0001 != 0
    ensures Shift(x) == (x >> 1) ^ 49061
  {
  }

  lemma ShiftEven(x: bv16)
    requires x & 0x0001 == 0
    ensures Shift(x) == x >> 1
  {
  }

  lemma ShiftsUnfold(x: bv16, k: nat)
    requires k > 0
    ensures Shifts(x, k) == Shifts(Shift(x), k - 1)
  {
  }

  /** The inner loop of prot.cpp `Prot::ComputeCRC`: eight rounds on the
      register, each shifting right and folding in 49061 when the dropped
      bit was 1. */
  method EightRounds(start: bv16) returns (tmpCrc: bv16)
    ensures tmpCrc == Shifts(start, 8)
  {
    tmpCrc := start;
    var n := 0;
    while n <= 7
      invariant 0 <= n <= 8
      invariant Shifts(tmpCrc, 8 - n) == Shifts(start, 8)
    {
      ghost var before := tmpCrc;
      if tmpCrc & 0x0001 != 0 {
        tmpCrc := tmpCrc >> 1;
        tmpCrc := tmpCrc ^ 49061;
        ShiftOdd(before);
      } else {
        tmpCrc := tmpCrc >> 1;
        ShiftEven(before);
      }
      ShiftsUnfold(before, 8 - n);
      n := n + 1;
    }
  }

  /** prot.cpp `Prot::ComputeCRC`: the checksum of the first `len` bytes of
      `buff`, each byte absorbed exactly once and in order. */
  method ProtComputeCrc(buff: seq<Byte>, len: Byte) returns (crc: bv16)
    requires len <= |buff|
    ensures crc == Crc(buff[..len])
    ensures len == 0 ==> crc == 0xFFFF
  {
    crc := 0xFFFF;
    var j := 0;
    while j < len
      invariant 0 <= j <= len
      invariant crc == Crc(buff[..j])
    {
      var byteValue := buff[j];
      var tmpCrc := EightRounds(crc ^ Widen(byteValue));
      assert buff[..j + 1] == buff[..j] + [byteValue];
      CrcSnoc(buff[..j], byteValue);
      crc := tmpCrc;
      j := j + 1;
    }
  }
}
