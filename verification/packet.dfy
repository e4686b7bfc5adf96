/** The production packet codec of pyOscup (`packet_t` in pyOscup/pyOscup.py):
    a fixed 45-byte frame

        id | command | length | payload, zero-padded to 40 | crc low | crc high

    built by `Pack` and taken apart by `Unpack`. A `Packet` value is one
    state of a `packet_t` object; every method becomes a function from the
    old state to the new one. */
module Packets {
  import opened Bytes
  import Checksum

  const FIX_PACKET_LENGTH: nat := 45
  const MAX_PAYLOAD_LENGTH: nat := FIX_PACKET_LENGTH - 5
  /** Bytes covered by the checksum: everything but the two checksum bytes. */
  const CRC_SPAN: nat := FIX_PACKET_LENGTH - 2

  const CMD_ACK: Byte := 0xFE
  const CMD_NACK: Byte := 0xFF

  /** Result codes shared by the codec and the protocol loops. */
  datatype ErrorCode =
    | Ok | LengthError | PackMemmoveError | WriteError | NullPointer | AckTimeout
    | CrcError | Nack | PackError | NoData | UnpackError

  // ---------------------------------------------------------------------
  // Checksum, as Python computes it. The Python register is an unbounded
  // int, but it starts at 0xFFFF and neither XOR with a byte, the mask,
  // a right shift nor XOR with 49061 can set a bit above bit 15, so a
  // 16-bit register holds it exactly.
  // ---------------------------------------------------------------------

  /** The value `computeCRC` returns for `data`: the reference register read
      as an integer. `PyComputeCrc` is the Python loop proved to produce it. */
  function ComputeCrc(data: seq<Byte>): (crc: nat)
    ensures crc < 0x10000
    ensures |data| == 0 ==> crc == 0xFFFF
  {
    Value(Checksum.Crc(data))
  }

  /** `packet_t.computeCRC`, loop for loop: the register starts at 0xFFFF;
      each byte is masked with 0xff, XORed in, the register masked with
      0xFFFF, and eight rounds follow. It returns the integer value of the
      prot.cpp checksum of the same bytes. */
  method PyComputeCrc(data: seq<Byte>) returns (result: nat)
    ensures result == ComputeCrc(data)
    ensures result < 0x10000
  {
    var crc: bv16 := 0xFFFF;
    for j := 0 to |data|
      invariant crc == Checksum.Crc(data[..j])
    {
      var byteValue := Widen(data[j]);
      NarrowWiden(data[j]);
      byteValue := byteValue & 0xff;
      crc := (crc ^ byteValue) & 0xFFFF;
      ghost var before := Checksum.Crc(data[..j]);
      crc := Checksum.EightRounds(crc);
      assert crc == Checksum.Absorb(before, data[j]);
      assert data[..j + 1] == data[..j] + [data[j]];
      Checksum.CrcSnoc(data[..j], data[j]);
    }
    assert data[..|data|] == data;
    result := Value(crc);
  }

  lemma Mod16(v: int) ensures v % 0x1_0000 == v % 0x100 + 0x100 * ((v / 0x100) % 0x100) {}
  lemma Mod24(v: int) ensures v % 0x100_0000 == v % 0x1_0000 + 0x1_0000 * ((v / 0x1_0000) % 0x100) {}
  lemma Mod32(v: int) ensures v % 0x1_0000_0000 == v % 0x100_0000 + 0x100_0000 * ((v / 0x100_0000) % 0x100) {}

  /** Python's `(value >> 8 * k) & 0xFF` for any integer: floor division and
      a non-negative remainder, as Dafny's `/` and `%` compute them for a
      positive divisor. */
  function ByteOf(value: int, k: nat): Byte
  {
    (value / Pow256(k)) % 256
  }

  lemma LeValue2(s: seq<Byte>)
    requires |s| == 2
    ensures LeValue(s) == s[0] as int + 256 * (s[1] as int)
  {
    assert s[1..][1..] == [];
  }

  lemma LeValue3(s: seq<Byte>)
    requires |s| == 3
    ensures LeValue(s) == s[0] as int + 256 * (s[1] as int) + 0x1_0000 * (s[2] as int)
  {
    LeValue2(s[1..]);
  }

  lemma LeValue4(s: seq<Byte>)
    requires |s| == 4
    ensures LeValue(s) == s[0] as int + 256 * (s[1] as int) + 0x1_0000 * (s[2] as int) + 0x100_0000 * (s[3] as int)
  {
    LeValue3(s[1..]);
  }

  /** `packet_t.encodeInteger`: for lengths 1 to 4, `length` bytes whose
      little-endian value is `value` modulo 256 to the `length`; any other
      length gives `length` zero bytes. */
  function EncodeInteger(value: int, length: nat): (data: seq<Byte>)
    ensures |data| == length
    ensures 1 <= length <= 4 ==> LeValue(data) == value % Pow256(length)
    ensures !(1 <= length <= 4) ==> data == Zeros(length)
  {
    if length == 1 then
      [ByteOf(value, 0)]
    else if length == 2 then
      var data := [ByteOf(value, 0), ByteOf(value, 1)];
      Mod16(value);
      LeValue2(data);
      data
    else if length == 3 then
      var data := [ByteOf(value, 0), ByteOf(value, 1), ByteOf(value, 2)];
      Mod16(value);
      Mod24(value);
      LeValue3(data);
      data
    else if length == 4 then
      var data := [ByteOf(value, 0), ByteOf(value, 1), ByteOf(value, 2), ByteOf(value, 3)];
      Mod16(value);
      Mod24(value);
      Mod32(value);
      LeValue4(data);
      data
    else
      Zeros(length)
  }

  /** The two-byte encoding the frame uses for its checksum: low byte, then
      high byte, and together they give the value back modulo 65536. */
  lemma EncodeInteger2(value: int)
    ensures EncodeInteger(value, 2) == [value % 256, (value / 256) % 256]
    ensures EncodeInteger(value, 2)[0] as int + 256 * (EncodeInteger(value, 2)[1] as int) == value % 0x1_0000
  {
    LeValue2(EncodeInteger(value, 2));
  }

  /** A value below 0x10000 comes back whole from its two-byte encoding. */
  lemma EncodeShort(value: nat)
    requires value < 0x1_0000
    ensures |EncodeInteger(value, 2)| == 2
    ensures EncodeInteger(value, 2)[0] as int + 256 * (EncodeInteger(value, 2)[1] as int) == value
  {
    EncodeInteger2(value);
  }

  /** The checksum of a byte string followed by its own two-byte encoding
      is 0. */
  lemma ComputeCrcResidue(data: seq<Byte>)
    ensures ComputeCrc(data + EncodeInteger(ComputeCrc(data), 2)) == 0
  {
    var c := Checksum.Crc(data);
    EncodeValue(c);
    Checksum.CrcResidue(data);
    assert Value(0) == 0;
  }

  /** The two-byte encoding of a register's value is its low byte, then its
      high byte. */
  lemma EncodeValue(c: bv16)
    ensures EncodeInteger(Value(c), 2) == [Narrow(c), Narrow(c >> 8)]
  {
    var v := Value(c);
    EncodeInteger2(v);
    HighByte(v);
  }

  /** The high byte of a 16-bit value needs no reduction. */
  lemma HighByte(v: nat)
    requires v < 0x1_0000
    ensures (v / 256) % 256 == v / 256
  {
  }

  /** Two bytes equal the encoding of a 16-bit value exactly when, read
      low byte first, they give that value. */
  lemma EncodeInteger2Matches(value: nat, lo: Byte, hi: Byte)
    requires value < 0x1_0000
    ensures EncodeInteger(value, 2) == [lo, hi] <==> lo as int + 256 * (hi as int) == value
  {
    EncodeInteger2(value);
    HighByte(value);
  }

  // ---------------------------------------------------------------------
  // The packet object
  // ---------------------------------------------------------------------

  /** One state of a `packet_t` object. `crc` is a Python int. */
  datatype Packet = Packet(id: Byte, command: Byte, length: Byte, payload: seq<Byte>, crc: nat, buff: seq<Byte>)

  /** `packet_t(id)`: empty header, 40 zero payload bytes, 45 zero frame bytes. */
  function Init(id: Byte): (r: Packet)
    ensures r.id == id && r.command == 0 && r.length == 0 && r.crc == 0
    ensures |r.payload| == MAX_PAYLOAD_LENGTH && forall i :: 0 <= i < MAX_PAYLOAD_LENGTH ==> r.payload[i] == 0
    ensures |r.buff| == FIX_PACKET_LENGTH
    ensures UpdateBuff(r) == [id] + Zeros(CRC_SPAN - 1)
  {
    Packet(id, 0, 0, Zeros(MAX_PAYLOAD_LENGTH), 0, Zeros(FIX_PACKET_LENGTH))
  }

  /** `packet_t.reset`: forgets everything, including the device id, and is
      indistinguishable from a packet built with id 0. */
  function Reset(p: Packet): (r: Packet)
    ensures r == Init(0)
    ensures r.id == 0 && r.crc == 0 && |r.payload| == MAX_PAYLOAD_LENGTH
  {
    Packet(0, 0, 0, Zeros(MAX_PAYLOAD_LENGTH), 0, Zeros(FIX_PACKET_LENGTH))
  }

  /** `packet_t.__updateBuff`: header, payload, then zero padding up to the
      payload capacity (none when the payload is already that long). */
  function UpdateBuff(p: Packet): (b: seq<Byte>)
    ensures |p.payload| <= MAX_PAYLOAD_LENGTH ==> |b| == CRC_SPAN
    ensures |p.payload| > MAX_PAYLOAD_LENGTH ==> |b| == 3 + |p.payload|
    ensures b[0] == p.id && b[1] == p.command && b[2] == p.length
    ensures forall i :: 0 <= i < |p.payload| ==> b[3 + i] == p.payload[i]
    ensures forall i :: 3 + |p.payload| <= i < |b| ==> b[i] == 0
  {
    [p.id] + [p.command] + [p.length] + p.payload
      + (if |p.payload| < MAX_PAYLOAD_LENGTH then Zeros(MAX_PAYLOAD_LENGTH - |p.payload|) else [])
  }

  /** `packet_t.pack`: sets the header fields, builds the buffer and appends
      its checksum, low byte first. Whatever the payload, the last two bytes
      of the buffer carry the checksum of everything before them. */
  function Pack(p: Packet, command: Byte, length: Byte, payload: seq<Byte>): (q: Packet)
    ensures q.id == p.id && q.command == command && q.length == length && q.payload == payload
    ensures |q.buff| == 2 + |UpdateBuff(q)|
    ensures q.buff[..|q.buff| - 2] == UpdateBuff(q)
    ensures q.crc == ComputeCrc(q.buff[..|q.buff| - 2])
    ensures q.buff[|q.buff| - 2] as int + 256 * (q.buff[|q.buff| - 1] as int) == q.crc
  {
    var fields := p.(command := command, length := length, payload := payload);
    var b := UpdateBuff(fields);
    var crc := ComputeCrc(b);
    var enc := EncodeInteger(crc, 2);
    EncodeShort(crc);
    assert (b + enc)[..|b|] == b;
    fields.(crc := crc, buff := b + enc)
  }

  /** For a payload within capacity `pack` builds exactly one 45-byte frame:
      id, command, length, the payload, zeros up to byte 42, then the
      checksum of the first 43 bytes, low byte first. A longer payload makes
      a longer buffer with no padding. */
  lemma PackLayout(p: Packet, command: Byte, length: Byte, payload: seq<Byte>)
    ensures var q := Pack(p, command, length, payload);
      && (|payload| > MAX_PAYLOAD_LENGTH ==> |q.buff| == 5 + |payload|)
      && (|payload| <= MAX_PAYLOAD_LENGTH ==>
        && |q.buff| == FIX_PACKET_LENGTH
        && q.buff[0] == p.id && q.buff[1] == command && q.buff[2] == length
        && (forall i :: 0 <= i < |payload| ==> q.buff[3 + i] == payload[i])
        && (forall i :: 3 + |payload| <= i < CRC_SPAN ==> q.buff[i] == 0)
        && q.buff[CRC_SPAN] as int + 256 * (q.buff[CRC_SPAN + 1] as int) == ComputeCrc(q.buff[..CRC_SPAN]))
  {
    var q := Pack(p, command, length, payload);
    var b := UpdateBuff(q);
    assert forall i :: 0 <= i < |b| ==> q.buff[i] == b[i];
  }

  // ---------------------------------------------------------------------
  // Unpacking
  // ---------------------------------------------------------------------

  /** What `unpack` did: returned a code, or raised IndexError part-way. In
      both cases the object's state afterwards is given. */
  datatype UnpackOutcome = Returned(code: ErrorCode, packet: Packet) | Raised(packet: Packet)

  /** The loop `payload[i] = buffer[i + 3]` for `i` from `i` up to `n`. The
      flag is false when an index runs off `buffer` or `payload` first;
      the bytes before that index have been copied. */
  function CopyPayload(payload: seq<Byte>, buffer: seq<Byte>, i: nat, n: nat): (r: (seq<Byte>, bool))
    requires i <= n
    decreases n - i
    ensures |r.0| == |payload|
    ensures r.1 <==> i == n || (n <= |payload| && n + 3 <= |buffer|)
    ensures forall k :: 0 <= k < |payload| ==>
      r.0[k] == if i <= k < Min(n, |buffer| - 3) then buffer[k + 3] else payload[k]
  {
    if i == n then (payload, true)
    else if i + 3 >= |buffer| || i >= |payload| then (payload, false)
    else CopyPayload(payload[i := buffer[i + 3]], buffer, i + 1, n)
  }

  /** `packet_t.unpack`. A missing buffer, one shorter than 3 bytes, or one
      whose length byte is below 5 is refused with nothing changed. Otherwise
      the header fields and the first `length` payload bytes are copied and
      the checksum is read back little-endian from bytes 43 and 44; a length
      byte beyond the payload capacity or a buffer too short for the reads
      raises IndexError part-way through, keeping the bytes copied so far. */
  function Unpack(p: Packet, buffer: Option<seq<Byte>>): (r: UnpackOutcome)
    ensures (buffer.None? || |buffer.value| < 3 || buffer.value[2] < 5) ==> r == Returned(UnpackError, p)
    ensures r.Returned? ==> r.code == Ok || r == Returned(UnpackError, p)
    ensures r.Returned? && r.code == Ok <==>
      && buffer.Some? && |buffer.value| >= FIX_PACKET_LENGTH
      && 5 <= buffer.value[2] <= |p.payload|
      && buffer.value[2] + 3 <= |buffer.value|
    ensures !(r.Returned? && r.code == UnpackError) ==>
      var b := buffer.value;
      && r.packet.id == b[0] && r.packet.command == b[1] && r.packet.length == b[2]
      && r.packet.buff == b
      && |r.packet.payload| == |p.payload|
      && (forall k :: 0 <= k < |p.payload| && k >= b[2] ==> r.packet.payload[k] == p.payload[k])
      && (r.Raised? ==> r.packet.crc == p.crc)
      && (r.Raised? ==> forall k :: 0 <= k < |p.payload| ==>
           r.packet.payload[k] == if k < Min(b[2], |b| - 3) then b[k + 3] else p.payload[k])
      && (r.Returned? ==>
           && (forall k :: 0 <= k < b[2] ==> r.packet.payload[k] == b[k + 3])
           && r.packet.crc == b[FIX_PACKET_LENGTH - 2] as int + 256 * (b[FIX_PACKET_LENGTH - 1] as int))
  {
    if buffer.None? || |buffer.value| < 3 then Returned(UnpackError, p)
    else
      var b := buffer.value;
      if b[2] < 5 then Returned(UnpackError, p)
      else
        var head := p.(buff := b, id := b[0], command := b[1], length := b[2]);
        var (payload, completed) := CopyPayload(p.payload, b, 0, b[2]);
        var copied := head.(payload := payload);
        if !completed || |b| < FIX_PACKET_LENGTH then Raised(copied)
        else Returned(Ok, copied.(crc := (b[FIX_PACKET_LENGTH - 1] as int * 256) + b[FIX_PACKET_LENGTH - 2]))
  }

  /** The frame `pack` builds for the given header and payload. */
  function Frame(id: Byte, command: Byte, length: Byte, payload: seq<Byte>): seq<Byte>
  {
    Pack(Init(id), command, length, payload).buff
  }

  /** Round trip: a frame built by `pack` whose length byte is between 5 and
      40, unpacked into any packet with a 40-byte payload area, restores id,
      command and length, the first `length` bytes of the zero-padded
      payload, and a checksum equal to the one recomputed over the first 43
      bytes, so the receiver's check accepts it. */
  lemma UnpackPack(rx: Packet, id: Byte, command: Byte, length: Byte, payload: seq<Byte>)
    requires |payload| <= MAX_PAYLOAD_LENGTH
    requires 5 <= length <= MAX_PAYLOAD_LENGTH
    requires |rx.payload| == MAX_PAYLOAD_LENGTH
    ensures var frame := Frame(id, command, length, payload);
      && |frame| == FIX_PACKET_LENGTH
      && var r := Unpack(rx, Some(frame));
      && r.Returned? && r.code == Ok
      && r.packet.id == id && r.packet.command == command && r.packet.length == length
      && (forall k :: 0 <= k < length ==> r.packet.payload[k] == (if k < |payload| then payload[k] else 0))
      && r.packet.crc == ComputeCrc(frame[..CRC_SPAN])
  {
    var frame := Frame(id, command, length, payload);
    var r := Unpack(rx, Some(frame));
    forall k | 0 <= k < length
      ensures r.packet.payload[k] == (if k < |payload| then payload[k] else 0)
    {
      assert r.packet.payload[k] == frame[k + 3];
    }
  }
  /** Changing any one byte of a frame whose trailer carries the checksum of
      its first 43 bytes breaks that agreement: the receiver's check catches
      every single-byte corruption, of the body or of the trailer. */
  lemma CorruptionDetected(frame: seq<Byte>, k: nat, v: Byte)
    requires |frame| == FIX_PACKET_LENGTH
    requires frame[CRC_SPAN] as int + 256 * (frame[CRC_SPAN + 1] as int) == ComputeCrc(frame[..CRC_SPAN])
    requires k < FIX_PACKET_LENGTH && v != frame[k]
    ensures var g := frame[k := v];
      g[CRC_SPAN] as int + 256 * (g[CRC_SPAN + 1] as int) != ComputeCrc(g[..CRC_SPAN])
  {
    var g := frame[k := v];
    if k < CRC_SPAN {
      var a, b := frame[..CRC_SPAN], g[..CRC_SPAN];
      assert a[k] != b[k];
      assert forall i :: 0 <= i < |a| && i != k ==> a[i] == b[i];
      Checksum.CrcDetectsSingleByteChange(a, b, k);
      if ComputeCrc(a) == ComputeCrc(b) {
        ValueInjective(Checksum.Crc(a), Checksum.Crc(b));
      }
    } else {
      assert g[..CRC_SPAN] == frame[..CRC_SPAN];
    }
  }
}
