/** The ESP32 draft of Oscup in oscup.cpp and oscup.h: an older,
    variable-length frame
        id | command | length | payload[length] | crc byte | crc byte
    kept in fixed 260-byte transmit and receive buffers.

    A `Device` value is one state of an `Oscup` object: its two `packet_t`
    structs and its two buffers. `char` and `uint8_t` cells are modelled as
    bytes (the bit pattern); the register of `computeCRC` as a 16-bit
    register, and the `uint16_t` checksum field as the integer it holds.

    The members named here without a suffix model the code as written; the
    `Fixed` members are the corrected definitions, with their round trip
    proved. */
module OscupDraft {
  import opened Bytes
  import Checksum

  const MAX_PAYLOAD_LENGTH: nat := 255
  /** Size of `_TXBuffer` and `_RXBuffer`. */
  const BUFFER_LENGTH: nat := MAX_PAYLOAD_LENGTH + 5

  // `ErrorCodes` values the draft can return: READ_ERROR is the first
  // enumerator and OK is then set to 0 as well, so the two share a value.
  const OK: Byte := 0
  const NULLPOINTER: Byte := 4

  /** The C struct `packet_t`. */
  datatype CPacket = CPacket(id: Byte, command: Byte, length: Byte, payload: seq<Byte>, crc: nat)

  predicate WellSized(p: CPacket)
  {
    |p.payload| == MAX_PAYLOAD_LENGTH && p.crc < 0x10000
  }

  /** Conversion of an `int` to `char` or `uint8_t`: the low eight bits. */
  function Truncate(v: int): Byte
  {
    v % 0x100
  }

  /** The state of an `Oscup` object that the codec touches. */
  datatype Device = Device(tx: CPacket, rx: CPacket, txBuffer: seq<Byte>, rxBuffer: seq<Byte>)

  predicate Valid(d: Device)
  {
    WellSized(d.tx) && WellSized(d.rx) && |d.txBuffer| == BUFFER_LENGTH && |d.rxBuffer| == BUFFER_LENGTH
  }

  // ---------------------------------------------------------------------
  // computeCRC
  // ---------------------------------------------------------------------

  /** `Oscup::computeCRC` as written: a NULL buffer gives the NULLPOINTER
      code 4; otherwise every byte resets the register to `0xFFFF ^ byte`
      before its eight rounds, so the result is the checksum of the last
      byte alone. A length of 0 would return the uninitialised register and
      is excluded. */
  method DraftComputeCrc(buffer: Option<seq<Byte>>, len: Byte) returns (crc: bv16)
    requires buffer.Some? ==> 0 < len <= |buffer.value|
    ensures buffer.None? ==> crc == 4
    ensures buffer.Some? ==> crc == Checksum.Crc([buffer.value[len - 1]])
  {
    if buffer.None? {
      return 4;
    }
    crc := DraftLoop(buffer.value, len);
  }

  /** The byte loop of `Oscup::computeCRC` on a non-NULL buffer. */
  method DraftLoop(buff: seq<Byte>, len: Byte) returns (crc: bv16)
    requires 0 < len <= |buff|
    ensures crc == Checksum.Crc([buff[len - 1]])
  {
    crc := 0;
    var j := 0;
    ghost var last: Byte := 0;
    while j < len
      invariant 0 <= j <= len
      invariant j > 0 ==> last == buff[j - 1]
      invariant crc == Checksum.Crc([last]) || j == 0
    {
      crc := DraftPass(buff[j]);
      last := buff[j];
      j := j + 1;
    }
  }

  /** One pass of the outer loop of `Oscup::computeCRC`: the register is
      overwritten with `(0xFFFF ^ byteValue) & 0xffff`, discarding what the
      earlier bytes left, then shifted through eight rounds. */
  method DraftPass(byteValue: Byte) returns (crc: bv16)
    ensures crc == Checksum.Crc([byteValue])
  {
    crc := (0xFFFF ^ Widen(byteValue)) & 0xffff;
    crc := Checksum.EightRounds(crc);
    CrcSingle(byteValue);
  }

  lemma CrcSingle(b: Byte)
    ensures Checksum.Crc([b]) == Checksum.Absorb(Checksum.SEED, b)
  {
    Checksum.CrcSnoc([], b);
    assert [] + [b] == [b];
  }

  /** The reference checksum tells apart two strings that the draft, which
      sees only their common last byte, gives the same value. */
  lemma DraftCrcCollision()
    ensures Checksum.Crc([0, 7]) != Checksum.Crc([1, 7])
  {
    Checksum.CrcDetectsSingleByteChange([0, 7], [1, 7], 0);
  }

  // ---------------------------------------------------------------------
  // bufferize
  // ---------------------------------------------------------------------

  /** The loop `for (uint8_t i = 3; i < bound; i++) buf[i] = payload[i - 3]`
      from counter `i` on. A `uint8_t` counter never reaches a bound above
      255: after 255 it wraps to 0, still below the bound, so the loop
      never exits (`None`). */
  function CopyLoop(buffer: seq<Byte>, payload: seq<Byte>, i: nat, bound: nat): (r: Option<seq<Byte>>)
    requires |buffer| == BUFFER_LENGTH && |payload| == MAX_PAYLOAD_LENGTH && 3 <= i <= 255
    decreases 255 - i
    ensures r.None? <==> bound > 255 && i < bound
    ensures r.Some? ==>
      && |r.value| == BUFFER_LENGTH
      && forall k :: 0 <= k < BUFFER_LENGTH ==> r.value[k] == if i <= k < bound then payload[k - 3] else buffer[k]
  {
    if i >= bound then Some(buffer)
    else if i == 255 then None
    else CopyLoop(buffer[i := payload[i - 3]], payload, i + 1, bound)
  }

  /** `Oscup::bufferize` as written: header, then `length` payload bytes,
      then, only when the checksum is nonzero, two checksum bytes. The
      first is `crc & 0xFF00` narrowed to a `char`, which is always 0; the
      second is the low byte. Nothing else in the buffer changes. For a
      length above 252 the copy loop never exits. */
  function Bufferize(p: CPacket, buffer: seq<Byte>): (r: Option<seq<Byte>>)
    requires WellSized(p) && |buffer| == BUFFER_LENGTH
    ensures r.None? <==> p.length > 252
    ensures r.Some? ==>
      var b := r.value;
      && |b| == BUFFER_LENGTH
      && b[0] == p.id && b[1] == p.command && b[2] == p.length
      && (forall i :: 0 <= i < p.length ==> b[3 + i] == p.payload[i])
      && (p.crc != 0 ==> b[p.length + 3] == 0 && b[p.length + 4] == p.crc % 0x100)
      && (forall k :: (if p.crc != 0 then p.length + 5 else p.length + 3) <= k < BUFFER_LENGTH ==> b[k] == buffer[k])
  {
    match CopyFrame(p, buffer)
    case None => None
    case Some(b) =>
      if p.crc != 0 then Some(StoreCrc(b, 5 + p.length, p.crc)) else Some(b)
  }

  /** The header and copy-loop part of `bufferize`: the first `length + 3`
      bytes are the frame's, the rest of the buffer is untouched. */
  function CopyFrame(p: CPacket, buffer: seq<Byte>): (r: Option<seq<Byte>>)
    requires WellSized(p) && |buffer| == BUFFER_LENGTH
    ensures r.None? <==> p.length > 252
    ensures r.Some? ==>
      var b := r.value;
      && |b| == BUFFER_LENGTH
      && b[0] == p.id && b[1] == p.command && b[2] == p.length
      && (forall i :: 0 <= i < p.length ==> b[3 + i] == p.payload[i])
      && (forall k :: p.length + 3 <= k < BUFFER_LENGTH ==> b[k] == buffer[k])
  {
    var head := buffer[0 := p.id][1 := p.command][2 := p.length];
    CopyLoop(head, p.payload, 3, 3 + p.length)
  }

  /** The checksum bytes `bufferize` writes as the last two of `len`:
      `crc & 0xFF00` and `crc & 0x00FF`, each narrowed to a `char`. */
  function StoreCrc(b: seq<Byte>, len: nat, crc: nat): (r: seq<Byte>)
    requires |b| == BUFFER_LENGTH && 2 <= len <= BUFFER_LENGTH
    ensures |r| == BUFFER_LENGTH
    ensures r[len - 2] == 0 && r[len - 1] == crc % 0x100
    ensures forall k :: 0 <= k < BUFFER_LENGTH && k != len - 2 && k != len - 1 ==> r[k] == b[k]
  {
    var high, low := (crc / 0x100) % 0x100 * 0x100, crc % 0x100;
    HighByteTruncates(crc / 0x100);
    b[len - 2 := Truncate(high)][len - 1 := Truncate(low)]
  }

  /** A multiple of 256 truncates to 0. */
  lemma HighByteTruncates(x: int)
    ensures Truncate(x % 0x100 * 0x100) == 0
  {
  }

  /** The frame's checksum bytes as written cannot tell apart two checksums
      with the same low byte (0x1234 and 0x5634, say): both packets are
      bufferized to the same bytes. */
  lemma BufferizeDropsHighByte(p: CPacket, crc: nat, buffer: seq<Byte>)
    requires WellSized(p) && |buffer| == BUFFER_LENGTH && p.length <= 252
    requires p.crc != 0 && 0 < crc < 0x10000 && crc % 0x100 == p.crc % 0x100
    ensures Bufferize(p, buffer) == Bufferize(p.(crc := crc), buffer)
  {
    var q := p.(crc := crc);
    var a, b := Bufferize(p, buffer).value, Bufferize(q, buffer).value;
    assert forall k :: 0 <= k < BUFFER_LENGTH ==> a[k] == b[k];
  }

  /** A payload of 253 bytes or more hangs `bufferize`. */
  lemma BufferizeHangs(p: CPacket, buffer: seq<Byte>)
    requires WellSized(p) && |buffer| == BUFFER_LENGTH && p.length >= 253
    ensures Bufferize(p, buffer).None?
  {
  }

  // ---------------------------------------------------------------------
  // pack and write
  // ---------------------------------------------------------------------

  /** The checksum `pack` stores: that of the last of the first
      `length + 3` buffer bytes, the last payload byte, or the length byte
      itself when the payload is empty. */
  function LastCovered(length: Byte, payload: seq<Byte>): Byte
    requires length <= |payload|
  {
    if length == 0 then length else payload[length - 1]
  }

  /** The last of the first `length + 3` bytes `bufferize` writes is the
      last payload byte, or the length byte for an empty payload. */
  lemma BufferizedLast(tx: CPacket, buffer: seq<Byte>, src: seq<Byte>)
    requires WellSized(tx) && |buffer| == BUFFER_LENGTH && tx.length <= 252 && tx.length <= |src|
    requires tx.payload[..tx.length] == src[..tx.length]
    ensures Bufferize(tx, buffer).Some?
    ensures Bufferize(tx, buffer).value[tx.length + 2] == LastCovered(tx.length, src)
  {
    if tx.length > 0 {
      assert tx.payload[tx.length - 1] == src[tx.length - 1];
    }
  }

  /** `Oscup::pack` as written: sets command and length, copies `length`
      bytes of the caller's buffer over the start of the payload, bufferizes
      with the old checksum, and stores the draft checksum of the first
      `length + 3` buffer bytes. It always returns OK; it never returns
      (`None`) when `bufferize` hangs. */
  method Pack(d: Device, command: Byte, length: Byte, buffer: seq<Byte>) returns (code: Byte, r: Option<Device>)
    requires Valid(d) && length <= |buffer|
    ensures code == OK
    ensures r.None? <==> length > 252
    ensures r.Some? ==>
      && Valid(r.value)
      && r.value.rx == d.rx && r.value.rxBuffer == d.rxBuffer
      && r.value.tx.id == d.tx.id && r.value.tx.command == command && r.value.tx.length == length
      && r.value.tx.payload == buffer[..length] + d.tx.payload[length..]
      && r.value.tx.crc == Value(Checksum.Crc([LastCovered(length, buffer)]))
  {
    var tx := d.tx.(command := command, length := length, payload := buffer[..length] + d.tx.payload[length..]);
    var b := Bufferize(tx, d.txBuffer);
    if b.None? {
      return OK, None;
    }
    assert tx.payload[..length] == buffer[..length];
    BufferizedLast(tx, d.txBuffer, buffer);
    // The `uint8_t` sum cannot wrap: `bufferize` returned, so length <= 252.
    assert length <= 252;
    var n: Byte := length + 3;
    var crc := DraftComputeCrc(Some(b.value), n);
    return OK, Some(d.(tx := tx.(crc := Value(crc)), txBuffer := b.value));
  }

  /** `Oscup::write` as written, with `uart_write_bytes` returning the bytes
      it was given. A NULL payload returns NULLPOINTER before anything is
      packed. The LENGTH_ERROR exit cannot be taken: a `uint8_t` length
      never exceeds 255. Otherwise the frame is packed and `length + 5`
      buffer bytes are sent: header, payload, and, when the checksum is
      nonzero, a 0 byte and the low byte of the last-byte checksum. */
  method Write(d: Device, command: Byte, length: Byte, payload: Option<seq<Byte>>)
    returns (code: Byte, r: Option<Device>, sent: seq<Byte>)
    requires Valid(d)
    requires payload.Some? ==> length <= |payload.value|
    ensures code == OK || code == NULLPOINTER
    ensures payload.None? ==> code == NULLPOINTER && r == Some(d) && sent == []
    ensures payload.Some? ==> code == OK && (r.None? <==> length > 252)
    ensures payload.Some? && r.Some? ==>
      var crc := Value(Checksum.Crc([LastCovered(length, payload.value)]));
      && |sent| == length + 5
      && sent[0] == d.tx.id && sent[1] == command && sent[2] == length
      && (forall i :: 0 <= i < length ==> sent[3 + i] == payload.value[i])
      && (crc != 0 ==> sent[length + 3] == 0 && sent[length + 4] == crc % 0x100)
  {
    if payload.None? {
      return NULLPOINTER, Some(d), [];
    }
    var error, packed := Pack(d, command, length, payload.value);
    if packed.None? {
      return error, None, [];
    }
    // `pack` returned OK, so the `if (error)` exit is not taken.
    var e := packed.value;
    var b := Bufferize(e.tx, e.txBuffer);
    sent := b.value[..length + 5];
    code := OK;
    r := Some(e.(txBuffer := b.value));
  }

  // ---------------------------------------------------------------------
  // unpack
  // ---------------------------------------------------------------------

  /** `(_RXBuffer[k] & 0xFF00) != 0` after the `char` is promoted to `int`:
      only a signed `char` with its top bit set sign-extends into the high
      byte. Whether `char` is signed is the compiler's choice. */
  function HighBitsSet(c: Byte, charSigned: bool): bool
  {
    charSigned && c >= 0x80
  }

  /** `Oscup::unpack(len)` as written: header from bytes 0 to 2, payload
      bytes `i - 3` from buffer bytes `3 <= i < len - 3`, which is `len - 6`
      bytes, and a checksum computed with a logical OR, so 0 or 1. */
  function Unpack(rx: CPacket, buffer: seq<Byte>, len: nat, charSigned: bool): (r: CPacket)
    requires WellSized(rx) && |buffer| == BUFFER_LENGTH && 2 <= len <= BUFFER_LENGTH
    ensures WellSized(r)
    ensures r.id == buffer[0] && r.command == buffer[1] && r.length == buffer[2]
    ensures forall k :: 0 <= k < MAX_PAYLOAD_LENGTH ==>
      r.payload[k] == if k + 6 < len then buffer[k + 3] else rx.payload[k]
    ensures r.crc == 0 || r.crc == 1
    ensures r.crc == 1 <==> buffer[len - 1] != 0 || HighBitsSet(buffer[len - 2], charSigned)
  {
    var payload := seq(MAX_PAYLOAD_LENGTH, k requires 0 <= k < MAX_PAYLOAD_LENGTH =>
      if k + 3 < len - 3 then buffer[k + 3] else rx.payload[k]);
    var crc := if HighBitsSet(buffer[len - 2], charSigned) || buffer[len - 1] != 0 then 1 else 0;
    CPacket(buffer[0], buffer[1], buffer[2], payload, crc)
  }

  /** The draft's own frame does not survive its own receiver: whatever the
      compiler's `char`, a frame of a packet with a checksum of 2 or more
      and a nonempty payload is unpacked with a different checksum, and
      without its last payload byte. */
  lemma DraftRoundTripFails(p: CPacket, txBuffer: seq<Byte>, rx: CPacket, charSigned: bool)
    requires WellSized(p) && WellSized(rx) && |txBuffer| == BUFFER_LENGTH
    requires 1 <= p.length <= 252 && p.crc >= 2
    requires rx.payload[p.length - 1] != p.payload[p.length - 1]
    ensures var frame := Bufferize(p, txBuffer).value;
      var q := Unpack(rx, frame, p.length + 5, charSigned);
      q.crc != p.crc && q.payload[p.length - 1] != p.payload[p.length - 1]
  {
  }

  // ---------------------------------------------------------------------
  // Corrected codec
  // ---------------------------------------------------------------------

  /** `pack` with the prot.cpp checksum: the fields are stored, the packet
      is bufferized into `txBuffer`, and the checksum is computed over the
      first `length + 3` bytes of that buffer. Those bytes are exactly the
      header and payload, whatever the buffer held before. */
  function PackFixed(tx: CPacket, txBuffer: seq<Byte>, command: Byte, length: Byte, buffer: seq<Byte>): (q: CPacket)
    requires WellSized(tx) && |txBuffer| == BUFFER_LENGTH && length <= |buffer|
    ensures WellSized(q)
    ensures q.id == tx.id && q.command == command && q.length == length
    ensures forall i :: 0 <= i < length ==> q.payload[i] == buffer[i]
    ensures q.crc == Value(Checksum.Crc([tx.id, command, length] + buffer[..length]))
  {
    var payload := buffer[..length] + tx.payload[length..];
    assert payload[..length] == buffer[..length];
    var p := tx.(command := command, length := length, payload := payload);
    var b := BufferizeFixed(p, txBuffer);
    assert b[..length + 3] == [tx.id, command, length] + buffer[..length];
    p.(crc := Value(Checksum.Crc(b[..length + 3])))
  }

  /** `bufferize` with an `int` counter, so the copy loop always exits, and
      the checksum stored high byte first as `(crc >> 8) & 0xFF`, then
      `crc & 0xFF`. */
  function BufferizeFixed(p: CPacket, buffer: seq<Byte>): (b: seq<Byte>)
    requires WellSized(p) && |buffer| == BUFFER_LENGTH
    ensures |b| == BUFFER_LENGTH
    ensures b[0] == p.id && b[1] == p.command && b[2] == p.length
    ensures forall i :: 0 <= i < p.length ==> b[3 + i] == p.payload[i]
    ensures p.crc != 0 ==> b[p.length + 3] as int * 0x100 + b[p.length + 4] as int == p.crc
    ensures forall k :: (if p.crc != 0 then p.length + 5 else p.length + 3) <= k < BUFFER_LENGTH ==> b[k] == buffer[k]
  {
    var len := p.length;
    var copied := [p.id, p.command, p.length] + p.payload[..len] + buffer[len + 3..];
    if p.crc != 0 then
      copied[len + 3 := Truncate(p.crc / 0x100)][len + 4 := Truncate(p.crc)]
    else
      copied
  }

  /** `unpack` copying all `len - 5` payload bytes (`i < len - 2`) and
      reading the checksum back as `(high << 8) | low`. */
  function UnpackFixed(rx: CPacket, buffer: seq<Byte>, len: nat): (r: CPacket)
    requires WellSized(rx) && |buffer| == BUFFER_LENGTH && 5 <= len <= BUFFER_LENGTH
    ensures WellSized(r)
    ensures r.id == buffer[0] && r.command == buffer[1] && r.length == buffer[2]
    ensures forall k :: 0 <= k < MAX_PAYLOAD_LENGTH ==>
      r.payload[k] == if k + 5 < len then buffer[k + 3] else rx.payload[k]
  {
    var payload := seq(MAX_PAYLOAD_LENGTH, k requires 0 <= k < MAX_PAYLOAD_LENGTH =>
      if k + 3 < len - 2 then buffer[k + 3] else rx.payload[k]);
    CPacket(buffer[0], buffer[1], buffer[2], payload, buffer[len - 2] as int * 0x100 + buffer[len - 1] as int)
  }

  /** Round trip of the corrected codec: a frame bufferized from a packet
      with a nonzero checksum and unpacked with its full length restores
      the header, the payload and the checksum. */
  lemma DraftRoundTrip(p: CPacket, txBuffer: seq<Byte>, rx: CPacket)
    requires WellSized(p) && WellSized(rx) && |txBuffer| == BUFFER_LENGTH && p.crc != 0
    ensures var q := UnpackFixed(rx, BufferizeFixed(p, txBuffer), p.length + 5);
      && q.id == p.id && q.command == p.command && q.length == p.length && q.crc == p.crc
      && forall k :: 0 <= k < p.length ==> q.payload[k] == p.payload[k]
  {
  }

  /** The corrected pack and codec end to end: the receiver's checksum is
      the prot.cpp checksum of the header and payload it received, so
      recomputing it over the received bytes confirms the frame. */
  lemma DraftPackRoundTrip(tx: CPacket, command: Byte, length: Byte, buffer: seq<Byte>, txBuffer: seq<Byte>, rx: CPacket)
    requires WellSized(tx) && WellSized(rx) && |txBuffer| == BUFFER_LENGTH && length <= |buffer|
    requires Value(Checksum.Crc([tx.id, command, length] + buffer[..length])) != 0
    ensures var frame := BufferizeFixed(PackFixed(tx, txBuffer, command, length, buffer), txBuffer);
      var q := UnpackFixed(rx, frame, length + 5);
      && q.id == tx.id && q.command == command && q.length == length
      && (forall k :: 0 <= k < length ==> q.payload[k] == buffer[k])
      && q.crc == Value(Checksum.Crc(frame[..length + 3]))
  {
    var p := PackFixed(tx, txBuffer, command, length, buffer);
    var frame := BufferizeFixed(p, txBuffer);
    DraftRoundTrip(p, txBuffer, rx);
    assert frame[..length + 3] == [tx.id, command, length] + buffer[..length];
  }
}
