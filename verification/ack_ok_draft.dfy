/** The responder demo of pyOscup/Examples/Test_ack_ok/Test_ack_ok.py: it
    reads up to 45 bytes at a time and, when the last two carry the
    checksum of the first 43, answers with an acknowledgement built by its
    own `write`.

    Its `computeCRC` is the pyOscup loop (`Packets.PyComputeCrc`) and its
    `encodeInteger` the demo one (`ReadDraft.EncodeInteger`). */
module AckOkDraft {
  import opened Bytes
  import Packets
  import ReadDraft
  import Protocol

  /** Bytes one `read` asks for: a whole pyOscup frame. */
  const FRAME_LENGTH: nat := 45
  /** Bytes the checksum covers, and the size of the array `write` builds. */
  const BODY_LENGTH: nat := FRAME_LENGTH - 2
  /** The id `write` puts in every answer. */
  const DEVICE_ID: Byte := 0xC4
  /** The command of the acknowledgement. */
  const CMD_ACK: Byte := 0xFE

  /** The copy loop of `write` from index `i` on: `buf[i] = payload[i - 3]`
      while `i < bound`. `None` when an index runs past the array or past
      the payload, where Python raises IndexError. */
  function CopyLoop(buf: seq<Byte>, payload: seq<Byte>, i: nat, bound: nat): (r: Option<seq<Byte>>)
    requires 3 <= i
    decreases bound - i
    ensures r.Some? <==> i >= bound || (bound <= |buf| && bound <= |payload| + 3)
    ensures r.Some? ==> |r.value| == |buf|
    ensures r.Some? ==> forall k :: 0 <= k < |buf| ==>
      r.value[k] == if i <= k < bound then payload[k - 3] else buf[k]
  {
    if i >= bound then Some(buf)
    else if i >= |buf| || i - 3 >= |payload| then None
    else CopyLoop(buf[i := payload[i - 3]], payload, i + 1, bound)
  }

  /** The zero-initialised 43-byte array with id, command and length in
      positions 0 to 2. */
  function Header(command: Byte, length: Byte): (a: seq<Byte>)
    ensures |a| == BODY_LENGTH && a[0] == DEVICE_ID && a[1] == command && a[2] == length
    ensures forall k :: 3 <= k < BODY_LENGTH ==> a[k] == 0
  {
    Zeros(BODY_LENGTH)[0 := DEVICE_ID][1 := command][2 := length]
  }

  /** `write`, as written: the bytes it sends. The loop copies `payload[i - 3]`
      into `buf[i]` only for `3 <= i < length`, so the last three payload
      bytes are never copied, and only the 43-byte array is sent: the
      45-byte `combined`, which carries the checksum, is only printed.
      `None` when the loop raises IndexError. */
  function AckWrite(command: Byte, length: Byte, payload: seq<Byte>): (r: Option<seq<Byte>>)
    ensures r.Some? <==> length <= 3 || (length <= BODY_LENGTH && length <= |payload| + 3)
    ensures r.Some? ==>
      && |r.value| == BODY_LENGTH
      && r.value[..3] == [DEVICE_ID, command, length]
      && forall k :: 3 <= k < BODY_LENGTH ==> r.value[k] == if k < length then payload[k - 3] else 0
  {
    CopyLoop(Header(command, length), payload, 3, length)
  }

  /** The acknowledgement the demo sends: `write(0xFE, 5, [0] * 5)`. */
  function AckReply(): (r: seq<Byte>)
    ensures AckWrite(CMD_ACK, 5, Zeros(5)) == Some(r)
    ensures |r| == BODY_LENGTH && r[..3] == [DEVICE_ID, CMD_ACK, 5]
  {
    var r := [DEVICE_ID, CMD_ACK, 5] + Zeros(BODY_LENGTH - 3);
    var sent := AckWrite(CMD_ACK, 5, Zeros(5));
    assert sent.Some?;
    assert forall k :: 0 <= k < BODY_LENGTH ==> sent.value[k] == r[k];
    assert sent.value == r;
    r
  }

  /** What the main loop does with one `read(45)`: nothing for an empty read;
      otherwise it splits the bytes after position 43, encodes the checksum
      of the first part and, when that equals the second part, answers.
      The answer is given as the bytes sent. */
  function Receive(data: seq<Byte>): (reply: Option<seq<Byte>>)
    ensures reply.Some? <==>
      |data| == FRAME_LENGTH
      && data[BODY_LENGTH] as int + 256 * (data[BODY_LENGTH + 1] as int) == Packets.ComputeCrc(data[..BODY_LENGTH])
    ensures reply.Some? ==> reply.value == AckReply()
  {
    if |data| == 0 then None
    else
      var cut := Min(BODY_LENGTH, |data|);
      var crc := ReadDraft.EncodeInteger(Packets.ComputeCrc(data[..cut]), 2);
      TrailerCheck(data);
      if crc == Some(data[cut..]) then
        AckWrite(CMD_ACK, 5, Zeros(5))
      else None
  }

  /** The comparison in the main loop, between the encoded checksum of the
      first 43 bytes and the bytes after them, holds exactly for a 45-byte
      read whose last two bytes, low byte first, give that checksum. */
  lemma TrailerCheck(data: seq<Byte>)
    ensures var cut := Min(BODY_LENGTH, |data|);
      ReadDraft.EncodeInteger(Packets.ComputeCrc(data[..cut]), 2) == Some(data[cut..])
      <==>
      |data| == FRAME_LENGTH
      && data[BODY_LENGTH] as int + 256 * (data[BODY_LENGTH + 1] as int) == Packets.ComputeCrc(data[..BODY_LENGTH])
  {
    var cut := Min(BODY_LENGTH, |data|);
    var crc := Packets.ComputeCrc(data[..cut]);
    Packets.EncodeInteger2(crc);
    if |data| == FRAME_LENGTH {
      assert data[cut..] == [data[BODY_LENGTH], data[BODY_LENGTH + 1]];
      Packets.EncodeInteger2Matches(crc, data[BODY_LENGTH], data[BODY_LENGTH + 1]);
    } else {
      assert |data[cut..]| != 2;
    }
  }

  /** Every frame pyOscup packs gets an answer. */
  lemma ReceiveAnswersPackedFrame(id: Byte, command: Byte, length: Byte, payload: seq<Byte>)
    requires |payload| <= Packets.MAX_PAYLOAD_LENGTH
    ensures Receive(Packets.Frame(id, command, length, payload)) == Some(AckReply())
  {
    Packets.PackLayout(Packets.Init(id), command, length, payload);
  }

  /** A pyOscup frame with any one byte changed gets no answer. */
  lemma ReceiveIgnoresCorruption(id: Byte, command: Byte, length: Byte, payload: seq<Byte>, k: nat, v: Byte)
    requires |payload| <= Packets.MAX_PAYLOAD_LENGTH
    requires k < FRAME_LENGTH && v != Packets.Frame(id, command, length, payload)[k]
    ensures Receive(Packets.Frame(id, command, length, payload)[k := v]).None?
  {
    Packets.PackLayout(Packets.Init(id), command, length, payload);
    Packets.CorruptionDetected(Packets.Frame(id, command, length, payload), k, v);
  }

  // ---------------------------------------------------------------------
  // What the demo evidently meant
  // ---------------------------------------------------------------------

  /** With length 5 and five payload bytes, `write` sends only the first
      two: the copy stops at index `length` instead of `length + 3`. */
  lemma AckWriteDropsPayloadTail()
    ensures AckWrite(0x01, 5, [1, 2, 3, 4, 5]) == Some([DEVICE_ID, 0x01, 5, 1, 2] + Zeros(BODY_LENGTH - 5))
  {
    var r := AckWrite(0x01, 5, [1, 2, 3, 4, 5]).value;
    assert r == [DEVICE_ID, 0x01, 5, 1, 2] + Zeros(BODY_LENGTH - 5);
  }

  /** The answer is 43 bytes, so the pyOscup initiator, which judges only
      45-byte reads, never takes it for an acknowledgement. */
  lemma AckReplyUnheard()
    ensures Protocol.Judge(AckReply()).None?
  {
  }

  /** `write` as evidently intended: all `length` payload bytes are copied
      and the 45 bytes with the checksum are sent, which is exactly the
      frame pyOscup packs. `None` when the copy would raise. */
  function AckWriteFixed(command: Byte, length: Byte, payload: seq<Byte>): (r: Option<seq<Byte>>)
    ensures r.Some? <==> length as nat <= Packets.MAX_PAYLOAD_LENGTH && length as nat <= |payload|
    ensures r.Some? ==> r.value == Packets.Frame(DEVICE_ID, command, length, payload[..length])
  {
    match CopyLoop(Header(command, length), payload, 3, length + 3)
    case None => None
    case Some(buf) =>
      var body := Packets.UpdateBuff(Packets.Init(DEVICE_ID).(command := command, length := length, payload := payload[..length]));
      assert buf == body;
      Some(buf + Packets.EncodeInteger(Packets.ComputeCrc(buf), 2))
  }

  /** The responder as evidently intended: the same check, answered with
      the corrected `write`. */
  function ReceiveFixed(data: seq<Byte>): (reply: Option<seq<Byte>>)
    ensures reply.Some? <==> Receive(data).Some?
    ensures reply.Some? ==> reply.value == Protocol.AckFrame(DEVICE_ID)
  {
    if Receive(data).None? then None
    else
      assert Zeros(5)[..5] == Zeros(5);
      AckWriteFixed(CMD_ACK, 5, Zeros(5))
  }

  /** With the corrected `write`, every frame pyOscup packs is answered
      with a frame the pyOscup initiator judges an acknowledgement. */
  lemma AckReplyHeard(id: Byte, command: Byte, length: Byte, payload: seq<Byte>)
    requires |payload| <= Packets.MAX_PAYLOAD_LENGTH
    ensures var reply := ReceiveFixed(Packets.Frame(id, command, length, payload));
      reply.Some? && Protocol.Judge(reply.value) == Some(Packets.Ok)
  {
    ReceiveAnswersPackedFrame(id, command, length, payload);
    Protocol.JudgeFrame(DEVICE_ID, CMD_ACK, 5, Zeros(5));
  }
}
