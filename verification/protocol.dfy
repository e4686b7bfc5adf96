/** The two protocol loops of the pyOscup `Oscup` class, with the serial
    port and the clock replaced by scripts.

    `Write` is the initiator: it sends one frame, then reads 45-byte
    answers until one decides the outcome or the budget check gives up.
    `Read` is the responder: it reads frames until one is well-formed,
    answers it with an ACK or NACK frame and returns what it received.

    A script lists what successive `read(45)` calls return (and, for
    `Write`, the elapsed milliseconds the budget check sees). When the
    script runs out before the loop returns, the outcome is `None`: the
    source would still be waiting on the port. */
module Protocol {
  import opened Bytes
  import opened Packets

  /** Milliseconds `write` waits for an answer, per the budget check. */
  const MAX_ACK_WAIT: int := 15
  /** Passes after which both loops give up. */
  const MAX_ATTEMPTS: nat := 10

  /** The frame `read` answers with: `pack(command, 5, [0, 0, 0, 0, 0])` on
      a packet carrying this device's id. */
  function Reply(id: Byte, command: Byte): (r: seq<Byte>)
    ensures |r| == FIX_PACKET_LENGTH && r[0] == id && r[1] == command && r[2] == 5
    ensures forall i :: 3 <= i < CRC_SPAN ==> r[i] == 0
  {
    PackLayout(Init(id), command, 5, Zeros(5));
    Frame(id, command, 5, Zeros(5))
  }

  /** A reply ends with the checksum of its first 43 bytes, low byte first. */
  lemma ReplyChecksum(id: Byte, command: Byte)
    ensures var r := Reply(id, command);
      r[CRC_SPAN] as int + 256 * (r[CRC_SPAN + 1] as int) == ComputeCrc(r[..CRC_SPAN])
  {
    PackLayout(Init(id), command, 5, Zeros(5));
  }

  /** The ACK reply; `JudgeFrame` shows the `write` side judges it a success. */
  function AckFrame(id: Byte): (r: seq<Byte>)
    ensures |r| == FIX_PACKET_LENGTH && r[0] == id && r[1] == CMD_ACK
  {
    Reply(id, CMD_ACK)
  }

  /** The NACK reply; `JudgeFrame` shows the `write` side judges it a refusal. */
  function NackFrame(id: Byte): (r: seq<Byte>)
    ensures |r| == FIX_PACKET_LENGTH && r[0] == id && r[1] == CMD_NACK
  {
    Reply(id, CMD_NACK)
  }

  // ---------------------------------------------------------------------
  // Write
  // ---------------------------------------------------------------------

  /** One pass of the `write` loop: what `read(45)` returned, and the
      milliseconds since the frame was sent when the budget is checked. */
  datatype Tick = Tick(data: seq<Byte>, elapsed: int)

  /** What `write` did: the frames it sent, the code it returned (`None`
      while the script ran out first) and how many reads it made. */
  datatype WriteRun = WriteRun(sent: seq<seq<Byte>>, code: Option<ErrorCode>, answers: nat)

  /** How one answer is judged inside the `try` block of `write`: `None`
      when the loop goes on to the budget check (a read that is not 45
      bytes, or an `unpack` that raised), otherwise the code `write`
      returns, `Ok` standing for the `break`. The packet is reset before
      every read, and the code `unpack` returns is ignored, so a frame with
      a length byte below 5 is checked against a stored checksum of 0. */
  function Judge(data: seq<Byte>): (code: Option<ErrorCode>)
    ensures code.Some? ==> code.value in {Ok, Nack, CrcError}
    ensures code.Some? ==> |data| == FIX_PACKET_LENGTH
  {
    if |data| != FIX_PACKET_LENGTH then None
    else
      match Unpack(Init(0), Some(data))
      case Raised(_) => None
      case Returned(_, rx) =>
        if ComputeCrc(data[..CRC_SPAN]) == rx.crc then
          if rx.command == CMD_ACK then Some(Ok) else Some(Nack)
        else Some(CrcError)
  }

  /** The `while True` loop of `write` from pass `times` on. */
  function WriteLoop(ticks: seq<Tick>, times: nat): (r: (Option<ErrorCode>, nat))
    decreases |ticks|
    ensures r.1 <= |ticks|
    ensures r.0.None? ==> r.1 == |ticks| && forall i :: 0 <= i < |ticks| ==> Judge(ticks[i].data).None?
    ensures r.0.Some? ==> 1 <= r.1
  {
    if |ticks| == 0 then (None, 0)
    else
      var t := ticks[0];
      match Judge(t.data)
      case Some(code) => (Some(code), 1)
      case None =>
        if t.elapsed <= MAX_ACK_WAIT then (Some(NoData), 1)
        else if times > MAX_ATTEMPTS then (Some(NoData), 1)
        else
          var rest := WriteLoop(ticks[1..], times + 1);
          assert forall i :: 1 <= i < |ticks| ==> ticks[i] == ticks[1..][i - 1];
          (rest.0, rest.1 + 1)
  }

  /** `Oscup.write`: pack the frame with this device's id, send it once,
      then run the answer loop. */
  function Write(id: Byte, command: Byte, length: Byte, payload: seq<Byte>, ticks: seq<Tick>): (r: WriteRun)
    ensures r.sent == [Frame(id, command, length, payload)]
    ensures r.answers <= |ticks|
    ensures r.code.None? ==> r.answers == |ticks|
    ensures r.code.Some? ==> 1 <= r.answers && (r.code == Judge(ticks[r.answers - 1].data) || r.code == Some(NoData))
  {
    WriteLoopOutcome(ticks, 0);
    var tx := Pack(Init(id), command, length, payload);
    var (code, answers) := WriteLoop(ticks, 0);
    WriteRun([tx.buff], code, answers)
  }

  /** The answer loop stops after at most `MAX_ATTEMPTS + 2` reads, counted
      from pass `times`, whatever the port delivers. */
  lemma {:induction false} WriteLoopBudget(ticks: seq<Tick>, times: nat)
    requires times <= MAX_ATTEMPTS + 1
    ensures WriteLoop(ticks, times).1 <= MAX_ATTEMPTS + 2 - times
    decreases |ticks|
  {
    if |ticks| > 0 && Judge(ticks[0].data).None? && ticks[0].elapsed > MAX_ACK_WAIT && times <= MAX_ATTEMPTS {
      WriteLoopBudget(ticks[1..], times + 1);
    }
  }

  /** What the answer loop returns, read `r.1` passes in: every earlier
      answer decided nothing, came after the wait window and was within
      the attempt budget; the last one read either decided the code itself,
      or decided nothing and ended the loop with `NoData` because it came
      within the wait window or the attempts were used up. */
  lemma {:induction false} WriteLoopOutcome(ticks: seq<Tick>, times: nat)
    decreases |ticks|
    ensures var r := WriteLoop(ticks, times);
      r.0.Some? ==>
        && (forall i :: 0 <= i < r.1 - 1 ==> Judge(ticks[i].data).None? && ticks[i].elapsed > MAX_ACK_WAIT)
        && (r.1 > 1 ==> times + r.1 - 2 <= MAX_ATTEMPTS)
        && (r.0 == Judge(ticks[r.1 - 1].data)
            || (&& r.0 == Some(NoData) && Judge(ticks[r.1 - 1].data).None?
                && (ticks[r.1 - 1].elapsed <= MAX_ACK_WAIT || times + r.1 - 1 > MAX_ATTEMPTS)))
  {
    if |ticks| > 0 && Judge(ticks[0].data).None? && ticks[0].elapsed > MAX_ACK_WAIT && times <= MAX_ATTEMPTS {
      WriteLoopOutcome(ticks[1..], times + 1);
      var rest := WriteLoop(ticks[1..], times + 1);
      if rest.0.Some? {
        forall i | 0 <= i < rest.1
          ensures Judge(ticks[i].data).None? && ticks[i].elapsed > MAX_ACK_WAIT
        {
          if i > 0 {
            assert ticks[i] == ticks[1..][i - 1];
          }
        }
        assert ticks[rest.1] == ticks[1..][rest.1 - 1];
      }
    }
  }

  /** `write` performs at most `MAX_ATTEMPTS + 2` reads. */
  lemma WriteBudget(id: Byte, command: Byte, length: Byte, payload: seq<Byte>, ticks: seq<Tick>)
    ensures Write(id, command, length, payload, ticks).answers <= MAX_ATTEMPTS + 2
  {
    WriteLoopBudget(ticks, 0);
  }

  /** How the first answer decides `write`: a full 45-byte frame that
      unpacks gives `Ok` when its checksum matches and its command is ACK,
      `Nack` when the checksum matches and the command is anything else,
      and `CrcError` when the checksum does not match. An answer that does
      not decide gives `NoData` at once when no more than `MAX_ACK_WAIT`
      milliseconds have passed: the budget check is inverted. */
  lemma WriteFirstAnswer(id: Byte, command: Byte, length: Byte, payload: seq<Byte>, ticks: seq<Tick>)
    requires |ticks| > 0
    ensures var r := Write(id, command, length, payload, ticks);
      var data := ticks[0].data;
      && (|data| == FIX_PACKET_LENGTH && 5 <= data[2] <= MAX_PAYLOAD_LENGTH ==>
           var stored := data[CRC_SPAN] as int + 256 * (data[CRC_SPAN + 1] as int);
           && r.answers == 1
           && (ComputeCrc(data[..CRC_SPAN]) == stored && data[1] == CMD_ACK ==> r.code == Some(Ok))
           && (ComputeCrc(data[..CRC_SPAN]) == stored && data[1] != CMD_ACK ==> r.code == Some(Nack))
           && (ComputeCrc(data[..CRC_SPAN]) != stored ==> r.code == Some(CrcError)))
      && (Judge(data).None? && ticks[0].elapsed <= MAX_ACK_WAIT ==> r.code == Some(NoData) && r.answers == 1)
  {
  }

  /** A 45-byte answer whose length byte is below 5 is not skipped: its
      checksum is compared with the 0 left by `reset`. */
  lemma WriteMalformedLength(data: seq<Byte>)
    requires |data| == FIX_PACKET_LENGTH && data[2] < 5
    ensures ComputeCrc(data[..CRC_SPAN]) == 0 ==> Judge(data) == Some(Nack)
    ensures ComputeCrc(data[..CRC_SPAN]) != 0 ==> Judge(data) == Some(CrcError)
  {
  }

  // ---------------------------------------------------------------------
  // Read
  // ---------------------------------------------------------------------

  /** What `read` returns: the pair `(code, packet)`, or on the attempt
      limit the bare code. */
  datatype ReadResult = Pair(code: ErrorCode, packet: Packet) | Bare(code: ErrorCode)

  /** What `read` did: the frames it sent and what it returned (`None`
      while the script ran out first). */
  datatype ReadRun = ReadRun(sent: seq<seq<Byte>>, result: Option<ReadResult>)

  /** What one pass of `read`'s loop does with the bytes it read: answer
      and return, go round again without counting (`unpack` rejected the
      length byte), or go round again counting an attempt, with the packet
      a raising `unpack` left behind. */
  datatype Pass = Answer(frame: seq<Byte>, result: ReadResult) | Skip | Retry(packet: Packet)

  /** One pass of `read`'s loop: a read that is not a full frame gets NACK
      and `(NO_DATA, packet)`; a frame `unpack` accepts gets ACK and `OK`
      when its checksum checks, NACK and `CRC_ERROR` otherwise. */
  function ReadPass(id: Byte, buff: seq<Byte>, rx: Packet): (r: Pass)
    ensures r.Answer? ==> r.result.Pair?
    ensures r.Answer? ==> r.frame == if r.result.code == Ok then AckFrame(id) else NackFrame(id)
    ensures r.Answer? && r.result.code == NoData ==> r.result.packet == rx && |buff| != FIX_PACKET_LENGTH
  {
    if |buff| != FIX_PACKET_LENGTH then Answer(NackFrame(id), Pair(NoData, rx))
    else
      match Unpack(rx, Some(buff))
      case Returned(code, p) =>
        if code == UnpackError then Skip
        else if ComputeCrc(buff[..CRC_SPAN]) == p.crc then Answer(AckFrame(id), Pair(Ok, p))
        else Answer(NackFrame(id), Pair(CrcError, p))
      case Raised(p) => Retry(p)
  }

  /** The `while True` loop of `read`, with `rx` the receive packet, which
      is never reset and keeps what a failed `unpack` left in it. */
  function ReadLoop(id: Byte, frames: seq<seq<Byte>>, rx: Packet, times: nat): (r: ReadRun)
    decreases |frames|
    ensures r.result.Some? && r.result.value.Pair? ==>
      r.sent == [if r.result.value.code == Ok then AckFrame(id) else NackFrame(id)]
    ensures !(r.result.Some? && r.result.value.Pair?) ==> r.sent == []
    ensures r.result.Some? && r.result.value.Bare? ==> r.result.value.code == NoData
  {
    if |frames| == 0 then ReadRun([], None)
    else
      match ReadPass(id, frames[0], rx)
      case Answer(frame, result) => ReadRun([frame], Some(result))
      case Skip => ReadLoop(id, frames[1..], rx, times)
      case Retry(p) =>
        if times > MAX_ATTEMPTS then ReadRun([], Some(Bare(NoData)))
        else ReadLoop(id, frames[1..], p, times + 1)
  }

  /** `Oscup.read` on a fresh receive packet. */
  function Read(id: Byte, frames: seq<seq<Byte>>): (r: ReadRun)
    ensures r.result.Some? && r.result.value.Pair? ==>
      r.sent == [if r.result.value.code == Ok then AckFrame(id) else NackFrame(id)]
    ensures !(r.result.Some? && r.result.value.Pair?) ==> r.sent == []
  {
    ReadLoop(id, frames, Init(0), 0)
  }

  /** `read` starts from a fresh `packet_t()`: when the first read is not a
      full frame it answers NACK and returns `(NO_DATA, packet_t())`. */
  lemma ReadStartsFresh(id: Byte, frames: seq<seq<Byte>>)
    requires |frames| > 0 && |frames[0]| != FIX_PACKET_LENGTH
    ensures Read(id, frames) == ReadRun([NackFrame(id)], Some(Pair(NoData, Init(0))))
  {
    ReadShortRead(id, frames, Init(0), 0);
  }

  /** A read that is not a full frame is answered with one NACK frame and
      `(NO_DATA, packet)`, the packet as earlier reads left it. */
  lemma ReadShortRead(id: Byte, frames: seq<seq<Byte>>, rx: Packet, times: nat)
    requires |frames| > 0 && |frames[0]| != FIX_PACKET_LENGTH
    ensures ReadLoop(id, frames, rx, times) == ReadRun([NackFrame(id)], Some(Pair(NoData, rx)))
  {
  }

  /** A full frame whose length byte is below 5 is dropped: no reply, the
      receive packet untouched, and the attempt counter not advanced. */
  lemma ReadDropsShortLength(id: Byte, frames: seq<seq<Byte>>, rx: Packet, times: nat)
    requires |frames| > 0 && |frames[0]| == FIX_PACKET_LENGTH && frames[0][2] < 5
    ensures ReadLoop(id, frames, rx, times) == ReadLoop(id, frames[1..], rx, times)
  {
  }

  /** A full frame whose length byte fits the payload area is answered at
      once: ACK and `(OK, packet)` when the recomputed checksum equals the
      one in bytes 43 and 44, NACK and `(CRC_ERROR, packet)` otherwise. In
      both cases the packet holds the frame's header and its first `length`
      payload bytes. */
  lemma ReadAnswers(id: Byte, frames: seq<seq<Byte>>, rx: Packet, times: nat)
    requires |frames| > 0 && |frames[0]| == FIX_PACKET_LENGTH
    requires |rx.payload| == MAX_PAYLOAD_LENGTH && 5 <= frames[0][2] <= MAX_PAYLOAD_LENGTH
    ensures var data := frames[0];
      var r := ReadLoop(id, frames, rx, times);
      var stored := data[CRC_SPAN] as int + 256 * (data[CRC_SPAN + 1] as int);
      && r.result.Some? && r.result.value.Pair?
      && (ComputeCrc(data[..CRC_SPAN]) == stored ==> r.sent == [AckFrame(id)] && r.result.value.code == Ok)
      && (ComputeCrc(data[..CRC_SPAN]) != stored ==> r.sent == [NackFrame(id)] && r.result.value.code == CrcError)
      && var p := r.result.value.packet;
      && p.id == data[0] && p.command == data[1] && p.length == data[2] && p.crc == stored
      && |p.payload| == MAX_PAYLOAD_LENGTH
      && forall k :: 0 <= k < data[2] ==> p.payload[k] == data[k + 3]
  {
    var u := Unpack(rx, Some(frames[0]));
    assert u.Returned? && u.code == Ok;
  }

  /** The responder accepts every frame the initiator packs: for a length
      byte between 5 and 40 it sends ACK and returns `OK` with the sender's
      header and payload. */
  lemma ReadAcceptsPackedFrame(id: Byte, sender: Byte, command: Byte, length: Byte, payload: seq<Byte>, rest: seq<seq<Byte>>)
    requires |payload| <= MAX_PAYLOAD_LENGTH && 5 <= length <= MAX_PAYLOAD_LENGTH
    ensures var r := Read(id, [Frame(sender, command, length, payload)] + rest);
      && r.sent == [AckFrame(id)]
      && r.result.Some? && r.result.value.Pair? && r.result.value.code == Ok
      && var p := r.result.value.packet;
      && p.id == sender && p.command == command && p.length == length
      && forall k :: 0 <= k < length ==> p.payload[k] == (if k < |payload| then payload[k] else 0)
  {
    var frame := Frame(sender, command, length, payload);
    UnpackPack(Init(0), sender, command, length, payload);
    PackLayout(Init(sender), command, length, payload);
    ReadAnswers(id, [frame] + rest, Init(0), 0);
  }

  /** A packed frame with any single byte changed, whose length byte still
      fits the payload area, is answered with NACK and `CRC_ERROR`. */
  lemma ReadRejectsCorruptedFrame(id: Byte, sender: Byte, command: Byte, length: Byte, payload: seq<Byte>,
                                  k: nat, v: Byte, rest: seq<seq<Byte>>)
    requires |payload| <= MAX_PAYLOAD_LENGTH && 5 <= length <= MAX_PAYLOAD_LENGTH
    requires k < FIX_PACKET_LENGTH && v != Frame(sender, command, length, payload)[k]
    requires k == 2 ==> 5 <= v <= MAX_PAYLOAD_LENGTH
    ensures var r := Read(id, [Frame(sender, command, length, payload)[k := v]] + rest);
      r.sent == [NackFrame(id)] && r.result.Some? && r.result.value.Pair? && r.result.value.code == CrcError
  {
    var frame := Frame(sender, command, length, payload);
    PackLayout(Init(sender), command, length, payload);
    CorruptionDetected(frame, k, v);
    ReadAnswers(id, [frame[k := v]] + rest, Init(0), 0);
  }

  // ---------------------------------------------------------------------
  // How `write` judges frames
  // ---------------------------------------------------------------------

  /** A packed frame is judged by its command: `OK` for ACK, `NACK` for
      anything else. In particular the responder's replies decide `write`. */
  lemma JudgeFrame(id: Byte, command: Byte, length: Byte, payload: seq<Byte>)
    requires |payload| <= MAX_PAYLOAD_LENGTH && 5 <= length <= MAX_PAYLOAD_LENGTH
    ensures Judge(Frame(id, command, length, payload)) == Some(if command == CMD_ACK then Ok else Nack)
    ensures Judge(AckFrame(id)) == Some(Ok) && Judge(NackFrame(id)) == Some(Nack)
  {
    UnpackPack(Init(0), id, command, length, payload);
    UnpackPack(Init(0), id, CMD_ACK, 5, Zeros(5));
    UnpackPack(Init(0), id, CMD_NACK, 5, Zeros(5));
  }

  /** A packed frame with any single byte changed, whose length byte still
      fits the payload area, is judged `CRC_ERROR`. */
  lemma JudgeCorruptedFrame(id: Byte, command: Byte, length: Byte, payload: seq<Byte>, k: nat, v: Byte)
    requires |payload| <= MAX_PAYLOAD_LENGTH && 5 <= length <= MAX_PAYLOAD_LENGTH
    requires k < FIX_PACKET_LENGTH && v != Frame(id, command, length, payload)[k]
    requires k == 2 ==> 5 <= v <= MAX_PAYLOAD_LENGTH
    ensures Judge(Frame(id, command, length, payload)[k := v]) == Some(CrcError)
  {
    var frame := Frame(id, command, length, payload);
    PackLayout(Init(id), command, length, payload);
    CorruptionDetected(frame, k, v);
  }

  // ---------------------------------------------------------------------
  // Corrected loops
  // ---------------------------------------------------------------------

  /** The `write` loop with the budget check the way round its comment and
      constant intend: give up once more than `MAX_ACK_WAIT` milliseconds
      have passed, or after `MAX_ATTEMPTS` further passes. */
  function WriteLoopIntended(ticks: seq<Tick>, times: nat): (r: (Option<ErrorCode>, nat))
    decreases |ticks|
    ensures r.1 <= |ticks|
    ensures r.0.None? ==> r.1 == |ticks| && forall i :: 0 <= i < |ticks| ==> Judge(ticks[i].data).None?
    ensures r.0.Some? ==> 1 <= r.1
  {
    if |ticks| == 0 then (None, 0)
    else
      var t := ticks[0];
      match Judge(t.data)
      case Some(code) => (Some(code), 1)
      case None =>
        if t.elapsed > MAX_ACK_WAIT then (Some(NoData), 1)
        else if times > MAX_ATTEMPTS then (Some(NoData), 1)
        else
          var rest := WriteLoopIntended(ticks[1..], times + 1);
          assert forall i :: 1 <= i < |ticks| ==> ticks[i] == ticks[1..][i - 1];
          (rest.0, rest.1 + 1)
  }

  /** `write` with the corrected budget check. */
  function WriteIntended(id: Byte, command: Byte, length: Byte, payload: seq<Byte>, ticks: seq<Tick>): (r: WriteRun)
    ensures r.sent == [Frame(id, command, length, payload)]
    ensures r.answers <= |ticks|
  {
    var (code, answers) := WriteLoopIntended(ticks, 0);
    WriteRun([Frame(id, command, length, payload)], code, answers)
  }

  /** The corrected loop waits: when the first `k` answers decide nothing
      and arrive within `MAX_ACK_WAIT`, and the budget still allows pass
      `k`, the outcome is what answer `k` decides, after `k + 1` reads. */
  lemma {:induction false} WriteLoopIntendedWaits(ticks: seq<Tick>, times: nat, k: nat)
    requires k < |ticks| && times + k <= MAX_ATTEMPTS + 1
    requires forall i :: 0 <= i < k ==> Judge(ticks[i].data).None? && ticks[i].elapsed <= MAX_ACK_WAIT
    requires Judge(ticks[k].data).Some?
    ensures WriteLoopIntended(ticks, times) == (Judge(ticks[k].data), k + 1)
    decreases k
  {
    if k > 0 {
      assert Judge(ticks[0].data).None? && ticks[0].elapsed <= MAX_ACK_WAIT;
      assert forall i :: 0 <= i < |ticks| - 1 ==> ticks[1..][i] == ticks[i + 1];
      WriteLoopIntendedWaits(ticks[1..], times + 1, k - 1);
    }
  }

  /** The corrected loop still stops after at most `MAX_ATTEMPTS + 2` reads. */
  lemma {:induction false} WriteLoopIntendedBudget(ticks: seq<Tick>, times: nat)
    requires times <= MAX_ATTEMPTS + 1
    ensures WriteLoopIntended(ticks, times).1 <= MAX_ATTEMPTS + 2 - times
    decreases |ticks|
  {
    if |ticks| > 0 && Judge(ticks[0].data).None? && ticks[0].elapsed <= MAX_ACK_WAIT && times <= MAX_ATTEMPTS {
      WriteLoopIntendedBudget(ticks[1..], times + 1);
    }
  }

  /** The inverted check as written: the responder's ACK, arriving on the
      second read 12 ms after sending, is never seen, because the empty
      first read came within the wait window and ended `write` with
      `NO_DATA`. The corrected loop returns `OK`. */
  lemma WriteMissesTimelyAck(id: Byte, command: Byte, length: Byte, payload: seq<Byte>, peer: Byte)
    ensures var ticks := [Tick([], 10), Tick(AckFrame(peer), 12)];
      && Write(id, command, length, payload, ticks).code == Some(NoData)
      && WriteIntended(id, command, length, payload, ticks).code == Some(Ok)
  {
    var ticks := [Tick([], 10), Tick(AckFrame(peer), 12)];
    JudgeFrame(peer, CMD_ACK, 5, Zeros(5));
    WriteLoopIntendedWaits(ticks, 0, 1);
  }

  /** End to end with the corrected `write`: the responder acknowledges the
      frame the initiator sent, and the initiator, reading that reply within
      its wait window and attempt budget, returns `OK`. */
  lemma Handshake(sender: Byte, receiver: Byte, command: Byte, length: Byte, payload: seq<Byte>,
                  before: seq<Tick>, elapsed: int)
    requires |payload| <= MAX_PAYLOAD_LENGTH && 5 <= length <= MAX_PAYLOAD_LENGTH
    requires |before| <= MAX_ATTEMPTS + 1
    requires forall i :: 0 <= i < |before| ==> Judge(before[i].data).None? && before[i].elapsed <= MAX_ACK_WAIT
    ensures var sent := WriteIntended(sender, command, length, payload, []).sent;
      var answer := Read(receiver, sent);
      && answer.sent == [AckFrame(receiver)]
      && WriteIntended(sender, command, length, payload, before + [Tick(answer.sent[0], elapsed)]).code == Some(Ok)
  {
    ReadAcceptsPackedFrame(receiver, sender, command, length, payload, []);
    AckHeardAfter(receiver, before, elapsed);
  }

  /** The corrected answer loop, reading an ACK reply after undecided,
      timely answers within the budget, returns `OK`. */
  lemma AckHeardAfter(receiver: Byte, before: seq<Tick>, elapsed: int)
    requires |before| <= MAX_ATTEMPTS + 1
    requires forall i :: 0 <= i < |before| ==> Judge(before[i].data).None? && before[i].elapsed <= MAX_ACK_WAIT
    ensures WriteLoopIntended(before + [Tick(AckFrame(receiver), elapsed)], 0).0 == Some(Ok)
  {
    JudgeFrame(receiver, CMD_ACK, 5, Zeros(5));
    var ticks := before + [Tick(AckFrame(receiver), elapsed)];
    assert forall i :: 0 <= i < |before| ==> ticks[i] == before[i];
    WriteLoopIntendedWaits(ticks, 0, |before|);
  }

  /** The `read` loop with the attempt limit returning the pair
      `(NO_DATA, packet)` like every other exit of `read`. */
  function ReadLoopIntended(id: Byte, frames: seq<seq<Byte>>, rx: Packet, times: nat): (r: ReadRun)
    decreases |frames|
    ensures r.result.Some? ==> r.result.value.Pair?
    ensures r.result.Some? ==>
      r.sent == [if r.result.value.code == Ok then AckFrame(id) else NackFrame(id)] || r.result.value.code == NoData
  {
    if |frames| == 0 then ReadRun([], None)
    else
      match ReadPass(id, frames[0], rx)
      case Answer(frame, result) => ReadRun([frame], Some(result))
      case Skip => ReadLoopIntended(id, frames[1..], rx, times)
      case Retry(p) =>
        if times > MAX_ATTEMPTS then ReadRun([], Some(Pair(NoData, p)))
        else ReadLoopIntended(id, frames[1..], p, times + 1)
  }

  /** The corrected loop differs from the one as written only at the
      attempt limit: same replies, same results, except that a bare
      `NO_DATA` becomes the pair `(NO_DATA, packet)`. */
  lemma {:induction false} ReadLoopIntendedAgrees(id: Byte, frames: seq<seq<Byte>>, rx: Packet, times: nat)
    ensures var a, b := ReadLoop(id, frames, rx, times), ReadLoopIntended(id, frames, rx, times);
      && a.sent == b.sent
      && a.result.None? == b.result.None?
      && (a.result.Some? && a.result.value.Pair? ==> a.result == b.result)
      && (a.result.Some? && a.result.value.Bare? ==> b.result.value.code == NoData)
    decreases |frames|
  {
    if |frames| > 0 {
      match ReadPass(id, frames[0], rx)
      case Answer(_, _) =>
      case Skip =>
        ReadLoopIntendedAgrees(id, frames[1..], rx, times);
      case Retry(p) =>
        if times <= MAX_ATTEMPTS {
          ReadLoopIntendedAgrees(id, frames[1..], p, times + 1);
        }
    }
  }

  /** A frame whose length byte exceeds the 40-byte payload area makes
      `unpack` raise. */
  lemma OversizedRaises(rx: Packet, data: seq<Byte>)
    requires |rx.payload| == MAX_PAYLOAD_LENGTH && |data| == FIX_PACKET_LENGTH && data[2] > MAX_PAYLOAD_LENGTH
    ensures Unpack(rx, Some(data)).Raised?
  {
  }

  /** As written, twelve oversized frames in a row exhaust the attempts and
      `read` returns the bare code, not a pair; the corrected loop returns
      the pair. */
  lemma ReadGivesUpBare(id: Byte, data: seq<Byte>)
    requires |data| == FIX_PACKET_LENGTH && data[2] > MAX_PAYLOAD_LENGTH
    ensures var frames := seq(MAX_ATTEMPTS + 2, _ => data);
      && Read(id, frames).result == Some(Bare(NoData))
      && ReadLoopIntended(id, frames, Init(0), 0).result.Some?
      && ReadLoopIntended(id, frames, Init(0), 0).result.value.Pair?
  {
    var frames := seq(MAX_ATTEMPTS + 2, _ => data);
    ReadGivesUpBareFrom(id, data, frames, Init(0), 0);
    ReadLoopIntendedAgrees(id, frames, Init(0), 0);
  }

  lemma {:induction false} ReadGivesUpBareFrom(id: Byte, data: seq<Byte>, frames: seq<seq<Byte>>, rx: Packet, times: nat)
    requires |data| == FIX_PACKET_LENGTH && data[2] > MAX_PAYLOAD_LENGTH
    requires |rx.payload| == MAX_PAYLOAD_LENGTH
    requires times <= MAX_ATTEMPTS + 1 && |frames| == MAX_ATTEMPTS + 2 - times
    requires forall i :: 0 <= i < |frames| ==> frames[i] == data
    ensures ReadLoop(id, frames, rx, times).result == Some(Bare(NoData))
    decreases |frames|
  {
    OversizedRaises(rx, data);
    assert frames[0] == data;
    if times <= MAX_ATTEMPTS {
      var p := Unpack(rx, Some(data)).packet;
      ReadGivesUpBareFrom(id, data, frames[1..], p, times + 1);
    }
  }
}
