/** The initiator demo of pyOscup/Examples/Test_read/Test_read.py: an older
    `packet_t` whose fields start unset (`None`) and whose buffer is not
    padded, and a `write` that sends one frame and then counts the bursts
    the port delivers, resending the frame after some of them.

    Its `computeCRC` is the pyOscup loop (`Packets.PyComputeCrc`) with an
    added assertion that the array is not `None`, which no caller here can
    violate; its `encodeInteger` differs from pyOscup's in returning `None`
    for lengths outside 1 to 4. */
module ReadDraft {
  import opened Bytes
  import Packets

  /** Milliseconds `write` keeps reading after the send. */
  const MAX_ACK_WAIT: int := 300
  /** Passes after which `write` stops. */
  const MAX_ATTEMPTS: nat := 100
  /** The id every demo frame carries. */
  const DEVICE_ID: Byte := 0xC4
  /** The value in position 2 of a burst that makes `write` resend. */
  const RESEND_MARK: Byte := 0xFF

  // ---------------------------------------------------------------------
  // The packet object
  // ---------------------------------------------------------------------

  /** One state of the demo `packet_t`; `None` is Python's `None`. */
  datatype DemoPacket = DemoPacket(
    id: Option<Byte>, command: Option<Byte>, length: Option<Byte>,
    payload: Option<seq<Byte>>, crc: Option<nat>, buff: Option<seq<Byte>>)

  /** `packet_t(id)`: only the id is set. */
  function Fresh(id: Option<Byte>): (r: DemoPacket)
    ensures r.id == id && r.command.None? && r.length.None?
    ensures r.payload.None? && r.crc.None? && r.buff.None?
    ensures GetBuff(r).None?
  {
    DemoPacket(id, None, None, None, None, None)
  }

  /** `packet_t.reset`: every field, the id included, back to `None`. */
  function Reset(p: DemoPacket): (r: DemoPacket)
    ensures r.id.None? && r.command.None? && r.length.None?
    ensures r.payload.None? && r.crc.None? && r.buff.None?
  {
    Fresh(None)
  }

  /** `encodeInteger`: `length` bytes holding `value` modulo 256 to the
      `length`, least significant first, for lengths 1 to 4; otherwise the
      function falls off its end and returns `None`. */
  function EncodeInteger(value: int, length: nat): (data: Option<seq<Byte>>)
    ensures data.Some? <==> 1 <= length <= 4
    ensures data.Some? ==> |data.value| == length && LeValue(data.value) == value % Pow256(length)
  {
    if 1 <= length <= 4 then Some(Packets.EncodeInteger(value, length)) else None
  }

  /** `packet_t.__updateBuff`: id, command, length and payload, then the
      stored checksum, low byte first, when one is stored. `None` when one
      of the first four fields is unset: `bytearray([None])` and
      `extend(None)` raise TypeError. */
  function Rebuild(p: DemoPacket): (b: Option<seq<Byte>>)
    ensures b.Some? <==> p.id.Some? && p.command.Some? && p.length.Some? && p.payload.Some?
    ensures b.Some? ==>
      var n := 3 + |p.payload.value|;
      && |b.value| == n + (if p.crc.Some? then 2 else 0)
      && b.value[..n] == [p.id.value, p.command.value, p.length.value] + p.payload.value
      && (p.crc.Some? ==> b.value[n] as int + 256 * (b.value[n + 1] as int) == p.crc.value % 0x1_0000)
  {
    if p.id.None? || p.command.None? || p.length.None? || p.payload.None? then None
    else
      var body := [p.id.value, p.command.value, p.length.value] + p.payload.value;
      if p.crc.None? then Some(body)
      else
        Packets.EncodeInteger2(p.crc.value);
        assert (body + Packets.EncodeInteger(p.crc.value, 2))[..|body|] == body;
        Some(body + Packets.EncodeInteger(p.crc.value, 2))
  }

  /** `packet_t.update`: stores the header fields and payload, rebuilds the
      buffer, then stores the checksum of that buffer and appends it, low
      byte first. The buffer always ends with the checksum of everything
      before it; it is `None` only when the id is unset. */
  function Update(p: DemoPacket, command: Byte, length: Byte, payload: seq<Byte>): (r: Option<DemoPacket>)
    ensures r.Some? <==> p.id.Some?
    ensures r.Some? ==>
      var q := r.value;
      && q.id == p.id && q.command == Some(command) && q.length == Some(length) && q.payload == Some(payload)
      && q.crc.Some? && q.buff.Some?
      && var b := q.buff.value;
      && |b| == 5 + |payload| + (if p.crc.Some? then 2 else 0)
      && b[..3 + |payload|] == [p.id.value, command, length] + payload
      && q.crc.value == Packets.ComputeCrc(b[..|b| - 2])
      && b[|b| - 2] as int + 256 * (b[|b| - 1] as int) == q.crc.value
  {
    var q := p.(command := Some(command), length := Some(length), payload := Some(payload));
    match Rebuild(q)
    case None => None
    case Some(b) =>
      var crc := Packets.ComputeCrc(b);
      var enc := Packets.EncodeInteger(crc, 2);
      Packets.EncodeInteger2(crc);
      assert (b + enc)[..|b|] == b;
      assert (b + enc)[..3 + |payload|] == b[..3 + |payload|];
      Some(q.(crc := Some(crc), buff := Some(b + enc)))
  }

  /** `packet_t.getBuff`: rebuilds the buffer from the fields and returns
      it; `None` when `__updateBuff` raises. */
  function GetBuff(p: DemoPacket): (r: Option<(DemoPacket, seq<Byte>)>)
    ensures r.Some? <==> p.id.Some? && p.command.Some? && p.length.Some? && p.payload.Some?
    ensures r.Some? ==> r.value.0 == p.(buff := Some(r.value.1))
    ensures r.Some? ==>
      var b, n := r.value.1, 3 + |p.payload.value|;
      && |b| == n + (if p.crc.Some? then 2 else 0)
      && b[..n] == [p.id.value, p.command.value, p.length.value] + p.payload.value
      && (p.crc.Some? ==> b[n] as int + 256 * (b[n + 1] as int) == p.crc.value % 0x1_0000)
  {
    match Rebuild(p)
    case None => None
    case Some(b) => Some((p.(buff := Some(b)), b))
  }

  /** `update` on a packet holding no checksum builds exactly the header,
      the payload and the checksum of both, low byte first, with no
      padding. */
  lemma UpdateFresh(p: DemoPacket, command: Byte, length: Byte, payload: seq<Byte>)
    requires p.id.Some? && p.crc.None?
    ensures var body := [p.id.value, command, length] + payload;
      var crc := Packets.ComputeCrc(body);
      && Update(p, command, length, payload).Some?
      && Update(p, command, length, payload).value.crc == Some(crc)
      && Update(p, command, length, payload).value.buff == Some(body + Packets.EncodeInteger(crc, 2))
  {
  }

  /** After one `update` on a packet holding no checksum, `getBuff` returns
      exactly the bytes `update` built, and asking again changes nothing:
      every resend of `write` repeats the first frame. */
  lemma GetBuffAfterUpdate(p: DemoPacket, command: Byte, length: Byte, payload: seq<Byte>)
    requires p.id.Some? && p.crc.None?
    ensures var q := Update(p, command, length, payload);
      && q.Some?
      && GetBuff(q.value).Some?
      && GetBuff(q.value).value.1 == q.value.buff.value
      && GetBuff(GetBuff(q.value).value.0) == GetBuff(q.value)
  {
    var q := Update(p, command, length, payload).value;
    var body := [p.id.value, command, length] + payload;
    UpdateFresh(p, command, length, payload);
    Packets.EncodeInteger2(q.crc.value);
  }

  /** A packet that was reset cannot be updated or serialised: its id is
      gone. */
  lemma ResetLosesId(p: DemoPacket, command: Byte, length: Byte, payload: seq<Byte>)
    ensures Update(Reset(p), command, length, payload).None?
    ensures GetBuff(Reset(p)).None?
  {
  }

  /** Updating a packet a second time keeps the old checksum bytes between
      the payload and the new checksum, and the new checksum covers them.
      With the same arguments the new checksum is always 0: the checksum
      of bytes followed by their own checksum. */
  lemma UpdateTwice(p: DemoPacket, command: Byte, length: Byte, payload: seq<Byte>)
    requires p.id.Some? && p.crc.None?
    ensures var q := Update(p, command, length, payload).value;
      var q2 := Update(q, command, length, payload);
      var n := 3 + |payload|;
      && q2.Some?
      && |q2.value.buff.value| == n + 4
      && q2.value.buff.value[n..n + 2] == q.buff.value[n..n + 2]
      && q2.value.crc == Some(0)
      && q2.value.buff.value[n + 2..] == [0, 0]
  {
    var body := [p.id.value, command, length] + payload;
    var c1 := Packets.ComputeCrc(body);
    var enc := Packets.EncodeInteger(c1, 2);
    UpdateFresh(p, command, length, payload);
    var q := Update(p, command, length, payload).value;
    assert q.buff.value == body + enc;
    var q2 := Update(q, command, length, payload).value;
    Packets.EncodeInteger2(c1);
    assert Rebuild(q.(command := Some(command), length := Some(length), payload := Some(payload))) == Some(body + enc);
    Packets.ComputeCrcResidue(body);
    Packets.EncodeInteger2(0);
    assert q2.buff.value == body + enc + [0, 0];
  }

  /** `update` as evidently intended: the checksum is recomputed over the
      header and payload alone, whatever the packet held before. */
  function UpdateFixed(p: DemoPacket, command: Byte, length: Byte, payload: seq<Byte>): (r: Option<DemoPacket>)
    ensures r.Some? <==> p.id.Some?
    ensures r.Some? ==>
      var body := [p.id.value, command, length] + payload;
      var crc := Packets.ComputeCrc(body);
      && r.value.crc == Some(crc)
      && r.value.buff == Some(body + Packets.EncodeInteger(crc, 2))
  {
    if p.id.Some? then UpdateFresh(p.(crc := None), command, length, payload); Update(p.(crc := None), command, length, payload)
    else None
  }

  /** The corrected `update` can be repeated: a second call with the same
      arguments leaves the packet as the first one did, and `getBuff`
      returns the bytes it built. */
  lemma UpdateFixedRepeatable(p: DemoPacket, command: Byte, length: Byte, payload: seq<Byte>)
    requires p.id.Some?
    ensures var q := UpdateFixed(p, command, length, payload);
      && q.Some?
      && UpdateFixed(q.value, command, length, payload) == q
      && GetBuff(q.value).Some? && GetBuff(q.value).value.1 == q.value.buff.value
  {
    var q := UpdateFixed(p, command, length, payload).value;
    var q2 := UpdateFixed(q, command, length, payload).value;
    assert q2.id == q.id && q2.command == q.command && q2.length == q.length && q2.payload == q.payload;
    assert q2.crc == q.crc && q2.buff == q.buff;
    Packets.EncodeInteger2(q.crc.value);
  }

  // ---------------------------------------------------------------------
  // The write loop
  // ---------------------------------------------------------------------

  /** One pass of the outer loop of `write`: the milliseconds since the
      send when the loop condition is checked, and the bytes the inner loop
      collected before the port returned nothing. */
  datatype Burst = Burst(elapsed: int, data: seq<Byte>)

  /** How `write` ended: the loop condition failed, reading position 2 of
      a burst shorter than 3 bytes raised IndexError, or the script ran out
      while the loop was still going. */
  datatype Ending = Finished | IndexError | Waiting

  /** What `write` did: every frame it sent, the passes it made and how it
      ended. */
  datatype DemoRun = DemoRun(sent: seq<seq<Byte>>, passes: nat, ending: Ending)

  /** A burst after which `write` resends its frame. */
  predicate Marked(b: Burst)
  {
    |b.data| >= 3 && b.data[2] == RESEND_MARK
  }

  /** The number of marked bursts. */
  function CountMarked(bursts: seq<Burst>): (n: nat)
    ensures n <= |bursts|
  {
    if |bursts| == 0 then 0 else (if Marked(bursts[0]) then 1 else 0) + CountMarked(bursts[1..])
  }

  /** The outer loop of `write` from the pass where `cont` passes are done.
      The receive packet is reset before every pass and never filled, so
      its checksum is always `None` and never equals the random sentinel:
      the loop condition reduces to the clock and the attempt counter. Each
      pass counts one attempt and resends the frame exactly when position 2
      of the burst is 0xFF. */
  function WriteLoop(frame: seq<Byte>, bursts: seq<Burst>, cont: nat): (r: DemoRun)
    decreases |bursts|
    ensures r.passes <= |bursts|
    ensures cont <= MAX_ATTEMPTS + 1 ==> r.passes <= MAX_ATTEMPTS + 1 - cont
    ensures cont > MAX_ATTEMPTS ==> r == DemoRun([], 0, Finished)
    ensures forall i :: 0 <= i < |r.sent| ==> r.sent[i] == frame
    ensures |r.sent| == CountMarked(bursts[..r.passes])
  {
    if cont > MAX_ATTEMPTS then DemoRun([], 0, Finished)
    else if |bursts| == 0 then DemoRun([], 0, Waiting)
    else if bursts[0].elapsed > MAX_ACK_WAIT then DemoRun([], 0, Finished)
    else if |bursts[0].data| < 3 then
      assert bursts[..1][1..] == [];
      DemoRun([], 1, IndexError)
    else
      var rest := WriteLoop(frame, bursts[1..], cont + 1);
      var resend := if bursts[0].data[2] == RESEND_MARK then [frame] else [];
      assert bursts[..rest.passes + 1][1..] == bursts[1..][..rest.passes];
      DemoRun(resend + rest.sent, rest.passes + 1, rest.ending)
  }

  /** Every pass the outer loop made was within the time budget and read
      at least 3 bytes, except a last pass that raised IndexError. */
  lemma {:induction false} WriteLoopPasses(frame: seq<Byte>, bursts: seq<Burst>, cont: nat)
    decreases |bursts|
    ensures var r := WriteLoop(frame, bursts, cont);
      && (forall i :: 0 <= i < r.passes ==> bursts[i].elapsed <= MAX_ACK_WAIT)
      && (forall i :: 0 <= i < r.passes && !(r.ending == IndexError && i == r.passes - 1) ==> |bursts[i].data| >= 3)
  {
    if cont <= MAX_ATTEMPTS && |bursts| > 0 && bursts[0].elapsed <= MAX_ACK_WAIT && |bursts[0].data| >= 3 {
      WriteLoopPasses(frame, bursts[1..], cont + 1);
      var rest := WriteLoop(frame, bursts[1..], cont + 1);
      assert forall i :: 1 <= i <= rest.passes ==> bursts[i] == bursts[1..][i - 1];
    }
  }

  /** Why the outer loop stopped: IndexError on a last burst shorter than 3
      bytes; finished because the attempts were used up or the next check
      saw the budget exceeded; waiting only once the script is exhausted. */
  lemma {:induction false} WriteLoopEnding(frame: seq<Byte>, bursts: seq<Burst>, cont: nat)
    decreases |bursts|
    ensures var r := WriteLoop(frame, bursts, cont);
      && (r.ending == IndexError ==> r.passes > 0 && |bursts[r.passes - 1].data| < 3)
      && (r.ending == Finished ==>
           cont + r.passes > MAX_ATTEMPTS || (r.passes < |bursts| && bursts[r.passes].elapsed > MAX_ACK_WAIT))
      && (r.ending == Waiting ==> r.passes == |bursts|)
  {
    if cont <= MAX_ATTEMPTS && |bursts| > 0 && bursts[0].elapsed <= MAX_ACK_WAIT && |bursts[0].data| >= 3 {
      WriteLoopEnding(frame, bursts[1..], cont + 1);
      var rest := WriteLoop(frame, bursts[1..], cont + 1);
      if rest.passes > 0 {
        assert bursts[rest.passes] == bursts[1..][rest.passes - 1];
      }
      if rest.passes < |bursts| - 1 {
        assert bursts[rest.passes + 1] == bursts[1..][rest.passes];
      }
    }
  }

  /** `write`: builds the frame on a packet with this device's id, sends
      it, then runs the outer loop, resending the same frame after every
      marked burst. At most `MAX_ATTEMPTS + 1` passes are made. */
  function Write(command: Byte, length: Byte, payload: seq<Byte>, bursts: seq<Burst>): (r: DemoRun)
    ensures r.passes <= MAX_ATTEMPTS + 1 && r.passes <= |bursts|
    ensures var body := [DEVICE_ID, command, length] + payload;
      && |r.sent| == 1 + CountMarked(bursts[..r.passes])
      && (forall i :: 0 <= i < |r.sent| ==> r.sent[i] == body + Packets.EncodeInteger(Packets.ComputeCrc(body), 2))
  {
    var p := Fresh(Some(DEVICE_ID));
    GetBuffAfterUpdate(p, command, length, payload);
    UpdateFresh(p, command, length, payload);
    var tx := Update(p, command, length, payload).value;
    var frame := GetBuff(tx).value.1;
    var rest := WriteLoop(frame, bursts, 0);
    DemoRun([frame] + rest.sent, rest.passes, rest.ending)
  }

  /** A burst of fewer than 3 bytes within the time budget ends `write`
      with IndexError on that pass, after resending once for every earlier
      marked burst. */
  lemma {:induction false} ShortBurstRaises(frame: seq<Byte>, bursts: seq<Burst>, cont: nat, k: nat)
    requires k < |bursts| && cont + k <= MAX_ATTEMPTS
    requires forall i :: 0 <= i <= k ==> bursts[i].elapsed <= MAX_ACK_WAIT
    requires forall i :: 0 <= i < k ==> |bursts[i].data| >= 3
    requires |bursts[k].data| < 3
    ensures WriteLoop(frame, bursts, cont).ending == IndexError
    ensures WriteLoop(frame, bursts, cont).passes == k + 1
    decreases k
  {
    if k > 0 {
      assert forall i :: 0 <= i <= k - 1 ==> bursts[1..][i] == bursts[i + 1];
      ShortBurstRaises(frame, bursts[1..], cont + 1, k - 1);
    }
  }
}
