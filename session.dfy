// The stateful parts of CANTP/session.py: a session's receive buffer and
// its receive and send procedures, and the registry of sessions.
//
// The CAN interface is reduced to what a session sees of it: the frames
// handed to `write`, in order, and how many more writes will succeed.
// Waiting is not modelled: a pop that finds no matching frame in the
// buffer stands for a timeout.

module Session {
  import opened Base
  import opened Cast
  import opened Frame
  import opened SessionSpec

  /** The CAN interface shared by the sessions of a manager. */
  class Bus {
    var sent: seq<Transmission>
    var writesLeft: nat

    constructor(writes: nat)
      ensures sent == [] && writesLeft == writes
    {
      sent := [];
      writesLeft := writes;
    }

    /** `write`: succeeds while writes remain, and records what it sent. */
    method Write(canId: string, payload: string, padding: string) returns (ok: bool)
      modifies this
      ensures ok <==> old(writesLeft) > 0
      ensures ok ==> sent == old(sent) + [Transmission(canId, payload, padding)] && writesLeft == old(writesLeft) - 1
      ensures !ok ==> sent == old(sent) && writesLeft == old(writesLeft)
    {
      ok := writesLeft > 0;
      if ok {
        sent := sent + [Transmission(canId, payload, padding)];
        writesLeft := writesLeft - 1;
      }
    }
  }

  class CANTPSession {
    const bus: Bus
    const ecuId: string
    const testerId: string
    const chunkLength: int
    const padding: string
    var rxFlowControl: FlowControlSettings
    var rxBuffer: seq<seq<Byte>>
    var closed: bool

    /** The identifiers are kept upper-cased; the buffer starts empty. */
    constructor(bus: Bus, ecu: string, tester: string, chunkLength: int, padding: string, rxFlowControl: FlowControlSettings)
      ensures this.bus == bus && ecuId == Upper(ecu) && testerId == Upper(tester)
      ensures this.chunkLength == chunkLength && this.padding == padding
      ensures this.rxFlowControl == rxFlowControl && rxBuffer == [] && !closed
    {
      this.bus := bus;
      ecuId := Upper(ecu);
      testerId := Upper(tester);
      this.chunkLength := chunkLength;
      this.padding := padding;
      this.rxFlowControl := rxFlowControl;
      rxBuffer := [];
      closed := false;
    }

    /** The subscription callback: a frame is buffered unless the session
        is closed. */
    method OnFrame(data: seq<Byte>)
      modifies this
      ensures rxBuffer == if old(closed) then old(rxBuffer) else old(rxBuffer) + [data]
      ensures closed == old(closed) && rxFlowControl == old(rxFlowControl)
    {
      if !closed {
        rxBuffer := rxBuffer + [data];
      }
    }

    /** close: later frames are no longer buffered. */
    method Close()
      modifies this
      ensures closed && rxBuffer == old(rxBuffer) && rxFlowControl == old(rxFlowControl)
    {
      closed := true;
    }

    method SetRxFlowControl(settings: FlowControlSettings)
      modifies this
      ensures rxFlowControl == settings && rxBuffer == old(rxBuffer) && closed == old(closed)
    {
      rxFlowControl := settings;
    }

    /** _pop_matching, without waiting: the first buffered frame of the
        kind is removed and returned. */
    method PopMatching(kind: FrameKind) returns (r: Option<seq<Byte>>)
      modifies this`rxBuffer
      ensures (r, rxBuffer) == PopFirst(old(rxBuffer), kind)
    {
      for index := 0 to |rxBuffer|
        invariant forall j :: 0 <= j < index ==> !Matches(kind, rxBuffer[j])
      {
        if Matches(kind, rxBuffer[index]) {
          r := Some(rxBuffer[index]);
          rxBuffer := rxBuffer[..index] + rxBuffer[index + 1..];
          return;
        }
      }
      r := None;
    }

    /** FlowController.send: the payload of build_payload, to the ECU. */
    method SendFlowControl(settings: FlowControlSettings) returns (ok: bool)
      modifies bus
      ensures ok <==> old(bus.writesLeft) > 0
      ensures ok ==> bus.sent == old(bus.sent) + [Transmission(ecuId, BuildPayload(settings, 3), padding)]
      ensures ok ==> bus.writesLeft == old(bus.writesLeft) - 1
      ensures !ok ==> bus.sent == old(bus.sent) && bus.writesLeft == old(bus.writesLeft)
    {
      ok := bus.Write(ecuId, BuildPayload(settings, 3), padding);
    }

    /** _wait_for_flow_control: WAIT frames are skipped, OVFLW and a
        missing frame give nothing. */
    method WaitForFlowControl() returns (r: WaitOutcome)
      modifies this`rxBuffer
      ensures r == WaitResult(old(rxBuffer)) && rxBuffer == WaitRest(old(rxBuffer))
      ensures Others(rxBuffer, FlowControlFrame) == Others(old(rxBuffer), FlowControlFrame)
    {
      WaitResultProperties(rxBuffer);
      while true
        invariant WaitResult(rxBuffer) == WaitResult(old(rxBuffer))
        invariant WaitRest(rxBuffer) == WaitRest(old(rxBuffer))
        decreases |rxBuffer|
      {
        ghost var before := rxBuffer;
        PopFirstFilter(before, FlowControlFrame);
        var payload := PopMatching(FlowControlFrame);
        if payload.None? {
          return NoFlowControl;
        }
        if |payload.value| < 3 {
          return FlowIndexError;
        }
        var fields := ExtractCF(payload.value);
        if fields.status == FlowStatusWait {
          continue;
        }
        if fields.status == FlowStatusOverflow {
          return NoFlowControl;
        }
        return FlowReady(FlowControlSettings(fields.blockSize, fields.stMin, fields.status));
      }
    }

    /** receive: a single frame's data, or a first frame and its
        consecutive frames reassembled to the announced length. */
    method Receive() returns (r: ReceiveOutcome)
      modifies this`rxBuffer, bus
      ensures r == ReceiveResult(old(rxBuffer), chunkLength, old(bus.writesLeft) > 0)
      ensures rxBuffer == ReceiveRest(old(rxBuffer), chunkLength, old(bus.writesLeft) > 0)
      ensures SendsFlowControl(old(rxBuffer), chunkLength) && old(bus.writesLeft) > 0 ==>
        bus.sent == old(bus.sent) + [Transmission(ecuId, BuildPayload(old(rxFlowControl), 3), padding)] &&
        bus.writesLeft == old(bus.writesLeft) - 1
      ensures !(SendsFlowControl(old(rxBuffer), chunkLength) && old(bus.writesLeft) > 0) ==>
        bus.sent == old(bus.sent) && bus.writesLeft == old(bus.writesLeft)
    {
      var first := PopMatching(TransportPayload);
      if first.Some? {
        r := ReceiveFrame(first.value);
      } else {
        r := Received([]);
      }
    }

    /** The rest of receive, once transport frame `frame` is popped: a
        single frame is returned at once, a first frame is answered with
        flow control and reassembled. */
    method ReceiveFrame(frame: seq<Byte>) returns (r: ReceiveOutcome)
      requires |frame| >= 1
      modifies this`rxBuffer, bus
      ensures r == FrameResult(frame, old(rxBuffer), chunkLength, old(bus.writesLeft) > 0)
      ensures rxBuffer == FrameRest(frame, old(rxBuffer), chunkLength, old(bus.writesLeft) > 0)
      ensures StartsReassembly(frame, chunkLength) && old(bus.writesLeft) > 0 ==>
        bus.sent == old(bus.sent) + [Transmission(ecuId, BuildPayload(old(rxFlowControl), 3), padding)] &&
        bus.writesLeft == old(bus.writesLeft) - 1
      ensures !(StartsReassembly(frame, chunkLength) && old(bus.writesLeft) > 0) ==>
        bus.sent == old(bus.sent) && bus.writesLeft == old(bus.writesLeft)
    {
      var pci := PciType(frame[0]);
      if pci == 0 {
        var payloadLength := frame[0] % 16;
        var stop := if 1 + payloadLength < |frame| then 1 + payloadLength else |frame|;
        return Received(frame[1..stop]);
      }
      if pci != 1 {
        return Received([]);
      }
      if |frame| < 2 || (frame[1] == 0 && |frame| < 6) {
        return IndexErrorRaised;
      }
      if chunkLength == 1 {
        return ZeroDivisionRaised;
      }
      var (expected, totalLength, data) := ExpectedFrames(frame, chunkLength);
      var ok := SendFlowControl(rxFlowControl);
      if !ok {
        return Received([]);
      }
      var message := CollectConsecutiveFrames(data, totalLength);
      return Received(if message.Some? then message.value else []);
    }

    /** The reassembly loop of receive: consecutive frames are popped and
        their data appended until `totalLength` bytes are there. */
    method CollectConsecutiveFrames(head: seq<Byte>, totalLength: nat) returns (message: Option<seq<Byte>>)
      modifies this`rxBuffer
      ensures var stream := head + CfStream(Filter(old(rxBuffer), ConsecutiveFrame));
        message == if |stream| < totalLength then None else Some(stream[..totalLength])
      ensures rxBuffer == DropMatches(old(rxBuffer), ConsecutiveFrame,
        CfCount(|head|, totalLength, Filter(old(rxBuffer), ConsecutiveFrame), 0))
    {
      ghost var rest := rxBuffer;
      ghost var k := 0;
      var data := head;
      CollectStart(rest, head, totalLength);
      while |data| < totalLength
        invariant Collecting(rest, head, data, k, totalLength)
        invariant rxBuffer == DropMatches(rest, ConsecutiveFrame, k)
        decreases |Filter(rest, ConsecutiveFrame)| - k
      {
        var cf := PopMatching(ConsecutiveFrame);
        CollectTurn(rest, head, data, k, totalLength, cf, rxBuffer);
        if cf.None? {
          return None;
        }
        data := data + Tail(cf.value);
        k := k + 1;
      }
      CollectComplete(rest, head, data, k, totalLength);
      return Some(data[..totalLength]);
    }

    /** send: the first (or single) frame, then consecutive frames until
        the data runs out, waiting for flow control after every full
        block; the run as a whole is SendResult. */
    method Send(text: string, paddingArg: Option<string>) returns (r: SendOutcome, ghost frames: nat)
      modifies this`rxBuffer, bus
      ensures var s := SendResult(text, chunkLength, old(rxBuffer), old(bus.writesLeft));
        r == s.outcome && frames == s.frames && rxBuffer == s.rest
      ensures var pad := if paddingArg.Some? then paddingArg.value else padding;
        bus.sent == old(bus.sent) + SendTransmissions(text, chunkLength, frames, ecuId, pad, old(bus.writesLeft))
      ensures bus.writesLeft == old(bus.writesLeft) - (|bus.sent| - |old(bus.sent)|)
    {
      ghost var buf0, writes0 := rxBuffer, bus.writesLeft;
      SendResultOutcome(text, chunkLength, buf0, writes0);
      frames := 0;
      var pad := if paddingArg.Some? then paddingArg.value else padding;
      var rawData := StrToHexArr(text);
      if rawData.None? || !AllBytes(rawData.value) {
        return SendValueError, 0;
      }
      var frame, remainData := ConvertFF(rawData.value, chunkLength);
      r, frames := TransmitFrom(frame, remainData, pad);
    }

    /** send once the text is decoded and convertFF has cut the first
        frame `frame`, leaving `remainData`: the first frame is written,
        and when data remains the rest follows; the run is SendFrom. */
    method TransmitFrom(frame: string, remainData: seq<Byte>, pad: string) returns (r: SendOutcome, ghost frames: nat)
      modifies this`rxBuffer, bus
      ensures var s := SendFrom(remainData, chunkLength, old(rxBuffer), old(bus.writesLeft));
        r == s.outcome && frames == s.frames && rxBuffer == s.rest
      ensures bus.sent == old(bus.sent) +
        (if old(bus.writesLeft) == 0 then []
         else [Transmission(ecuId, frame, pad)] + CfTransmissions(remainData, chunkLength, frames, ecuId, pad))
      ensures bus.writesLeft == old(bus.writesLeft) - (|bus.sent| - |old(bus.sent)|)
    {
      var ok := bus.Write(ecuId, frame, pad);
      if remainData != [] && ok {
        assert SendFrom(remainData, chunkLength, rxBuffer, old(bus.writesLeft)) ==
          SendAfterFirst(remainData, chunkLength, rxBuffer, bus.writesLeft);
        r, frames := TransmitRest(remainData, pad);
        ghost var rest := CfTransmissions(remainData, chunkLength, frames, ecuId, pad);
        assert |rest| == frames;
        assert bus.sent == old(bus.sent) + ([Transmission(ecuId, frame, pad)] + rest);
      } else {
        r, frames := Completed(ok), 0;
      }
    }

    /** send after a first frame that left `remainData`: the first flow
        control is awaited, and the consecutive frames follow with its
        block size; the run is SendAfterFirst. */
    method TransmitRest(remainData: seq<Byte>, pad: string) returns (r: SendOutcome, ghost frames: nat)
      modifies this`rxBuffer, bus
      ensures var s := SendAfterFirst(remainData, chunkLength, old(rxBuffer), old(bus.writesLeft));
        r == s.outcome && frames == s.frames && rxBuffer == s.rest
      ensures bus.sent == old(bus.sent) + CfTransmissions(remainData, chunkLength, frames, ecuId, pad)
      ensures bus.writesLeft == old(bus.writesLeft) - frames
    {
      frames := 0;
      ghost var buf0 := rxBuffer;
      var fc := WaitForFlowControl();
      if fc.FlowIndexError? {
        return SendIndexError, 0;
      }
      if fc.NoFlowControl? {
        return Completed(false), 0;
      }
      SendAfterFirstLoop(remainData, chunkLength, buf0, fc.settings.blockSize, rxBuffer, bus.writesLeft);
      RemainingTells(remainData, chunkLength);
      SentByTells(remainData, chunkLength, ecuId, pad, bus.sent);
      r, frames := SendConsecutiveFrames(remainData, pad, fc.settings, Remainder(remainData, chunkLength),
                                         Remaining(remainData, chunkLength), Await,
                                         SentBy(remainData, chunkLength, ecuId, pad, bus.sent));
      assert SentBy(remainData, chunkLength, ecuId, pad, old(bus.sent))(frames, bus.sent);
    }

    /** The write of send's loop: the next sequence number, the next
        consecutive frame cut from what the last one left, and its write.
        nextCF pads the caller's list in place; send replaces that list by
        the remainder right away, so the padding is not seen. The ghost
        `remainAt` stands for Remainder(r0, chunkLength) and `sentBy` for
        SentFrames from the record `sent0`. */
    method TransmitNext(r0: seq<Byte>, pad: string, ghost remainAt: nat -> seq<Byte>,
                        ghost sentBy: (nat, seq<Transmission>) -> bool, ghost sent0: seq<Transmission>,
                        ghost n: nat, sn: int, remain: seq<Byte>)
      returns (next: int, ok: bool, rest: seq<Byte>)
      requires TellsRemainder(remainAt, r0, chunkLength) && TellsSent(sentBy, r0, chunkLength, ecuId, pad, sent0)
      requires sn == n % 16 && remain == remainAt(n) && remain != [] && sentBy(n, bus.sent)
      modifies bus
      ensures next == (n + 1) % 16 && rest == remainAt(n + 1)
      ensures ok <==> old(bus.writesLeft) > 0
      ensures ok ==> sentBy(n + 1, bus.sent) && bus.writesLeft == old(bus.writesLeft) - 1
      ensures !ok ==> bus.sent == old(bus.sent) && bus.writesLeft == old(bus.writesLeft)
    {
      assert remain == CfRemain(r0, chunkLength, n);
      assert SentFrames(r0, chunkLength, n, ecuId, pad, sent0, bus.sent);
      next := IncreaseSN(sn);
      assert next == (n + 1) % 16 by {
        IncreaseSNMod(n);
      }
      var pending := new ByteList(remain);
      var frame;
      frame, rest := NextCF(next, pending, chunkLength);
      CfNext(r0, chunkLength, n);
      ok := bus.Write(ecuId, frame, pad);
      if ok {
        SendStep(r0, chunkLength, n, ecuId, pad, sent0, old(bus.sent), bus.sent);
      }
    }

    /** The pause after a full block: flow control is awaited, and
        anything but CTS ends the transmission. */
    method AwaitBlock() returns (stop: Option<SendOutcome>, next: FlowControlSettings)
      modifies this`rxBuffer
      ensures var w := WaitResult(old(rxBuffer));
        stop == if w.FlowIndexError? then Some(SendIndexError)
          else if !ClearToSend(w) then Some(Completed(false))
          else None
      ensures stop.None? ==> next == WaitResult(old(rxBuffer)).settings
      ensures rxBuffer == WaitRest(old(rxBuffer))
    {
      var fc := WaitForFlowControl();
      if fc.FlowIndexError? {
        return Some(SendIndexError), FlowControlSettings(0, 0, 0);
      }
      if fc.NoFlowControl? || fc.settings.flowStatus != FlowStatusCts {
        return Some(Completed(false)), FlowControlSettings(0, 0, 0);
      }
      return None, fc.settings;
    }

    /** What follows a frame written by the consecutive-frame loop: when
        it fills the block and data still remains, the next flow control
        is awaited. `resume` carries that flow control's settings when it
        says CTS; `inBlock'` and `blockSize'` are the block count and block
        size the loop goes on with. `writes` counts the writes left after
        the frame. */
    method EndOfFrame(ghost more: nat -> bool, ghost await: seq<seq<Byte>> -> Awaited, ghost n: nat,
                      inBlock: nat, blockSize: int, ghost writes: nat, dataLeft: bool, ghost waits: nat, ghost last: Option<WaitOutcome>)
      returns (stopped: Option<SendOutcome>, resume: Option<FlowControlSettings>, inBlock': nat, blockSize': int,
               ghost waits': nat, ghost last': Option<WaitOutcome>)
      requires more(n) && more(n + 1) == dataLeft && WaitsAsAwait(await)
      modifies this`rxBuffer
      ensures resume.Some? ==> stopped.None? && inBlock' == 0 && blockSize' == resume.value.blockSize
      ensures resume.None? ==> inBlock' == inBlock + 1 && blockSize' == blockSize
      ensures var run := SendLoop(more, await, n, inBlock, blockSize, old(rxBuffer), writes + 1, waits, last);
        if stopped.Some? then run == SendRun(stopped.value, n + 1, rxBuffer, waits', last')
        else run == SendLoop(more, await, n + 1, inBlock', blockSize', rxBuffer, writes, waits', last')
    {
      waits', last' := waits, last;
      stopped, resume := None, None;
      inBlock', blockSize' := inBlock + 1, blockSize;
      if blockSize != 0 && inBlock + 1 >= blockSize && dataLeft {
        ghost var before := rxBuffer;
        var settings;
        stopped, settings := AwaitBlock();
        waits' := waits + 1;
        last' := Some(WaitResult(before));
        if stopped.None? {
          resume := Some(settings);
          inBlock', blockSize' := 0, settings.blockSize;
        }
      }
    }

    /** One turn of send's loop: the next consecutive frame is written
        and, when that succeeds, what follows a frame is done. */
    method SendTurn(r0: seq<Byte>, pad: string, ghost remainAt: nat -> seq<Byte>, ghost more: nat -> bool,
                    ghost await: seq<seq<Byte>> -> Awaited, ghost sentBy: (nat, seq<Transmission>) -> bool,
                    ghost sent0: seq<Transmission>, ghost n: nat, sn: int, remain: seq<Byte>,
                    inBlock: nat, blockSize: int, ghost waits: nat, ghost last: Option<WaitOutcome>)
      returns (stopped: Option<SendOutcome>, resume: Option<FlowControlSettings>, next: int, rest: seq<Byte>,
               inBlock': nat, blockSize': int, ghost n': nat, ghost waits': nat, ghost last': Option<WaitOutcome>)
      requires TellsRemainder(remainAt, r0, chunkLength) && TellsRemaining(more, remainAt)
      requires WaitsAsAwait(await) && TellsSent(sentBy, r0, chunkLength, ecuId, pad, sent0)
      requires sn == n % 16 && remain == remainAt(n) && remain != [] && sentBy(n, bus.sent)
      modifies this`rxBuffer, bus
      ensures n <= n' <= n + 1 && (stopped.None? ==> n' == n + 1)
      ensures rest == remainAt(n') && next == n' % 16
      ensures sentBy(n', bus.sent) && bus.writesLeft == old(bus.writesLeft) - (n' - n)
      ensures var run := SendLoop(more, await, n, inBlock, blockSize, old(rxBuffer), old(bus.writesLeft), waits, last);
        if stopped.Some? then run == SendRun(stopped.value, n', rxBuffer, waits', last')
        else run == SendLoop(more, await, n', inBlock', blockSize', rxBuffer, bus.writesLeft, waits', last')
    {
      var ok;
      next, ok, rest := TransmitNext(r0, pad, remainAt, sentBy, sent0, n, sn, remain);
      if !ok {
        SendLoopOutOfWrites(more, await, n, inBlock, blockSize, rxBuffer, waits, last);
        stopped, resume, next, rest := Some(Completed(false)), None, sn, remain;
        inBlock', blockSize', n', waits', last' := inBlock, blockSize, n, waits, last;
      } else {
        stopped, resume, inBlock', blockSize', waits', last' :=
          EndOfFrame(more, await, n, inBlock, blockSize, bus.writesLeft, rest != [], waits, last);
        n' := n + 1;
      }
    }

    /** The consecutive-frame loop of send: frames are cut from `r0` and
        written until no data remains, pausing after each full block for
        a flow control frame that must say CTS and gives the next block
        size. The ghost parameters stand for what the loop is measured
        against: `remainAt` for Remainder(r0, chunkLength), `more` for
        Remaining(r0, chunkLength), `await` for Await and `sentBy` for
        SentFrames from the record as the loop finds it. */
    method SendConsecutiveFrames(r0: seq<Byte>, pad: string, settings: FlowControlSettings,
                                 ghost remainAt: nat -> seq<Byte>, ghost more: nat -> bool,
                                 ghost await: seq<seq<Byte>> -> Awaited,
                                 ghost sentBy: (nat, seq<Transmission>) -> bool)
      returns (r: SendOutcome, ghost frames: nat)
      requires TellsRemainder(remainAt, r0, chunkLength) && TellsRemaining(more, remainAt)
      requires WaitsAsAwait(await) && TellsSent(sentBy, r0, chunkLength, ecuId, pad, bus.sent)
      requires remainAt(0) == r0 && sentBy(0, bus.sent)
      modifies this`rxBuffer, bus
      ensures var s := SendLoop(more, await, 0, 0, settings.blockSize,
                                old(rxBuffer), old(bus.writesLeft), 0, None);
        r == s.outcome && frames == s.frames && rxBuffer == s.rest
      ensures sentBy(frames, bus.sent) && bus.writesLeft == old(bus.writesLeft) - frames
    {
      ghost var run := SendLoop(more, await, 0, 0, settings.blockSize, rxBuffer, bus.writesLeft, 0, None);
      ghost var waits := 0;
      ghost var last: Option<WaitOutcome> := None;
      frames := 0;
      var remainData := r0;
      var blockSize := settings.blockSize;
      var stMin := InterpretStMin(settings.stMin);
      var framesInBlock: nat := 0;
      var sequenceNumber := 0;
      var stopped: Option<SendOutcome> := None;
      while remainData != [] && stopped.None?
        invariant sentBy(frames, bus.sent) && bus.writesLeft == old(bus.writesLeft) - frames
        invariant remainData == remainAt(frames) && sequenceNumber == frames % 16
        invariant stopped.None? ==>
          run == SendLoop(more, await, frames, framesInBlock, blockSize, rxBuffer, bus.writesLeft, waits, last)
        invariant stopped.Some? ==> run == SendRun(stopped.value, frames, rxBuffer, waits, last)
        decreases bus.writesLeft, if stopped.None? then 1 else 0
      {
        var resume;
        stopped, resume, sequenceNumber, remainData, framesInBlock, blockSize, frames, waits, last :=
          SendTurn(r0, pad, remainAt, more, await, sentBy, old(bus.sent), frames, sequenceNumber, remainData,
                   framesInBlock, blockSize, waits, last);
        if resume.Some? {
          stMin := InterpretStMin(resume.value.stMin);
        }
      }
      assert remainData == [] ==> !more(frames);
      r := if stopped.Some? then stopped.value else Completed(true);
    }
  }

  /** CANTPSessionManager: one session per upper-cased (ECU, tester)
      pair, all on the same interface. */
  class CANTPSessionManager {
    const bus: Bus
    const chunkLength: int
    const padding: string
    const defaultRxFlowControl: FlowControlSettings
    var sessions: map<(string, string), CANTPSession>

    constructor(bus: Bus, chunkLength: int, padding: string, defaultRxFlowControl: FlowControlSettings)
      ensures this.bus == bus && this.chunkLength == chunkLength && this.padding == padding
      ensures this.defaultRxFlowControl == defaultRxFlowControl && sessions == map[]
    {
      this.bus := bus;
      this.chunkLength := chunkLength;
      this.padding := padding;
      this.defaultRxFlowControl := defaultRxFlowControl;
      sessions := map[];
    }

    /** Every registered session sits under the key of its own
        identifiers and shares the manager's interface. */
    ghost predicate Valid()
      reads this, set key | key in sessions :: sessions[key]
    {
      forall key :: key in sessions ==>
        key == (sessions[key].ecuId, sessions[key].testerId) && sessions[key].bus == bus &&
        sessions[key].chunkLength == chunkLength && sessions[key].padding == padding
    }

    /** get_session: the registered session for the key, or a new one with
        a copy of the default flow control settings. */
    method GetSession(ecu: string, tester: string) returns (s: CANTPSession)
      requires Valid()
      modifies this
      ensures Valid()
      ensures (Upper(ecu), Upper(tester)) in sessions && s == sessions[(Upper(ecu), Upper(tester))]
      ensures (Upper(ecu), Upper(tester)) in old(sessions) ==> sessions == old(sessions)
      ensures (Upper(ecu), Upper(tester)) !in old(sessions) ==>
        fresh(s) && sessions == old(sessions)[(Upper(ecu), Upper(tester)) := s] &&
        s.rxFlowControl == defaultRxFlowControl && s.rxBuffer == [] && s.bus == bus
    {
      var key := (Upper(ecu), Upper(tester));
      if key in sessions {
        s := sessions[key];
      } else {
        s := new CANTPSession(bus, ecu, tester, chunkLength, padding, CloneFlowControl());
        sessions := sessions[key := s];
      }
    }

    /** configure_rx_flow_control: the session for the key, created as
        get_session would, gets the given receive settings. */
    method ConfigureRxFlowControl(ecu: string, tester: string, settings: FlowControlSettings)
      requires Valid()
      modifies this, set key | key in sessions :: sessions[key]
      ensures Valid()
      ensures (Upper(ecu), Upper(tester)) in sessions
      ensures sessions[(Upper(ecu), Upper(tester))].rxFlowControl == settings
      ensures (Upper(ecu), Upper(tester)) in old(sessions) ==> sessions == old(sessions)
      ensures (Upper(ecu), Upper(tester)) !in old(sessions) ==>
        fresh(sessions[(Upper(ecu), Upper(tester))]) &&
        sessions == old(sessions)[(Upper(ecu), Upper(tester)) := sessions[(Upper(ecu), Upper(tester))]]
    {
      var s := GetSession(ecu, tester);
      s.SetRxFlowControl(settings);
    }

    /** shutdown: every registered session is closed, its buffer and
        settings kept, and then the registry is emptied, so a later
        get_session creates new sessions. */
    method Shutdown()
      modifies this, set key | key in sessions :: sessions[key]
      ensures sessions == map[]
      ensures forall s :: s in old(sessions).Values ==>
        s.closed && s.rxBuffer == old(s.rxBuffer) && s.rxFlowControl == old(s.rxFlowControl)
    {
      var todo := sessions.Keys;
      while todo != {}
        invariant todo <= sessions.Keys && sessions == old(sessions)
        invariant forall key :: key in sessions && key !in todo ==> sessions[key].closed
        invariant forall s :: s in sessions.Values ==>
          s.rxBuffer == old(s.rxBuffer) && s.rxFlowControl == old(s.rxFlowControl)
        decreases todo
      {
        var key :| key in todo;
        sessions[key].Close();
        todo := todo - {key};
      }
      sessions := map[];
    }

    /** _clone_flow_control: a copy of the default settings. */
    function CloneFlowControl(): (c: FlowControlSettings)
      ensures c == defaultRxFlowControl
    {
      FlowControlSettings(defaultRxFlowControl.blockSize, defaultRxFlowControl.stMin, defaultRxFlowControl.flowStatus)
    }
  }
}
